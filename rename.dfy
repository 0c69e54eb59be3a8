/**
 * Reading BILOU and BMEWO tags as IOBES tags and back, one token at a time.
 * BILOU's `L`/`U` are IOBES's `E`/`S`; BMEWO's `M`/`W` are IOBES's `I`/`S`;
 * `O`, `B` and (for BMEWO) `E` are shared. Each renaming is two applications
 * of `replace_prefix` (iobes/utils.py:13-16).
 */
module Rename {
  import opened Iobes
  import opened TagUtils
  import opened Spans
  import opened Format
  import opened Layout

  function BilouToIobesToken(tag: string): string {
    ReplacePrefix(ReplacePrefix(tag, Last + Sep, End + Sep), Unit + Sep, Single + Sep)
  }

  function IobesToBilouToken(tag: string): string {
    ReplacePrefix(ReplacePrefix(tag, End + Sep, Last + Sep), Single + Sep, Unit + Sep)
  }

  function BmeowToIobesToken(tag: string): string {
    ReplacePrefix(ReplacePrefix(tag, Middle + Sep, Inside + Sep), Whole + Sep, Single + Sep)
  }

  function IobesToBmeowToken(tag: string): string {
    ReplacePrefix(ReplacePrefix(tag, Inside + Sep, Middle + Sep), Single + Sep, Whole + Sep)
  }

  /** A renaming applied to every tag. */
  function MapTokens(tags: seq<string>, f: string -> string): (r: seq<string>)
    ensures |r| == |tags| && forall i :: 0 <= i < |tags| ==> r[i] == f(tags[i])
  {
    seq(|tags|, i requires 0 <= i < |tags| => f(tags[i]))
  }

  /** A tag begins with `code-` exactly when its first two characters are the code and the separator. */
  predicate HeadIs(tag: string, code: string)
    requires |code| == 1
  {
    |tag| >= 2 && tag[0] == code[0] && tag[1] == '-'
  }

  lemma StartsWithCode(tag: string, code: string)
    requires |code| == 1
    ensures StartsWith(tag, code + Sep) <==> HeadIs(tag, code)
  {
    if HeadIs(tag, code) {
      assert tag[..2] == [tag[0], tag[1]];
    }
  }

  /** Replacing the leading `c-` by `d-` keeps the rest of the tag and gives a tag headed by `d`. */
  lemma ReplaceCode(tag: string, c: string, d: string)
    requires |c| == 1 && |d| == 1
    ensures ReplacePrefix(tag, c + Sep, d + Sep) == if HeadIs(tag, c) then d + Sep + tag[2..] else tag
    ensures HeadIs(tag, c) ==> HeadIs(ReplacePrefix(tag, c + Sep, d + Sep), d)
    ensures HeadIs(tag, c) ==> ReplacePrefix(tag, c + Sep, d + Sep)[2..] == tag[2..]
    ensures !HeadIs(tag, c) ==> ReplacePrefix(tag, c + Sep, d + Sep) == tag
  {
    StartsWithCode(tag, c);
    assert |c + Sep| == 2;
    if HeadIs(tag, c) {
      var r := d + Sep + tag[2..];
      assert r[0] == d[0] && r[1] == '-';
      assert r[2..] == tag[2..];
    }
  }

  /** A tag built from a one-letter code is headed by exactly that code. */
  lemma MadeTagHead(c: string, t: string, d: string)
    requires |c| == 1 && |d| == 1
    ensures HeadIs(MakeTag(c, t, Sep), d) <==> c == d
    ensures MakeTag(c, t, Sep)[2..] == t
  {
    var tag := MakeTag(c, t, Sep);
    assert tag[0] == c[0] && tag[1] == '-';
    assert c == [c[0]] && d == [d[0]];
    assert tag[2..] == t;
  }

  lemma OutsideHead(d: string)
    requires |d| == 1
    ensures !HeadIs(Outside, d)
  {
  }

  // ------------------------------------------------------------- round trips on single tags

  /** Renaming to IOBES and back restores any tag that does not already use IOBES's own `E-`/`S-`. */
  lemma BilouTokenRoundTrip(tag: string)
    requires !HeadIs(tag, End) && !HeadIs(tag, Single)
    ensures IobesToBilouToken(BilouToIobesToken(tag)) == tag
  {
    ReplaceCode(tag, Last, End);
    var a := ReplacePrefix(tag, Last + Sep, End + Sep);
    ReplaceCode(a, Unit, Single);
    var b := ReplacePrefix(a, Unit + Sep, Single + Sep);
    ReplaceCode(b, End, Last);
    var c := ReplacePrefix(b, End + Sep, Last + Sep);
    ReplaceCode(c, Single, Unit);
    if HeadIs(tag, Last) {
      assert !HeadIs(a, Unit) && HeadIs(c, Last);
      assert c == Last + Sep + tag[2..];
      assert tag == [tag[0], tag[1]] + tag[2..];
    } else if HeadIs(tag, Unit) {
      assert a == tag && !HeadIs(b, End);
      assert tag == [tag[0], tag[1]] + tag[2..];
    }
  }

  /** Renaming an IOBES tag to BILOU and back restores it, unless it already uses BILOU's `L-`/`U-`. */
  lemma IobesBilouTokenRoundTrip(tag: string)
    requires !HeadIs(tag, Last) && !HeadIs(tag, Unit)
    ensures BilouToIobesToken(IobesToBilouToken(tag)) == tag
  {
    ReplaceCode(tag, End, Last);
    var a := ReplacePrefix(tag, End + Sep, Last + Sep);
    ReplaceCode(a, Single, Unit);
    var b := ReplacePrefix(a, Single + Sep, Unit + Sep);
    ReplaceCode(b, Last, End);
    var c := ReplacePrefix(b, Last + Sep, End + Sep);
    ReplaceCode(c, Unit, Single);
    if HeadIs(tag, End) {
      assert !HeadIs(a, Single) && HeadIs(c, End);
      assert c == End + Sep + tag[2..];
      assert tag == [tag[0], tag[1]] + tag[2..];
    } else if HeadIs(tag, Single) {
      assert a == tag && !HeadIs(b, Last);
      assert tag == [tag[0], tag[1]] + tag[2..];
    }
  }

  /** BMEWO to IOBES and back restores any tag that does not already use IOBES's `I-`/`S-`. */
  lemma BmeowTokenRoundTrip(tag: string)
    requires !HeadIs(tag, Inside) && !HeadIs(tag, Single)
    ensures IobesToBmeowToken(BmeowToIobesToken(tag)) == tag
  {
    ReplaceCode(tag, Middle, Inside);
    var a := ReplacePrefix(tag, Middle + Sep, Inside + Sep);
    ReplaceCode(a, Whole, Single);
    var b := ReplacePrefix(a, Whole + Sep, Single + Sep);
    ReplaceCode(b, Inside, Middle);
    var c := ReplacePrefix(b, Inside + Sep, Middle + Sep);
    ReplaceCode(c, Single, Whole);
    if HeadIs(tag, Middle) {
      assert !HeadIs(a, Whole) && HeadIs(c, Middle);
      assert c == Middle + Sep + tag[2..];
      assert tag == [tag[0], tag[1]] + tag[2..];
    } else if HeadIs(tag, Whole) {
      assert a == tag && !HeadIs(b, Inside);
      assert tag == [tag[0], tag[1]] + tag[2..];
    }
  }

  /** IOBES to BMEWO and back restores any tag that does not already use BMEWO's `M-`/`W-`. */
  lemma IobesBmeowTokenRoundTrip(tag: string)
    requires !HeadIs(tag, Middle) && !HeadIs(tag, Whole)
    ensures BmeowToIobesToken(IobesToBmeowToken(tag)) == tag
  {
    ReplaceCode(tag, Inside, Middle);
    var a := ReplacePrefix(tag, Inside + Sep, Middle + Sep);
    ReplaceCode(a, Single, Whole);
    var b := ReplacePrefix(a, Single + Sep, Whole + Sep);
    ReplaceCode(b, Middle, Inside);
    var c := ReplacePrefix(b, Middle + Sep, Inside + Sep);
    ReplaceCode(c, Whole, Single);
    if HeadIs(tag, Inside) {
      assert !HeadIs(a, Whole) && HeadIs(c, Inside);
      assert c == Inside + Sep + tag[2..];
      assert tag == [tag[0], tag[1]] + tag[2..];
    } else if HeadIs(tag, Single) {
      assert a == tag && !HeadIs(b, Middle);
      assert tag == [tag[0], tag[1]] + tag[2..];
    }
  }

  // ------------------------------------------------------------- renaming whole encodings

  /** Renaming a tag built from a code renames the code and keeps the type. */
  lemma RenameMadeTag(c: string, t: string)
    requires |c| == 1
    ensures BilouToIobesToken(MakeTag(c, t, Sep)) ==
      MakeTag(if c == Last then End else if c == Unit then Single else c, t, Sep)
    ensures IobesToBilouToken(MakeTag(c, t, Sep)) ==
      MakeTag(if c == End then Last else if c == Single then Unit else c, t, Sep)
    ensures BmeowToIobesToken(MakeTag(c, t, Sep)) ==
      MakeTag(if c == Middle then Inside else if c == Whole then Single else c, t, Sep)
    ensures IobesToBmeowToken(MakeTag(c, t, Sep)) ==
      MakeTag(if c == Inside then Middle else if c == Single then Whole else c, t, Sep)
  {
    var tag := MakeTag(c, t, Sep);
    MadeTagHead(c, t, Last); MadeTagHead(c, t, Unit); MadeTagHead(c, t, End); MadeTagHead(c, t, Single);
    MadeTagHead(c, t, Middle); MadeTagHead(c, t, Whole); MadeTagHead(c, t, Inside);
    ReplaceCode(tag, Last, End); ReplaceCode(tag, End, Last);
    ReplaceCode(tag, Middle, Inside); ReplaceCode(tag, Inside, Middle);
    var a1 := ReplacePrefix(tag, Last + Sep, End + Sep);
    var a2 := ReplacePrefix(tag, End + Sep, Last + Sep);
    var a3 := ReplacePrefix(tag, Middle + Sep, Inside + Sep);
    var a4 := ReplacePrefix(tag, Inside + Sep, Middle + Sep);
    ReplaceCode(a1, Unit, Single); ReplaceCode(a2, Single, Unit);
    ReplaceCode(a3, Whole, Single); ReplaceCode(a4, Single, Whole);
    ExtendTag(a1, c == Last, End, t); ExtendTag(a2, c == End, Last, t);
    ExtendTag(a3, c == Middle, Inside, t); ExtendTag(a4, c == Inside, Middle, t);
  }

  /** After one code replacement the tag is either as built or headed by the new code, with the same type. */
  lemma ExtendTag(a: string, replaced: bool, d: string, t: string)
    requires |d| == 1
    requires replaced ==> HeadIs(a, d) && a[2..] == t
    ensures replaced ==> a == MakeTag(d, t, Sep)
    ensures replaced ==> forall e :: |e| == 1 ==> (HeadIs(a, e) <==> d == e)
  {
    if replaced {
      assert a == [a[0], a[1]] + a[2..];
      assert d == [d[0]];
      forall e | |e| == 1 ensures HeadIs(a, e) <==> d == e {
        assert e == [e[0]];
      }
    }
  }

  /** Renaming the BILOU reference encoding gives the IOBES one, and back. */
  lemma BilouEncodeRenames(spans: seq<Span>, n: nat)
    ensures MapTokens(Encode(BilouFormat, spans, n), BilouToIobesToken) == Encode(IobesFormat, spans, n)
    ensures MapTokens(Encode(IobesFormat, spans, n), IobesToBilouToken) == Encode(BilouFormat, spans, n)
  {
    forall j | 0 <= j < n
      ensures BilouToIobesToken(TagAt(BilouFormat, spans, j)) == TagAt(IobesFormat, spans, j)
      ensures IobesToBilouToken(TagAt(IobesFormat, spans, j)) == TagAt(BilouFormat, spans, j)
    {
      RenameAt(spans, j);
    }
  }

  /** Renaming the BMEWO reference encoding gives the IOBES one, and back. */
  lemma BmeowEncodeRenames(spans: seq<Span>, n: nat)
    ensures MapTokens(Encode(BmeowFormat, spans, n), BmeowToIobesToken) == Encode(IobesFormat, spans, n)
    ensures MapTokens(Encode(IobesFormat, spans, n), IobesToBmeowToken) == Encode(BmeowFormat, spans, n)
  {
    forall j | 0 <= j < n
      ensures BmeowToIobesToken(TagAt(BmeowFormat, spans, j)) == TagAt(IobesFormat, spans, j)
      ensures IobesToBmeowToken(TagAt(IobesFormat, spans, j)) == TagAt(BmeowFormat, spans, j)
    {
      RenameAt(spans, j);
    }
  }

  lemma RenameAt(spans: seq<Span>, j: nat)
    ensures BilouToIobesToken(TagAt(BilouFormat, spans, j)) == TagAt(IobesFormat, spans, j)
    ensures IobesToBilouToken(TagAt(IobesFormat, spans, j)) == TagAt(BilouFormat, spans, j)
    ensures BmeowToIobesToken(TagAt(BmeowFormat, spans, j)) == TagAt(IobesFormat, spans, j)
    ensures IobesToBmeowToken(TagAt(IobesFormat, spans, j)) == TagAt(BmeowFormat, spans, j)
  {
    var p := Closed(spans, j);
    if p < |spans| && spans[p].start <= j {
      var s := spans[p];
      RenameMadeTag(RoleCode(BilouFormat, s, j), s.spanType);
      RenameMadeTag(RoleCode(IobesFormat, s, j), s.spanType);
      RenameMadeTag(RoleCode(BmeowFormat, s, j), s.spanType);
    } else {
      assert TagAt(BilouFormat, spans, j) == TagAt(IobesFormat, spans, j) == TagAt(BmeowFormat, spans, j) == Outside;
      RenameOutside();
    }
  }

  /** Every token renaming leaves `O` alone. */
  lemma RenameOutside()
    ensures BilouToIobesToken(Outside) == Outside && IobesToBilouToken(Outside) == Outside
    ensures BmeowToIobesToken(Outside) == Outside && IobesToBmeowToken(Outside) == Outside
  {
    OutsideHead(Last); OutsideHead(Unit); OutsideHead(End); OutsideHead(Single);
    OutsideHead(Middle); OutsideHead(Whole); OutsideHead(Inside);
    ReplaceCode(Outside, Last, End); ReplaceCode(Outside, Unit, Single);
    ReplaceCode(Outside, End, Last); ReplaceCode(Outside, Single, Unit);
    ReplaceCode(Outside, Middle, Inside); ReplaceCode(Outside, Whole, Single);
    ReplaceCode(Outside, Inside, Middle); ReplaceCode(Outside, Single, Whole);
  }
}
