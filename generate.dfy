/**
 * The deterministic reference encoders of the test suite (tests/utils.py,
 * lines 38-94): each allocates `length` copies of `O` and overwrites the
 * positions of every span in place. Each is a method over an array proved
 * equal to a fold over the span list, and each fold is proved equal to the
 * position-by-position reference encoding of Layout on well-formed spans.
 */
module Generate {
  import opened Iobes
  import opened TagUtils
  import opened Spans
  import opened Format
  import opened Layout
  import Write

  /** The span has at least one token and every token indexes a list of `n` tags. */
  predicate SpanIndexable(s: Span, n: nat) {
    |s.tokens| > 0 && forall i :: 0 <= i < |s.tokens| ==> s.tokens[i] < n
  }

  /** What the encoders index without checking: true of every well-formed list. */
  predicate Indexable(spans: seq<Span>, n: nat) {
    forall k :: 0 <= k < |spans| ==> SpanIndexable(spans[k], n)
  }

  lemma WellFormedIndexable(spans: seq<Span>, n: nat)
    requires WellFormed(spans, n)
    ensures Indexable(spans, n)
  {
  }

  function Blanks(n: nat): (r: seq<string>)
    ensures |r| == n && forall j :: 0 <= j < n ==> r[j] == Outside
  {
    seq(n, _ => Outside)
  }

  // -------------------------------------------- IOBES, BILOU and BMEOW

  /** One iteration of `generate_iobes` (and its BILOU/BMEOW twins). */
  function GenSpan(fmt: SpanFormat, tags: seq<string>, s: Span): (r: seq<string>)
    requires SpanIndexable(s, |tags|)
    ensures |r| == |tags|
  {
    var toks := s.tokens;
    if |toks| == 1 then tags[toks[0] := SingleTag(fmt, s.spanType)]
    else Fill(tags[toks[0] := StartTag(fmt, s.spanType)][toks[|toks| - 1] := EndTag(fmt, s.spanType)],
              toks[1..|toks| - 1], InsideTag(fmt, s.spanType))
  }

  function GenAll(fmt: SpanFormat, tags: seq<string>, spans: seq<Span>): (r: seq<string>)
    requires Indexable(spans, |tags|)
    ensures |r| == |tags|
    decreases |spans|
  {
    if |spans| == 0 then tags
    else
      GenAll(fmt, GenSpan(fmt, tags, spans[0]), spans[1..])
  }

  /** `generate_iobes`, `generate_bilou` and `generate_bmeow`, differing only in their codes. */
  function Generated(fmt: SpanFormat, spans: seq<Span>, n: nat): (r: seq<string>)
    requires Indexable(spans, n)
    ensures |r| == n
  {
    GenAll(fmt, Blanks(n), spans)
  }

  /** One generic encoder loop: blank, then stamp each span in place. */
  method GenerateFormatted(fmt: SpanFormat, spans: seq<Span>, n: nat) returns (r: seq<string>)
    requires Indexable(spans, n)
    ensures r == Generated(fmt, spans, n)
  {
    var tags := new string[n](_ => Outside);
    assert tags[..] == Blanks(n);
    var q := 0;
    while q < |spans|
      invariant 0 <= q <= |spans|
      invariant Generated(fmt, spans, n) == GenAll(fmt, tags[..], spans[q..])
    {
      var s := spans[q];
      assert spans[q..][1..] == spans[q + 1..];
      if |s.tokens| == 1 {
        tags[s.tokens[0]] := SingleTag(fmt, s.spanType);
      } else {
        tags[s.tokens[0]] := StartTag(fmt, s.spanType);
        tags[s.tokens[|s.tokens| - 1]] := EndTag(fmt, s.spanType);
        var ok := Write.StampTokens(tags, s.tokens[1..|s.tokens| - 1], InsideTag(fmt, s.spanType));
        assert ok;
      }
      q := q + 1;
    }
    return tags[..];
  }

  method GenerateIobes(spans: seq<Span>, n: nat) returns (r: seq<string>)
    requires Indexable(spans, n)
    ensures r == Generated(IobesFormat, spans, n)
  {
    r := GenerateFormatted(IobesFormat, spans, n);
  }

  method GenerateBilou(spans: seq<Span>, n: nat) returns (r: seq<string>)
    requires Indexable(spans, n)
    ensures r == Generated(BilouFormat, spans, n)
  {
    r := GenerateFormatted(BilouFormat, spans, n);
  }

  method GenerateBmeow(spans: seq<Span>, n: nat) returns (r: seq<string>)
    requires Indexable(spans, n)
    ensures r == Generated(BmeowFormat, spans, n)
  {
    r := GenerateFormatted(BmeowFormat, spans, n);
  }

  lemma GenSpanExtends(fmt: SpanFormat, spans: seq<Span>, n: nat, q: nat)
    requires WellFormed(spans, n) && q < |spans|
    ensures SpanIndexable(spans[q], n)
    ensures GenSpan(fmt, Encode(fmt, spans[..q], n), spans[q]) == Encode(fmt, spans[..q + 1], n)
  {
    var s := spans[q];
    if |s.tokens| == 1 {
      Write.StampSingleExtends(fmt, spans, n, q);
    } else {
      assert s.tokens[0] == s.start && s.tokens[|s.tokens| - 1] == s.end - 1;
      assert s.tokens[1..|s.tokens| - 1] == Range(s.start + 1, s.end - 1);
      Write.StampLongExtends(fmt, spans, n, q);
    }
  }

  lemma {:induction false} GenAllExtends(fmt: SpanFormat, spans: seq<Span>, n: nat, q: nat)
    requires WellFormed(spans, n) && q <= |spans|
    ensures Indexable(spans[q..], n)
    ensures GenAll(fmt, Encode(fmt, spans[..q], n), spans[q..]) == Encode(fmt, spans, n)
    decreases |spans| - q
  {
    if q == |spans| {
      assert spans[..q] == spans;
    } else {
      GenSpanExtends(fmt, spans, n, q);
      assert spans[q..][0] == spans[q] && spans[q..][1..] == spans[q + 1..];
      GenAllExtends(fmt, spans, n, q + 1);
    }
  }

  /** On a well-formed list the IOBES/BILOU/BMEOW encoders give the reference encoding of `length` tags. */
  lemma GeneratedIsEncode(fmt: SpanFormat, spans: seq<Span>, n: nat)
    requires WellFormed(spans, n)
    ensures Indexable(spans, n)
    ensures Generated(fmt, spans, n) == Encode(fmt, spans, n)
  {
    Write.EncodeNothing(fmt, n);
    assert spans[..0] == [] && spans[0..] == spans;
    GenAllExtends(fmt, spans, n, 0);
  }

  // ------------------------------------------------------------------ BIO

  /** One iteration of `generate_bio`: `B-` on the first token, `I-` on the rest. */
  function BioSpan(tags: seq<string>, s: Span): (r: seq<string>)
    requires SpanIndexable(s, |tags|)
    ensures |r| == |tags|
  {
    Fill(tags[s.tokens[0] := MakeTag(Begin, s.spanType, Sep)], s.tokens[1..], MakeTag(Inside, s.spanType, Sep))
  }

  function BioAll(tags: seq<string>, spans: seq<Span>): (r: seq<string>)
    requires Indexable(spans, |tags|)
    ensures |r| == |tags|
    decreases |spans|
  {
    if |spans| == 0 then tags
    else
      BioAll(BioSpan(tags, spans[0]), spans[1..])
  }

  function GeneratedBio(spans: seq<Span>, n: nat): (r: seq<string>)
    requires Indexable(spans, n)
    ensures |r| == n
  {
    BioAll(Blanks(n), spans)
  }

  /** `generate_bio`. */
  method GenerateBio(spans: seq<Span>, n: nat) returns (r: seq<string>)
    requires Indexable(spans, n)
    ensures r == GeneratedBio(spans, n)
  {
    var tags := new string[n](_ => Outside);
    assert tags[..] == Blanks(n);
    var q := 0;
    while q < |spans|
      invariant 0 <= q <= |spans|
      invariant GeneratedBio(spans, n) == BioAll(tags[..], spans[q..])
    {
      var s := spans[q];
      assert spans[q..][1..] == spans[q + 1..];
      tags[s.tokens[0]] := MakeTag(Begin, s.spanType, Sep);
      var ok := Write.StampTokens(tags, s.tokens[1..], MakeTag(Inside, s.spanType, Sep));
      assert ok;
      q := q + 1;
    }
    return tags[..];
  }

  lemma BioSpanExtends(spans: seq<Span>, n: nat, q: nat)
    requires WellFormed(spans, n) && q < |spans|
    ensures SpanIndexable(spans[q], n)
    ensures BioSpan(Encode(BioFormat, spans[..q], n), spans[q]) == Encode(BioFormat, spans[..q + 1], n)
  {
    var s, want := spans[q], Encode(BioFormat, spans[..q + 1], n);
    var t := Encode(BioFormat, spans[..q], n)[s.start := MakeTag(Begin, s.spanType, Sep)];
    assert s.tokens[1..] == Range(s.start + 1, s.end);
    forall j | 0 <= j < n ensures BioSpan(Encode(BioFormat, spans[..q], n), s)[j] == want[j] {
      FillRange(t, s.start + 1, s.end, MakeTag(Inside, s.spanType, Sep), j);
      TagAtExtend(BioFormat, spans, n, q, j);
    }
  }

  lemma {:induction false} BioAllExtends(spans: seq<Span>, n: nat, q: nat)
    requires WellFormed(spans, n) && q <= |spans|
    ensures Indexable(spans[q..], n)
    ensures BioAll(Encode(BioFormat, spans[..q], n), spans[q..]) == Encode(BioFormat, spans, n)
    decreases |spans| - q
  {
    if q == |spans| {
      assert spans[..q] == spans;
    } else {
      BioSpanExtends(spans, n, q);
      assert spans[q..][0] == spans[q] && spans[q..][1..] == spans[q + 1..];
      BioAllExtends(spans, n, q + 1);
    }
  }

  /** On a well-formed list `generate_bio` gives the reference BIO encoding. */
  lemma GeneratedBioIsEncode(spans: seq<Span>, n: nat)
    requires WellFormed(spans, n)
    ensures Indexable(spans, n)
    ensures GeneratedBio(spans, n) == Encode(BioFormat, spans, n)
  {
    Write.EncodeNothing(BioFormat, n);
    assert spans[..0] == [] && spans[0..] == spans;
    BioAllExtends(spans, n, 0);
  }

  // ------------------------------------------------------------------ IOB

  /** `generate_iob`'s first pass: every token of every span becomes `I-`. */
  function IobInsideAll(tags: seq<string>, spans: seq<Span>): (r: seq<string>)
    requires Indexable(spans, |tags|)
    ensures |r| == |tags|
    decreases |spans|
  {
    if |spans| == 0 then tags
    else
      IobInsideAll(Fill(tags, spans[0].tokens, MakeTag(Inside, spans[0].spanType, Sep)), spans[1..])
  }

  /** One step of the second pass: `B-` at a non-zero first token whose left neighbour has the span's type. */
  function IobMark(tags: seq<string>, s: Span): (r: seq<string>)
    requires SpanIndexable(s, |tags|)
    ensures |r| == |tags|
  {
    var first := s.tokens[0];
    if first != 0 && ExtractType(tags[first - 1], Sep) == s.spanType then tags[first := MakeTag(Begin, s.spanType, Sep)]
    else tags
  }

  function IobMarkAll(tags: seq<string>, spans: seq<Span>): (r: seq<string>)
    requires Indexable(spans, |tags|)
    ensures |r| == |tags|
    decreases |spans|
  {
    if |spans| == 0 then tags
    else
      IobMarkAll(IobMark(tags, spans[0]), spans[1..])
  }

  lemma IobInsideAllIndexable(tags: seq<string>, spans: seq<Span>)
    requires Indexable(spans, |tags|)
    ensures Indexable(spans, |IobInsideAll(tags, spans)|)
  {
  }

  function GeneratedIob(spans: seq<Span>, n: nat): (r: seq<string>)
    requires Indexable(spans, n)
    ensures |r| == n
  {
    IobMarkAll(IobInsideAll(Blanks(n), spans), spans)
  }

  /** `generate_iob`: two passes over the spans, the second reading tags the first wrote. */
  method GenerateIob(spans: seq<Span>, n: nat) returns (r: seq<string>)
    requires Indexable(spans, n)
    ensures r == GeneratedIob(spans, n)
  {
    var tags := new string[n](_ => Outside);
    assert tags[..] == Blanks(n);
    var q := 0;
    while q < |spans|
      invariant 0 <= q <= |spans|
      invariant IobInsideAll(Blanks(n), spans) == IobInsideAll(tags[..], spans[q..])
    {
      var s := spans[q];
      assert spans[q..][1..] == spans[q + 1..];
      var ok := Write.StampTokens(tags, s.tokens, MakeTag(Inside, s.spanType, Sep));
      assert ok;
      q := q + 1;
    }
    q := 0;
    while q < |spans|
      invariant 0 <= q <= |spans|
      invariant GeneratedIob(spans, n) == IobMarkAll(tags[..], spans[q..])
    {
      var s := spans[q];
      assert spans[q..][1..] == spans[q + 1..];
      var first := s.tokens[0];
      if first != 0 && ExtractType(tags[first - 1], Sep) == s.spanType {
        tags[first] := MakeTag(Begin, s.spanType, Sep);
      }
      q := q + 1;
    }
    return tags[..];
  }

  /** The tag at `j` once the second pass has handled the first `q` spans. */
  function IobMarkedAt(spans: seq<Span>, q: nat, j: nat): string {
    var p := Closed(spans, j);
    if p < |spans| && spans[p].start <= j then
      MakeTag(if j == spans[p].start && p < q && Continues(spans, p) then Begin else Inside, spans[p].spanType, Sep)
    else Outside
  }

  function IobMarked(spans: seq<Span>, q: nat, n: nat): (r: seq<string>)
    ensures |r| == n
  {
    seq(n, j requires 0 <= j < n => IobMarkedAt(spans, q, j))
  }

  lemma IobMarkedCovered(spans: seq<Span>, n: nat, q: nat, k: nat, j: nat)
    requires WellFormed(spans, n) && k < |spans| && Covers(spans[k], j)
    ensures j < n
    ensures IobMarked(spans, q, n)[j] ==
      MakeTag(if j == spans[k].start && k < q && Continues(spans, k) then Begin else Inside, spans[k].spanType, Sep)
  {
    CoverIsClosed(spans, n, k, j);
  }

  lemma IobMarkedGap(spans: seq<Span>, n: nat, q: nat, j: nat)
    requires j < n && forall k :: 0 <= k < |spans| ==> !Covers(spans[k], j)
    ensures IobMarked(spans, q, n)[j] == Outside
  {
    var p := Closed(spans, j);
    if p < |spans| {
      assert !Covers(spans[p], j);
    }
  }

  /** Writing `I-` over span `q` turns the marks of the first `q` spans into those of the first `q + 1`, at each position. */
  lemma IobInsideFillAt(spans: seq<Span>, n: nat, q: nat, j: nat)
    requires WellFormed(spans, n) && q < |spans| && j < n
    requires SpanIndexable(spans[q], n)
    ensures var s := spans[q];
      Fill(IobMarked(spans[..q], 0, n), s.tokens, MakeTag(Inside, s.spanType, Sep))[j] == IobMarked(spans[..q + 1], 0, n)[j]
  {
    var s := spans[q];
    var before := IobMarked(spans[..q], 0, n);
    var tag := MakeTag(Inside, s.spanType, Sep);
    WellFormedPrefix(spans, n, q);
    WellFormedPrefix(spans, n, q + 1);
    FillRange(before, s.start, s.end, tag, j);
    if Covers(s, j) {
      IobMarkedCovered(spans[..q + 1], n, 0, q, j);
    } else if k :| 0 <= k < q && Covers(spans[k], j) {
      IobMarkedCovered(spans[..q + 1], n, 0, k, j);
      IobMarkedCovered(spans[..q], n, 0, k, j);
    } else {
      IobMarkedGap(spans[..q + 1], n, 0, j);
      IobMarkedGap(spans[..q], n, 0, j);
    }
  }

  /** The first pass writes `I-` over every span: the second pass's starting point. */
  lemma {:induction false} IobInsideAllExtends(spans: seq<Span>, n: nat, q: nat)
    requires WellFormed(spans, n) && q <= |spans|
    ensures Indexable(spans[q..], n)
    ensures IobInsideAll(IobMarked(spans[..q], 0, n), spans[q..]) == IobMarked(spans, 0, n)
    decreases |spans| - q
  {
    if q == |spans| {
      assert spans[..q] == spans;
    } else {
      var s := spans[q];
      var before, after := IobMarked(spans[..q], 0, n), IobMarked(spans[..q + 1], 0, n);
      var tag := MakeTag(Inside, s.spanType, Sep);
      WellFormedPrefix(spans, n, q);
      WellFormedPrefix(spans, n, q + 1);
      forall j | 0 <= j < n ensures Fill(before, s.tokens, tag)[j] == after[j] {
        IobInsideFillAt(spans, n, q, j);
      }
      assert Fill(before, s.tokens, tag) == after;
      assert spans[q..][0] == s && spans[q..][1..] == spans[q + 1..];
      IobInsideAllExtends(spans, n, q + 1);
    }
  }

  /** The second pass's test on span `q` is exactly IOB's adjacency rule, given no span is typed `O`. */
  lemma IobMarkTest(spans: seq<Span>, n: nat, q: nat)
    requires WellFormed(spans, n) && Typed(spans) && q < |spans|
    ensures var s, tags := spans[q], IobMarked(spans, q, n);
      (s.start != 0 && ExtractType(tags[s.start - 1], Sep) == s.spanType) <==> Continues(spans, q)
  {
    var s, tags := spans[q], IobMarked(spans, q, n);
    if s.start != 0 {
      var j := s.start - 1;
      if q > 0 && spans[q - 1].end == s.start {
        IobMarkedCovered(spans, n, q, q - 1, j);
        MakeTagSplits(if j == spans[q - 1].start && q - 1 < q && Continues(spans, q - 1) then Begin else Inside,
                      spans[q - 1].spanType);
      } else {
        LeftGap(spans, n, q);
        IobMarkedGap(spans, n, q, j);
        BareTagSplits(Outside);
      }
    }
  }

  /** Left of a span that does not touch its predecessor, no span covers the token. */
  lemma LeftGap(spans: seq<Span>, n: nat, q: nat)
    requires WellFormed(spans, n) && q < |spans| && spans[q].start != 0
    requires !(q > 0 && spans[q - 1].end == spans[q].start)
    ensures forall k :: 0 <= k < |spans| ==> !Covers(spans[k], spans[q].start - 1)
  {
    var j := spans[q].start - 1;
    forall k | 0 <= k < |spans| ensures !Covers(spans[k], j) {
      if k < q {
        WellFormedOrdered(spans, n, k, q);
        if k < q - 1 {
          WellFormedOrdered(spans, n, k, q - 1);
        }
      } else if k > q {
        WellFormedOrdered(spans, n, q, k);
      }
    }
  }

  lemma IobMarkStep(spans: seq<Span>, n: nat, q: nat)
    requires WellFormed(spans, n) && Typed(spans) && q < |spans|
    ensures SpanIndexable(spans[q], n)
    ensures IobMark(IobMarked(spans, q, n), spans[q]) == IobMarked(spans, q + 1, n)
  {
    var before, after := IobMark(IobMarked(spans, q, n), spans[q]), IobMarked(spans, q + 1, n);
    forall j | 0 <= j < n ensures before[j] == after[j] {
      IobMarkStepAt(spans, n, q, j);
    }
  }

  lemma IobMarkStepAt(spans: seq<Span>, n: nat, q: nat, j: nat)
    requires WellFormed(spans, n) && Typed(spans) && q < |spans| && j < n
    ensures SpanIndexable(spans[q], n)
    ensures IobMark(IobMarked(spans, q, n), spans[q])[j] == IobMarked(spans, q + 1, n)[j]
  {
    if Covers(spans[q], j) {
      IobMarkOwn(spans, n, q, j);
    } else if k :| 0 <= k < |spans| && Covers(spans[k], j) {
      IobMarkOther(spans, n, q, k, j);
    } else {
      IobMarkedGap(spans, n, q, j);
      IobMarkedGap(spans, n, q + 1, j);
    }
  }

  /** Inside span `q`, the second pass settles `B-` or `I-` as the reference encoding does. */
  lemma IobMarkOwn(spans: seq<Span>, n: nat, q: nat, j: nat)
    requires WellFormed(spans, n) && Typed(spans) && q < |spans| && Covers(spans[q], j)
    ensures SpanIndexable(spans[q], n) && j < n
    ensures IobMark(IobMarked(spans, q, n), spans[q])[j] == IobMarked(spans, q + 1, n)[j]
  {
    var s, before := spans[q], IobMarked(spans, q, n);
    WellFormedIndexable(spans, n);
    assert SpanIndexable(s, n) && s.tokens[0] == s.start;
    IobMarkTest(spans, n, q);
    IobMarkedCovered(spans, n, q, q, j);
    IobMarkedCovered(spans, n, q + 1, q, j);
    if j != s.start {
      assert IobMark(before, s)[j] == before[j];
    } else if Continues(spans, q) {
      assert IobMark(before, s) == before[j := MakeTag(Begin, s.spanType, Sep)];
    } else {
      assert IobMark(before, s) == before;
    }
  }

  /** Inside another span, handling span `q` changes nothing. */
  lemma IobMarkOther(spans: seq<Span>, n: nat, q: nat, k: nat, j: nat)
    requires WellFormed(spans, n) && q < |spans| && k < |spans| && Covers(spans[k], j) && !Covers(spans[q], j)
    ensures SpanIndexable(spans[q], n) && j < n
    ensures IobMark(IobMarked(spans, q, n), spans[q])[j] == IobMarked(spans, q + 1, n)[j]
  {
    IobMarkedCovered(spans, n, q, k, j);
    IobMarkedCovered(spans, n, q + 1, k, j);
  }

  lemma {:induction false} IobMarkAllExtends(spans: seq<Span>, n: nat, q: nat)
    requires WellFormed(spans, n) && Typed(spans) && q <= |spans|
    ensures Indexable(spans[q..], n)
    ensures IobMarkAll(IobMarked(spans, q, n), spans[q..]) == IobMarked(spans, |spans|, n)
    decreases |spans| - q
  {
    if q < |spans| {
      IobMarkStep(spans, n, q);
      assert spans[q..][0] == spans[q] && spans[q..][1..] == spans[q + 1..];
      IobMarkAllExtends(spans, n, q + 1);
    }
  }

  /**
   * On a well-formed list with no span typed `O`, `generate_iob` gives the
   * reference IOB encoding, whose `B-` rule is that of `write_iob_tags`.
   */
  lemma GeneratedIobIsEncode(spans: seq<Span>, n: nat)
    requires WellFormed(spans, n) && Typed(spans)
    ensures Indexable(spans, n)
    ensures GeneratedIob(spans, n) == EncodeIob(spans, n)
  {
    assert spans[..0] == [] && spans[0..] == spans;
    assert IobMarked([], 0, n) == Blanks(n);
    IobInsideAllExtends(spans, n, 0);
    IobMarkAllExtends(spans, n, 0);
    assert IobMarked(spans, |spans|, n) == EncodeIob(spans, n);
  }

  /** A span typed `O` is invisible to `generate_iob`'s test when its neighbour is a gap. */
  lemma GeneratedIobOutsideType()
    ensures GeneratedIob([Span(Outside, 1, 2, [1])], 2) == [Outside, MakeTag(Begin, Outside, Sep)]
    ensures EncodeIob([Span(Outside, 1, 2, [1])], 2) == [Outside, MakeTag(Inside, Outside, Sep)]
  {
    var spans := [Span(Outside, 1, 2, [1])];
    var inside := MakeTag(Inside, Outside, Sep);
    assert [1][1..] == [] && spans[1..] == [];
    assert Fill(Blanks(2), [1], inside) == Blanks(2)[1 := inside] == [Outside, inside];
    assert IobInsideAll(Blanks(2), spans) == [Outside, inside];
    BareTagSplits(Outside);
    assert IobMark([Outside, inside], spans[0]) == [Outside, MakeTag(Begin, Outside, Sep)];
    assert IobMarkAll([Outside, inside], spans) == IobMarkAll(IobMark([Outside, inside], spans[0]), []);
    assert Closed(spans, 0) == 0 && Closed(spans, 1) == 0;
  }
}
