/**
 * What the transition grids of iobes/transition.py say about tags built
 * from the scheme codes: the rule each scheme's if/elif chain amounts to,
 * the guarantee that every tag sequence the writers produce is an allowed
 * path, the shape of the grids, and the end-sentinel test of the IOBES
 * rules as written.
 */
module TransitionRules {
  import opened Iobes
  import opened TagUtils
  import opened Spans
  import opened Format
  import opened Layout
  import opened Rename
  import opened Transitions

  /** A start or end symbol such as `<GO>`: no separator and no token-function code. */
  predicate Sentinel(s: string) {
    '-' !in s && s !in FunctionCodes
  }

  function Tag(c: string, x: string): string { MakeTag(c, x, Sep) }

  /** A code tag reads back as its code and its type and is neither a sentinel nor `O`. */
  lemma TagFacts(c: string, x: string, start: string, end: string)
    requires '-' !in c && Sentinel(start) && Sentinel(end)
    ensures Func(Tag(c, x)) == c && Type(Tag(c, x)) == x
    ensures Tag(c, x) != start && Tag(c, x) != end && Tag(c, x) != Outside
  {
    MakeTagSplits(c, x);
    assert Tag(c, x)[|c|] == '-';
  }

  /** A sentinel and `O` read back as themselves, and a sentinel is no code. */
  lemma BareFacts(s: string)
    requires Sentinel(s)
    ensures Func(s) == s && s != Outside && s != Begin && s != Inside && s != End && s != Single
    ensures Func(Outside) == Outside && Type(Outside) == Outside
  {
    BareTagSplits(s);
    BareTagSplits(Outside);
  }

  /** The sentinels and the code tags an IOB, BIO or IOBES vocabulary is made of. */
  predicate Setting(start: string, end: string) {
    Sentinel(start) && Sentinel(end) && start != end
  }

  lemma Prepare(c: string, x: string, d: string, y: string, start: string, end: string)
    requires '-' !in c && '-' !in d && Setting(start, end)
    ensures Func(Tag(c, x)) == c && Type(Tag(c, x)) == x
    ensures Func(Tag(d, y)) == d && Type(Tag(d, y)) == y
    ensures Tag(c, x) != start && Tag(c, x) != end && Tag(c, x) != Outside
    ensures Tag(d, y) != start && Tag(d, y) != end && Tag(d, y) != Outside
    ensures Func(start) == start && Func(end) == end && Func(Outside) == Outside && Type(Outside) == Outside
    ensures start != Outside && end != Outside
    ensures start != Begin && start != Inside && start != End && start != Single
    ensures end != Begin && end != Inside && end != End && end != Single
  {
    TagFacts(c, x, start, end);
    TagFacts(d, y, start, end);
    BareFacts(start);
    BareFacts(end);
  }

  // ------------------------------------------------------------- the rules, per scheme

  /**
   * IOB (iobes/transition.py:19-58): `B-y` may only follow a tag of a span
   * of type `y`; everything else may follow anything.
   */
  lemma IobRulesOnTags(c: string, x: string, d: string, y: string, start: string, end: string)
    requires Setting(start, end)
    requires c == Begin || c == Inside
    requires d == Begin || d == Inside
    ensures IobAllowed(Tag(c, x), Tag(d, y), start, end) <==> d == Inside || x == y
    ensures IobAllowed(Outside, Tag(d, y), start, end) <==> d == Inside
    ensures IobAllowed(start, Tag(d, y), start, end) <==> d == Inside
    ensures IobAllowed(Tag(c, x), Outside, start, end) && IobAllowed(Tag(c, x), end, start, end)
    ensures IobAllowed(Outside, Outside, start, end) && IobAllowed(Outside, end, start, end)
    ensures IobAllowed(start, Outside, start, end) && IobAllowed(start, end, start, end)
  {
    Prepare(c, x, d, y, start, end);
  }

  /**
   * BIO (iobes/transition.py:61-100): `I-y` may only follow a tag of a span
   * of type `y`; everything else may follow anything.
   */
  lemma BioRulesOnTags(c: string, x: string, d: string, y: string, start: string, end: string)
    requires Setting(start, end)
    requires c == Begin || c == Inside
    requires d == Begin || d == Inside
    ensures BioAllowed(Tag(c, x), Tag(d, y), start, end) <==> d == Begin || x == y
    ensures BioAllowed(Outside, Tag(d, y), start, end) <==> d == Begin
    ensures BioAllowed(start, Tag(d, y), start, end) <==> d == Begin
    ensures BioAllowed(Tag(c, x), Outside, start, end) && BioAllowed(Tag(c, x), end, start, end)
    ensures BioAllowed(Outside, Outside, start, end) && BioAllowed(Outside, end, start, end)
    ensures BioAllowed(start, Outside, start, end) && BioAllowed(start, end, start, end)
  {
    Prepare(c, x, d, y, start, end);
  }

  predicate IobesCode(c: string) {
    c == Begin || c == Inside || c == End || c == Single
  }

  /** After `B-x` or `I-x` only `I-x` or `E-x` may follow: not `O`, not the end, no other type. */
  lemma IobesOpenRules(c: string, x: string, d: string, y: string, start: string, end: string)
    requires Setting(start, end) && (c == Begin || c == Inside) && IobesCode(d)
    ensures IobesAllowed(Tag(c, x), Tag(d, y), start, end) <==> (d == Inside || d == End) && x == y
    ensures !IobesAllowed(Tag(c, x), Outside, start, end) && !IobesAllowed(Tag(c, x), end, start, end)
  {
    FunctionCodesDistinct();
    Prepare(c, x, d, y, start, end);
  }

  /** After `E-x`, `S-x`, `O` or the start, a span must open: `B-y`, `S-y`, `O` or the end. */
  lemma IobesClosedRules(c: string, x: string, d: string, y: string, start: string, end: string)
    requires Setting(start, end) && (c == End || c == Single) && IobesCode(d)
    ensures IobesAllowed(Tag(c, x), Tag(d, y), start, end) <==> d == Begin || d == Single
    ensures IobesAllowed(Outside, Tag(d, y), start, end) <==> d == Begin || d == Single
    ensures IobesAllowed(start, Tag(d, y), start, end) <==> d == Begin || d == Single
    ensures IobesAllowed(Tag(c, x), Outside, start, end) && IobesAllowed(Tag(c, x), end, start, end)
    ensures IobesAllowed(Outside, Outside, start, end) && IobesAllowed(Outside, end, start, end)
    ensures IobesAllowed(start, Outside, start, end) && IobesAllowed(start, end, start, end)
  {
    FunctionCodesDistinct();
    Prepare(c, x, d, y, start, end);
  }

  /** All three rule sets: nothing enters the start symbol and nothing leaves the end symbol. */
  lemma SentinelsClosed(rules: Rules, src: string, tgt: string, start: string, end: string)
    ensures !Allowed(rules, src, start, start, end)
    ensures !Allowed(rules, end, tgt, start, end)
  {
  }

  // ------------------------------------------------------------- the end test of the B branch

  /**
   * As written, the B branch of `iobes_transitions` lets `B-x` reach an end
   * symbol that contains the separator, which the I branch forbids and which
   * leaves a span unclosed.
   */
  lemma BeginReachesDashedEnd()
    ensures IobesAllowedAsWritten("B-A", "<EOS-1>", "<GO>", "<EOS-1>")
    ensures !IobesAllowedAsWritten("I-A", "<EOS-1>", "<GO>", "<EOS-1>")
    ensures !IobesAllowed("B-A", "<EOS-1>", "<GO>", "<EOS-1>")
  {
    CodeTagSplits(Begin, "A");
    assert "B-A" == Begin + Sep + "A";
    CodeTagSplits(Inside, "A");
    assert "I-A" == Inside + Sep + "A";
    SplitSingleChar("<EOS", '-', "1>");
    assert "<EOS-1>" == "<EOS" + ['-'] + "1>";
    BareTagSplits("<GO>");
  }

  /** With the test on the target itself, no open span (`B-` or `I-`) may run into the end symbol. */
  lemma OpenSpanNeverEnds(src: string, start: string, end: string)
    requires src != start && src != end
    requires Func(src) == Begin || Func(src) == Inside
    ensures !IobesAllowed(src, end, start, end)
  {
  }

  /** The two tests agree unless the end symbol holds the separator or a target tag extends it with one. */
  lemma AsWrittenAgrees(src: string, tgt: string, start: string, end: string)
    requires '-' !in end && !StartsWith(tgt, end + Sep)
    ensures IobesAllowedAsWritten(src, tgt, start, end) == IobesAllowed(src, tgt, start, end)
  {
    BareTagSplits(end);
    if Contains(tgt, Sep) {
      SplitRejoins(tgt, Sep);
    } else {
      NoSeparatorKeepsToken(tgt, Sep);
    }
  }

  // ------------------------------------------------------------- encodings are allowed paths

  /** A tag sequence framed by the start and end symbols. */
  function Path(tags: seq<string>, start: string, end: string): (p: seq<string>)
    ensures |p| == |tags| + 2
  {
    [start] + tags + [end]
  }

  /** Every step of the framed sequence is allowed by the rules. */
  predicate PathAllowed(rules: Rules, tags: seq<string>, start: string, end: string) {
    var p := Path(tags, start, end);
    forall k :: 0 <= k < |p| - 1 ==> Allowed(rules, p[k], p[k + 1], start, end)
  }

  /** Step `k` of the framed sequence goes from the start symbol or tag `k-1` to tag `k` or the end symbol. */
  lemma PathAt(tags: seq<string>, start: string, end: string, k: nat)
    requires k <= |tags|
    ensures Path(tags, start, end)[k] == if k == 0 then start else tags[k - 1]
    ensures Path(tags, start, end)[k + 1] == if k == |tags| then end else tags[k]
  {
  }

  /** A position right after the last token of a span is either uncovered or the first token of another span. */
  lemma AfterSpanEnd(spans: seq<Span>, n: nat, q: nat, r: nat, j: nat)
    requires WellFormed(spans, n) && q < |spans| && r < |spans|
    requires Covers(spans[q], j) && j == spans[q].end - 1 && Covers(spans[r], j + 1)
    ensures spans[r].start == j + 1
  {
    if spans[r].start != j + 1 {
      CoverIsClosed(spans, n, q, j);
      CoverIsClosed(spans, n, r, j);
    }
  }

  /** Inside a span of more than one token, IOBES writes `B-` then `I-` and ends with `E-`; `S-` for one token. */
  lemma IobesRoles(s: Span, j: int)
    requires Shaped(s) && Covers(s, j)
    ensures var c := RoleCode(IobesFormat, s, j);
      && IobesCode(c)
      && (j == s.end - 1 <==> c == End || c == Single)
      && (j == s.start <==> c == Begin || c == Single)
  {
  }

  /** A step out of an open span stays in it. */
  lemma IobesOpenStep(spans: seq<Span>, n: nat, q: nat, k: nat, start: string, end: string)
    requires WellFormed(spans, n) && Setting(start, end) && q < |spans| && 0 < k
    requires Covers(spans[q], k - 1) && k - 1 != spans[q].end - 1
    ensures k < n
    ensures IobesAllowed(Encode(IobesFormat, spans, n)[k - 1], Encode(IobesFormat, spans, n)[k], start, end)
  {
    var s := spans[q];
    EncodeCovered(IobesFormat, spans, n, q, k - 1);
    EncodeCovered(IobesFormat, spans, n, q, k);
    IobesRoles(s, k - 1);
    IobesRoles(s, k);
    IobesSameTypeStep(Encode(IobesFormat, spans, n)[k - 1], Encode(IobesFormat, spans, n)[k],
      RoleCode(IobesFormat, s, k - 1), RoleCode(IobesFormat, s, k), s.spanType, start, end);
  }

  lemma IobesSameTypeStep(src: string, tgt: string, c: string, d: string, x: string, start: string, end: string)
    requires Setting(start, end) && (c == Begin || c == Inside) && (d == Inside || d == End)
    requires src == Tag(c, x) && tgt == Tag(d, x)
    ensures IobesAllowed(src, tgt, start, end)
  {
    IobesOpenRules(c, x, d, x, start, end);
  }

  /** Where no span is open, the source of a step is the start, `O` or an `E-`/`S-` tag. */
  lemma IobesClosedSource(spans: seq<Span>, n: nat, k: nat) returns (c: string, x: string)
    requires WellFormed(spans, n) && k <= n
    requires forall q :: 0 <= q < |spans| && 0 < k && Covers(spans[q], k - 1) ==> k - 1 == spans[q].end - 1
    ensures c == End || c == Single
    ensures var tags := Encode(IobesFormat, spans, n);
      k > 0 ==> tags[k - 1] == Outside || tags[k - 1] == Tag(c, x)
  {
    c, x := End, "";
    SchemeTags("");
    if q :| 0 <= q < |spans| && k > 0 && Covers(spans[q], k - 1) {
      EncodeCovered(IobesFormat, spans, n, q, k - 1);
      IobesRoles(spans[q], k - 1);
      c, x := RoleCode(IobesFormat, spans[q], k - 1), spans[q].spanType;
    } else if k > 0 {
      EncodeOutsideIff(IobesFormat, spans, n, k - 1);
    }
  }

  /** Where no span is open before it, the target of a step is the end, `O` or a `B-`/`S-` tag. */
  lemma IobesClosedTarget(spans: seq<Span>, n: nat, k: nat) returns (d: string, y: string)
    requires WellFormed(spans, n) && k < n
    requires forall q :: 0 <= q < |spans| && 0 < k && Covers(spans[q], k - 1) ==> k - 1 == spans[q].end - 1
    ensures d == Begin || d == Single
    ensures var tags := Encode(IobesFormat, spans, n); tags[k] == Outside || tags[k] == Tag(d, y)
  {
    d, y := Begin, "";
    SchemeTags("");
    if r :| 0 <= r < |spans| && Covers(spans[r], k) {
      EncodeCovered(IobesFormat, spans, n, r, k);
      IobesRoles(spans[r], k);
      if k != spans[r].start {
        assert Covers(spans[r], k - 1);
      }
      d, y := RoleCode(IobesFormat, spans[r], k), spans[r].spanType;
    } else {
      EncodeOutsideIff(IobesFormat, spans, n, k);
    }
  }

  lemma IobesClosedStep(src: string, tgt: string, c: string, x: string, d: string, y: string, start: string, end: string)
    requires Setting(start, end) && (c == End || c == Single) && (d == Begin || d == Single)
    requires src == start || src == Outside || src == Tag(c, x)
    requires tgt == end || tgt == Outside || tgt == Tag(d, y)
    ensures IobesAllowed(src, tgt, start, end)
  {
    IobesClosedRules(c, x, d, y, start, end);
  }

  lemma IobesStep(spans: seq<Span>, n: nat, k: nat, start: string, end: string)
    requires WellFormed(spans, n) && Setting(start, end) && k <= n
    ensures var p := Path(Encode(IobesFormat, spans, n), start, end); IobesAllowed(p[k], p[k + 1], start, end)
  {
    var tags := Encode(IobesFormat, spans, n);
    PathAt(tags, start, end, k);
    if q :| 0 <= q < |spans| && k > 0 && Covers(spans[q], k - 1) && k - 1 != spans[q].end - 1 {
      IobesOpenStep(spans, n, q, k, start, end);
    } else {
      var c, x := IobesClosedSource(spans, n, k);
      var d, y := Begin, "";
      if k < n {
        d, y := IobesClosedTarget(spans, n, k);
      }
      IobesClosedStep(Path(tags, start, end)[k], Path(tags, start, end)[k + 1], c, x, d, y, start, end);
    }
  }

  /**
   * The IOBES tags of any well-formed span list, framed by the sentinels,
   * only take steps the IOBES grid marks valid.
   */
  lemma IobesPathsAllowed(spans: seq<Span>, n: nat, start: string, end: string)
    requires WellFormed(spans, n) && Setting(start, end)
    ensures PathAllowed(IobesRules, Encode(IobesFormat, spans, n), start, end)
  {
    forall k | 0 <= k < n + 1 {
      IobesStep(spans, n, k, start, end);
    }
  }

  /** BIO writes `B-` at the first token of a span and `I-` after it. */
  lemma BioRoles(s: Span, j: int)
    requires Shaped(s) && Covers(s, j)
    ensures RoleCode(BioFormat, s, j) == if j == s.start then Begin else Inside
  {
  }

  /** Every BIO position is `O` or a `B-`/`I-` tag. */
  lemma BioTagForms(spans: seq<Span>, n: nat, j: nat) returns (c: string, x: string)
    requires WellFormed(spans, n) && j < n
    ensures c == Begin || c == Inside
    ensures Encode(BioFormat, spans, n)[j] == Outside || Encode(BioFormat, spans, n)[j] == Tag(c, x)
  {
    c, x := Begin, "";
    SchemeTags("");
    if q :| 0 <= q < |spans| && Covers(spans[q], j) {
      EncodeCovered(BioFormat, spans, n, q, j);
      BioRoles(spans[q], j);
      c, x := RoleCode(BioFormat, spans[q], j), spans[q].spanType;
    } else {
      EncodeOutsideIff(BioFormat, spans, n, j);
    }
  }

  lemma BioAnyStep(src: string, tgt: string, c: string, x: string, y: string, start: string, end: string)
    requires Setting(start, end) && (c == Begin || c == Inside)
    requires src == start || src == Outside || src == Tag(c, x)
    requires tgt == end || tgt == Outside || tgt == Tag(Begin, y)
    ensures BioAllowed(src, tgt, start, end)
  {
    BioRulesOnTags(c, x, Begin, y, start, end);
  }

  /** A step onto a non-first token of a span comes from the token before it, in the same span. */
  lemma BioInsideStep(spans: seq<Span>, n: nat, r: nat, k: nat, start: string, end: string)
    requires WellFormed(spans, n) && Setting(start, end) && r < |spans|
    requires Covers(spans[r], k) && k != spans[r].start
    ensures 0 < k < n
    ensures BioAllowed(Encode(BioFormat, spans, n)[k - 1], Encode(BioFormat, spans, n)[k], start, end)
  {
    var s := spans[r];
    EncodeCovered(BioFormat, spans, n, r, k - 1);
    EncodeCovered(BioFormat, spans, n, r, k);
    BioRoles(s, k - 1);
    BioRoles(s, k);
    BioSameTypeStep(Encode(BioFormat, spans, n)[k - 1], Encode(BioFormat, spans, n)[k],
      RoleCode(BioFormat, s, k - 1), s.spanType, start, end);
  }

  lemma BioSameTypeStep(src: string, tgt: string, c: string, x: string, start: string, end: string)
    requires Setting(start, end) && (c == Begin || c == Inside)
    requires src == Tag(c, x) && tgt == Tag(Inside, x)
    ensures BioAllowed(src, tgt, start, end)
  {
    BioRulesOnTags(c, x, Inside, x, start, end);
  }

  /** A position that is no span's continuation holds `O` or a `B-` tag. */
  lemma BioOpeningTarget(spans: seq<Span>, n: nat, k: nat) returns (y: string)
    requires WellFormed(spans, n) && k < n
    requires forall r :: 0 <= r < |spans| && Covers(spans[r], k) ==> k == spans[r].start
    ensures Encode(BioFormat, spans, n)[k] == Outside || Encode(BioFormat, spans, n)[k] == Tag(Begin, y)
  {
    y := "";
    SchemeTags("");
    if r :| 0 <= r < |spans| && Covers(spans[r], k) {
      EncodeCovered(BioFormat, spans, n, r, k);
      BioRoles(spans[r], k);
      y := spans[r].spanType;
    } else {
      EncodeOutsideIff(BioFormat, spans, n, k);
    }
  }

  lemma BioStep(spans: seq<Span>, n: nat, k: nat, start: string, end: string)
    requires WellFormed(spans, n) && Setting(start, end) && k <= n
    ensures var p := Path(Encode(BioFormat, spans, n), start, end); BioAllowed(p[k], p[k + 1], start, end)
  {
    if r :| 0 <= r < |spans| && Covers(spans[r], k) && k != spans[r].start {
      PathAt(Encode(BioFormat, spans, n), start, end, k);
      BioInsideStep(spans, n, r, k, start, end);
    } else {
      BioOpeningStep(spans, n, k, start, end);
    }
  }

  /** A step onto `end`, `O` or the first token of a span. */
  lemma BioOpeningStep(spans: seq<Span>, n: nat, k: nat, start: string, end: string)
    requires WellFormed(spans, n) && Setting(start, end) && k <= n
    requires forall r :: 0 <= r < |spans| && Covers(spans[r], k) ==> k == spans[r].start
    ensures var p := Path(Encode(BioFormat, spans, n), start, end); BioAllowed(p[k], p[k + 1], start, end)
  {
    var p := Path(Encode(BioFormat, spans, n), start, end);
    var c, x := BioPathSource(spans, n, k, start, end);
    var y := BioPathTarget(spans, n, k, start, end);
    BioAnyStep(p[k], p[k + 1], c, x, y, start, end);
  }

  lemma BioPathSource(spans: seq<Span>, n: nat, k: nat, start: string, end: string) returns (c: string, x: string)
    requires WellFormed(spans, n) && k <= n
    ensures c == Begin || c == Inside
    ensures var src := Path(Encode(BioFormat, spans, n), start, end)[k]; src == start || src == Outside || src == Tag(c, x)
  {
    c, x := Begin, "";
    if k > 0 {
      c, x := BioTagForms(spans, n, k - 1);
    }
    PathSourceForm(Encode(BioFormat, spans, n), start, end, k, c, x);
  }

  lemma BioPathTarget(spans: seq<Span>, n: nat, k: nat, start: string, end: string) returns (y: string)
    requires WellFormed(spans, n) && k <= n
    requires forall r :: 0 <= r < |spans| && Covers(spans[r], k) ==> k == spans[r].start
    ensures var tgt := Path(Encode(BioFormat, spans, n), start, end)[k + 1]; tgt == end || tgt == Outside || tgt == Tag(Begin, y)
  {
    y := "";
    if k < n {
      y := BioOpeningTarget(spans, n, k);
    }
    PathTargetForm(Encode(BioFormat, spans, n), start, end, k, Begin, y);
  }

  /** The BIO tags of any well-formed span list only take steps the BIO grid marks valid. */
  lemma BioPathsAllowed(spans: seq<Span>, n: nat, start: string, end: string)
    requires WellFormed(spans, n) && Setting(start, end)
    ensures PathAllowed(BioRules, Encode(BioFormat, spans, n), start, end)
  {
    forall k | 0 <= k < n + 1 {
      BioStep(spans, n, k, start, end);
    }
  }

  /** Every IOB position is `O` or a `B-`/`I-` tag. */
  lemma IobTagForms(spans: seq<Span>, n: nat, j: nat) returns (c: string, x: string)
    requires WellFormed(spans, n) && j < n
    ensures c == Begin || c == Inside
    ensures EncodeIob(spans, n)[j] == Outside || EncodeIob(spans, n)[j] == Tag(c, x)
  {
    c, x := Begin, "";
    SchemeTags("");
    if q :| 0 <= q < |spans| && Covers(spans[q], j) {
      EncodeIobCovered(spans, n, q, j);
      c, x := if j == spans[q].start && Continues(spans, q) then Begin else Inside, spans[q].spanType;
    } else {
      EncodeOutsideIff(BioFormat, spans, n, j);
    }
  }

  lemma IobAnyStep(src: string, tgt: string, c: string, x: string, y: string, start: string, end: string)
    requires Setting(start, end) && (c == Begin || c == Inside)
    requires src == start || src == Outside || src == Tag(c, x)
    requires tgt == end || tgt == Outside || tgt == Tag(Inside, y)
    ensures IobAllowed(src, tgt, start, end)
  {
    IobRulesOnTags(c, x, Inside, y, start, end);
  }

  lemma IobSameTypeStep(src: string, tgt: string, c: string, d: string, x: string, start: string, end: string)
    requires Setting(start, end) && (c == Begin || c == Inside) && (d == Begin || d == Inside)
    requires src == Tag(c, x) && tgt == Tag(d, x)
    ensures IobAllowed(src, tgt, start, end)
  {
    IobRulesOnTags(c, x, d, x, start, end);
  }

  /** A `B-` step continues the span just before, which ends at the previous token and has the same type. */
  lemma IobContinueStep(spans: seq<Span>, n: nat, r: nat, k: nat, start: string, end: string)
    requires WellFormed(spans, n) && Setting(start, end) && r < |spans|
    requires Covers(spans[r], k) && k == spans[r].start && Continues(spans, r)
    ensures 0 < k < n
    ensures IobAllowed(EncodeIob(spans, n)[k - 1], EncodeIob(spans, n)[k], start, end)
  {
    var tags := EncodeIob(spans, n);
    var code := IobContinuedTag(spans, n, r);
    EncodeIobCovered(spans, n, r, k);
    IobSameTypeStep(tags[k - 1], tags[k], code, Begin, spans[r].spanType, start, end);
  }

  /** The token before a span that continues its predecessor holds a `B-` or `I-` tag of the same type. */
  lemma IobContinuedTag(spans: seq<Span>, n: nat, r: nat) returns (code: string)
    requires WellFormed(spans, n) && r < |spans| && Continues(spans, r)
    ensures code == Begin || code == Inside
    ensures 0 < spans[r].start <= n
    ensures EncodeIob(spans, n)[spans[r].start - 1] == Tag(code, spans[r].spanType)
  {
    var before, k := spans[r - 1], spans[r].start;
    assert Covers(before, k - 1);
    EncodeIobCovered(spans, n, r - 1, k - 1);
    code := if k - 1 == before.start && Continues(spans, r - 1) then Begin else Inside;
  }

  /** A position that does not continue a touching span holds `O` or an `I-` tag. */
  lemma IobInsideTarget(spans: seq<Span>, n: nat, k: nat) returns (y: string)
    requires WellFormed(spans, n) && k < n
    requires forall r :: 0 <= r < |spans| && Covers(spans[r], k) ==> !(k == spans[r].start && Continues(spans, r))
    ensures EncodeIob(spans, n)[k] == Outside || EncodeIob(spans, n)[k] == Tag(Inside, y)
  {
    y := "";
    SchemeTags("");
    if r :| 0 <= r < |spans| && Covers(spans[r], k) {
      EncodeIobCovered(spans, n, r, k);
      y := spans[r].spanType;
    } else {
      EncodeOutsideIff(BioFormat, spans, n, k);
    }
  }

  lemma IobStep(spans: seq<Span>, n: nat, k: nat, start: string, end: string)
    requires WellFormed(spans, n) && Setting(start, end) && k <= n
    ensures var p := Path(EncodeIob(spans, n), start, end); IobAllowed(p[k], p[k + 1], start, end)
  {
    if r :| 0 <= r < |spans| && Covers(spans[r], k) && k == spans[r].start && Continues(spans, r) {
      PathAt(EncodeIob(spans, n), start, end, k);
      IobContinueStep(spans, n, r, k, start, end);
    } else {
      IobOtherStep(spans, n, k, start, end);
    }
  }

  /** A step onto `O`, an `I-` tag or the end symbol is allowed from anywhere. */
  lemma IobOtherStep(spans: seq<Span>, n: nat, k: nat, start: string, end: string)
    requires WellFormed(spans, n) && Setting(start, end) && k <= n
    requires forall r :: 0 <= r < |spans| && Covers(spans[r], k) ==> !(k == spans[r].start && Continues(spans, r))
    ensures var p := Path(EncodeIob(spans, n), start, end); IobAllowed(p[k], p[k + 1], start, end)
  {
    var c, x := IobPathSource(spans, n, k, start, end);
    var y := IobPathTarget(spans, n, k, start, end);
    var p := Path(EncodeIob(spans, n), start, end);
    IobAnyStep(p[k], p[k + 1], c, x, y, start, end);
  }

  lemma IobPathSource(spans: seq<Span>, n: nat, k: nat, start: string, end: string) returns (c: string, x: string)
    requires WellFormed(spans, n) && k <= n
    ensures c == Begin || c == Inside
    ensures var src := Path(EncodeIob(spans, n), start, end)[k]; src == start || src == Outside || src == Tag(c, x)
  {
    c, x := Begin, "";
    if k > 0 {
      c, x := IobTagForms(spans, n, k - 1);
    }
    PathSourceForm(EncodeIob(spans, n), start, end, k, c, x);
  }

  /** The symbol before position `k` of a framed sequence is the start symbol or the tag before `k`. */
  lemma PathSourceForm(tags: seq<string>, start: string, end: string, k: nat, c: string, x: string)
    requires k <= |tags|
    requires k > 0 ==> tags[k - 1] == Outside || tags[k - 1] == Tag(c, x)
    ensures var src := Path(tags, start, end)[k]; src == start || src == Outside || src == Tag(c, x)
  {
    PathAt(tags, start, end, k);
  }

  /** The symbol after position `k` of a framed sequence is the end symbol or the tag at `k`. */
  lemma PathTargetForm(tags: seq<string>, start: string, end: string, k: nat, d: string, y: string)
    requires k <= |tags|
    requires k < |tags| ==> tags[k] == Outside || tags[k] == Tag(d, y)
    ensures var tgt := Path(tags, start, end)[k + 1]; tgt == end || tgt == Outside || tgt == Tag(d, y)
  {
    PathAt(tags, start, end, k);
  }

  lemma IobPathTarget(spans: seq<Span>, n: nat, k: nat, start: string, end: string) returns (y: string)
    requires WellFormed(spans, n) && k <= n
    requires forall r :: 0 <= r < |spans| && Covers(spans[r], k) ==> !(k == spans[r].start && Continues(spans, r))
    ensures var tgt := Path(EncodeIob(spans, n), start, end)[k + 1]; tgt == end || tgt == Outside || tgt == Tag(Inside, y)
  {
    y := "";
    if k < n {
      y := IobInsideTarget(spans, n, k);
    }
    PathTargetForm(EncodeIob(spans, n), start, end, k, Inside, y);
  }

  /** The IOB tags of any well-formed span list only take steps the IOB grid marks valid. */
  lemma IobPathsAllowed(spans: seq<Span>, n: nat, start: string, end: string)
    requires WellFormed(spans, n) && Setting(start, end)
    ensures PathAllowed(IobRules, EncodeIob(spans, n), start, end)
  {
    forall k | 0 <= k < n + 1 {
      IobStep(spans, n, k, start, end);
    }
  }

  /** Renaming the BILOU tags into IOBES gives a path the IOBES rules allow, so the BILOU grid allows it too. */
  lemma BilouPathsAllowed(spans: seq<Span>, n: nat, start: string, end: string)
    requires WellFormed(spans, n) && Setting(start, end)
    ensures PathAllowed(IobesRules, MapTokens(Encode(BilouFormat, spans, n), BilouToIobesToken), start, end)
  {
    BilouEncodeRenames(spans, n);
    IobesPathsAllowed(spans, n, start, end);
  }

  /** The same for BMEWO tags. */
  lemma BmeowPathsAllowed(spans: seq<Span>, n: nat, start: string, end: string)
    requires WellFormed(spans, n) && Setting(start, end)
    ensures PathAllowed(IobesRules, MapTokens(Encode(BmeowFormat, spans, n), BmeowToIobesToken), start, end)
  {
    BmeowEncodeRenames(spans, n);
    IobesPathsAllowed(spans, n, start, end);
  }

  // ------------------------------------------------------------- the shape of the grids

  /** The grid holds exactly one entry per (source, target) pair, flagged by the rules. */
  lemma GridMembership(rules: Rules, srcs: seq<string>, tgts: seq<string>, start: string, end: string)
    ensures forall a, b, v :: Transition(a, b, v) in Grid(rules, srcs, tgts, start, end) <==>
      a in srcs && b in tgts && v == Allowed(rules, a, b, start, end)
  {
    GridEntries(rules, srcs, tgts, start, end);
    forall a, b | a in srcs && b in tgts
      ensures Entry(rules, a, b, start, end) in Grid(rules, srcs, tgts, start, end)
    {
      var i :| 0 <= i < |srcs| && srcs[i] == a;
      var j :| 0 <= j < |tgts| && tgts[j] == b;
      GridIndex(rules, srcs, tgts, start, end, i, j);
    }
  }

  /** In every grid, steps into the start symbol and out of the end symbol are marked invalid. */
  lemma GridSentinelsInvalid(rules: Rules, tokens: seq<string>, start: string, end: string)
    ensures var v := Vocabulary(tokens, start, end);
      forall t :: t in Grid(rules, v, v, start, end) && (t.target == start || t.source == end) ==> !t.valid
  {
    var v := Vocabulary(tokens, start, end);
    GridEntries(rules, v, v, start, end);
  }

  // ------------------------------------------------------------- the BILOU and BMEWO grids

  /** A symbol without the separator is left alone by every renaming. */
  lemma BareUnrenamed(s: string)
    requires '-' !in s
    ensures BilouToIobesToken(s) == s && IobesToBilouToken(s) == s
    ensures BmeowToIobesToken(s) == s && IobesToBmeowToken(s) == s
  {
    assert !HeadIs(s, Last) && !HeadIs(s, Unit) && !HeadIs(s, End) && !HeadIs(s, Single);
    assert !HeadIs(s, Middle) && !HeadIs(s, Whole) && !HeadIs(s, Inside);
    ReplaceCode(s, Last, End); ReplaceCode(s, Unit, Single);
    ReplaceCode(s, End, Last); ReplaceCode(s, Single, Unit);
    ReplaceCode(s, Middle, Inside); ReplaceCode(s, Whole, Single);
    ReplaceCode(s, Inside, Middle); ReplaceCode(s, Single, Whole);
  }

  /** A BILOU vocabulary uses none of IOBES's own `E-`/`S-` codes. */
  predicate BilouTokens(tokens: seq<string>) {
    forall i :: 0 <= i < |tokens| ==> !HeadIs(tokens[i], End) && !HeadIs(tokens[i], Single)
  }

  /** A BMEWO vocabulary uses none of IOBES's own `I-`/`S-` codes. */
  predicate BmeowTokens(tokens: seq<string>) {
    forall i :: 0 <= i < |tokens| ==> !HeadIs(tokens[i], Inside) && !HeadIs(tokens[i], Single)
  }

  lemma BilouBack(tokens: seq<string>, start: string, end: string, x: string)
    requires '-' !in start && '-' !in end && BilouTokens(tokens)
    requires x in Vocabulary(MapTokens(tokens, BilouToIobesToken), start, end)
    ensures IobesToBilouToken(x) in Vocabulary(tokens, start, end)
    ensures BilouToIobesToken(IobesToBilouToken(x)) == x
  {
    BareUnrenamed(start);
    BareUnrenamed(end);
    var renamed := MapTokens(tokens, BilouToIobesToken);
    if x in renamed {
      var i :| 0 <= i < |renamed| && renamed[i] == x;
      BilouTokenRoundTrip(tokens[i]);
    }
  }

  lemma BmeowBack(tokens: seq<string>, start: string, end: string, x: string)
    requires '-' !in start && '-' !in end && BmeowTokens(tokens)
    requires x in Vocabulary(MapTokens(tokens, BmeowToIobesToken), start, end)
    ensures IobesToBmeowToken(x) in Vocabulary(tokens, start, end)
    ensures BmeowToIobesToken(IobesToBmeowToken(x)) == x
  {
    BareUnrenamed(start);
    BareUnrenamed(end);
    var renamed := MapTokens(tokens, BmeowToIobesToken);
    if x in renamed {
      var i :| 0 <= i < |renamed| && renamed[i] == x;
      BmeowTokenRoundTrip(tokens[i]);
    }
  }

  /**
   * Every entry `bilou_transitions` returns names two tags of the BILOU
   * vocabulary (or the sentinels) and carries the IOBES verdict on the same
   * two tags read as IOBES.
   */
  lemma BilouGridEntries(tokens: seq<string>, start: string, end: string)
    requires '-' !in start && '-' !in end && BilouTokens(tokens)
    ensures forall t :: t in RenamedGrid(tokens, start, end, BilouToIobesToken) ==>
      var u := RenameTransition(t, IobesToBilouToken);
      && u.source in Vocabulary(tokens, start, end) && u.target in Vocabulary(tokens, start, end)
      && u.valid == IobesAllowed(BilouToIobesToken(u.source), BilouToIobesToken(u.target), start, end)
  {
    var v := Vocabulary(MapTokens(tokens, BilouToIobesToken), start, end);
    GridEntries(IobesRules, v, v, start, end);
    forall t | t in Grid(IobesRules, v, v, start, end)
      ensures IobesToBilouToken(t.source) in Vocabulary(tokens, start, end)
      ensures IobesToBilouToken(t.target) in Vocabulary(tokens, start, end)
      ensures BilouToIobesToken(IobesToBilouToken(t.source)) == t.source
      ensures BilouToIobesToken(IobesToBilouToken(t.target)) == t.target
    {
      BilouBack(tokens, start, end, t.source);
      BilouBack(tokens, start, end, t.target);
    }
  }

  /** The same for `bmeow_transitions`. */
  lemma BmeowGridEntries(tokens: seq<string>, start: string, end: string)
    requires '-' !in start && '-' !in end && BmeowTokens(tokens)
    ensures forall t :: t in RenamedGrid(tokens, start, end, BmeowToIobesToken) ==>
      var u := RenameTransition(t, IobesToBmeowToken);
      && u.source in Vocabulary(tokens, start, end) && u.target in Vocabulary(tokens, start, end)
      && u.valid == IobesAllowed(BmeowToIobesToken(u.source), BmeowToIobesToken(u.target), start, end)
  {
    var v := Vocabulary(MapTokens(tokens, BmeowToIobesToken), start, end);
    GridEntries(IobesRules, v, v, start, end);
    forall t | t in Grid(IobesRules, v, v, start, end)
      ensures IobesToBmeowToken(t.source) in Vocabulary(tokens, start, end)
      ensures IobesToBmeowToken(t.target) in Vocabulary(tokens, start, end)
      ensures BmeowToIobesToken(IobesToBmeowToken(t.source)) == t.source
      ensures BmeowToIobesToken(IobesToBmeowToken(t.target)) == t.target
    {
      BmeowBack(tokens, start, end, t.source);
      BmeowBack(tokens, start, end, t.target);
    }
  }
}
