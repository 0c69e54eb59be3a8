/**
 * The span parsers (iobes/parse.py). The IOB/BIO and IOBES parsers are one
 * left-to-right pass each that keeps the active span's type and token
 * indices and appends finished spans; each is a method with a loop proved
 * equal to a fold of a step function over the tag prefix, and the fold is
 * proved to emit well-formed spans whose tokens carry the span's type.
 */
module Parse {
  import opened Wrappers
  import opened Iobes
  import opened TagUtils
  import opened Spans
  import opened Rename

  /** The loop state: finished spans, the active span's type, and its token indices. */
  datatype ParseState = ParseState(spans: seq<Span>, active: Option<string>, tokens: seq<nat>)

  const Initial := ParseState([], None, [])

  /** The span the loop appends for the active type and tokens. */
  function SpanOf(spanType: string, tokens: seq<nat>): Span
    requires |tokens| > 0
  {
    Span(spanType, tokens[0], tokens[|tokens| - 1] + 1, tokens)
  }

  /** The finished spans, with the active span appended if there is one. */
  function Close(st: ParseState): seq<Span> {
    if st.active.Some? && |st.tokens| > 0 then st.spans + [SpanOf(st.active.value, st.tokens)] else st.spans
  }

  /** Close the active span (if any) and open one of type `t` at `i`. */
  function Open(st: ParseState, t: string, i: nat): ParseState {
    ParseState(Close(st), Some(t), [i])
  }

  /** Close the active span (if any) and continue with none. */
  function Idle(st: ParseState): ParseState {
    ParseState(Close(st), None, [])
  }

  // ------------------------------------------------------------ IOB / BIO

  /** One iteration of the IOB (and identical BIO) loop on tag `tag` at position `i`. */
  function IobStep(st: ParseState, tag: string, i: nat): ParseState {
    var func, ty := ExtractFunction(tag, Sep), ExtractType(tag, Sep);
    if func != Inside && ty != Outside then Open(st, ty, i)
    else if func == Inside then
      if st.active.Some? then
        if st.active.value == ty then st.(tokens := st.tokens + [i]) else Open(st, ty, i)
      else ParseState(st.spans, Some(ty), [i])
    else Idle(st)
  }

  /** The IOB loop's state after the given prefix of tags. */
  function IobRun(tags: seq<string>): ParseState
    decreases |tags|
  {
    if |tags| == 0 then Initial
    else IobStep(IobRun(tags[..|tags| - 1]), tags[|tags| - 1], |tags| - 1)
  }

  /** `parse_spans_iob_with_errors`: the spans, and an error list that is always empty. */
  function ParseIob(tags: seq<string>): (seq<Span>, seq<Error>) {
    (Close(IobRun(tags)), [])
  }

  /** `parse_spans_bio_with_errors`, whose loop is the IOB loop verbatim. */
  function ParseBio(tags: seq<string>): (seq<Span>, seq<Error>) {
    ParseIob(tags)
  }

  /** The loop of `parse_spans_iob_with_errors`. */
  method ParseIobLoop(tags: seq<string>) returns (spans: seq<Span>, errors: seq<Error>)
    ensures (spans, errors) == ParseIob(tags)
  {
    spans := [];
    var span: Option<string> := None;
    var tokens: seq<nat> := [];
    for i := 0 to |tags|
      invariant ParseState(spans, span, tokens) == IobRun(tags[..i])
      invariant span.Some? <==> |tokens| > 0
    {
      assert tags[..i + 1][..i] == tags[..i];
      var func, ty := ExtractFunction(tags[i], Sep), ExtractType(tags[i], Sep);
      if func != Inside && ty != Outside {
        if span.Some? {
          spans := spans + [SpanOf(span.value, tokens)];
        }
        span := Some(ty);
        tokens := [i];
      } else if func == Inside {
        if span.Some? {
          if span.value == ty {
            tokens := tokens + [i];
          } else {
            spans := spans + [SpanOf(span.value, tokens)];
            span := Some(ty);
            tokens := [i];
          }
        } else {
          span := Some(ty);
          tokens := [i];
        }
      } else {
        if span.Some? {
          spans := spans + [SpanOf(span.value, tokens)];
        }
        span := None;
        tokens := [];
      }
    }
    assert tags[..|tags|] == tags;
    if span.Some? {
      spans := spans + [SpanOf(span.value, tokens)];
    }
    errors := [];
  }

  /** `parse_spans_bio_with_errors`. */
  method ParseBioLoop(tags: seq<string>) returns (spans: seq<Span>, errors: seq<Error>)
    ensures (spans, errors) == ParseBio(tags)
  {
    spans, errors := ParseIobLoop(tags);
  }

  // ---------------------------------------------------------------- IOBES

  /** One iteration of the IOBES loop on tag `tag` at position `i`. */
  function IobesStep(st: ParseState, tag: string, i: nat): ParseState {
    var func, ty := ExtractFunction(tag, Sep), ExtractType(tag, Sep);
    if func == Begin then Open(st, ty, i)
    else if func == Single then ParseState(Close(st) + [Span(ty, i, i + 1, [i])], None, [])
    else if func == Inside then
      if st.active.Some? then
        if st.active.value == ty then st.(tokens := st.tokens + [i]) else Open(st, ty, i)
      else ParseState(st.spans, Some(ty), [i])
    else if func == End then
      if st.active.Some? && st.active.value == ty then Idle(st.(tokens := st.tokens + [i]))
      else ParseState(st.spans + [Span(ty, i, i + 1, [i])], None, [])
    else Idle(st)
  }

  function IobesRun(tags: seq<string>): ParseState
    decreases |tags|
  {
    if |tags| == 0 then Initial
    else IobesStep(IobesRun(tags[..|tags| - 1]), tags[|tags| - 1], |tags| - 1)
  }

  /** `parse_spans_iobes_with_errors`: the spans, and an error list that is always empty. */
  function ParseIobes(tags: seq<string>): (seq<Span>, seq<Error>) {
    (Close(IobesRun(tags)), [])
  }

  /** The loop of `parse_spans_iobes_with_errors`. */
  method ParseIobesLoop(tags: seq<string>) returns (spans: seq<Span>, errors: seq<Error>)
    ensures (spans, errors) == ParseIobes(tags)
  {
    spans := [];
    var span: Option<string> := None;
    var tokens: seq<nat> := [];
    for i := 0 to |tags|
      invariant ParseState(spans, span, tokens) == IobesRun(tags[..i])
      invariant span.Some? <==> |tokens| > 0
    {
      assert tags[..i + 1][..i] == tags[..i];
      var func, ty := ExtractFunction(tags[i], Sep), ExtractType(tags[i], Sep);
      if func == Begin {
        if span.Some? {
          spans := spans + [SpanOf(span.value, tokens)];
        }
        span := Some(ty);
        tokens := [i];
      } else if func == Single {
        if span.Some? {
          spans := spans + [SpanOf(span.value, tokens)];
        }
        spans := spans + [Span(ty, i, i + 1, [i])];
        span := None;
        tokens := [];
      } else if func == Inside {
        if span.Some? {
          if ty == span.value {
            tokens := tokens + [i];
          } else {
            spans := spans + [SpanOf(span.value, tokens)];
            span := Some(ty);
            tokens := [i];
          }
        } else {
          span := Some(ty);
          tokens := [i];
        }
      } else if func == End {
        if span.Some? && ty == span.value {
          tokens := tokens + [i];
          spans := spans + [SpanOf(span.value, tokens)];
        } else {
          spans := spans + [Span(ty, i, i + 1, [i])];
        }
        span := None;
        tokens := [];
      } else {
        if span.Some? {
          spans := spans + [SpanOf(span.value, tokens)];
          span := None;
          tokens := [];
        }
      }
    }
    assert tags[..|tags|] == tags;
    if span.Some? {
      spans := spans + [SpanOf(span.value, tokens)];
    }
    errors := [];
  }

  // ---------------------------------------------------------------- TOKEN

  /** `parse_spans_token_with_errors`: one span per tag, typed by the whole tag. */
  function ParseToken(tags: seq<string>): (r: (seq<Span>, seq<Error>))
    ensures |r.0| == |tags| && r.1 == []
  {
    (seq(|tags|, i requires 0 <= i < |tags| => Span(tags[i], i, i + 1, [i])), [])
  }

  /** The TOKEN parse emits a well-formed list of one-token spans whose types spell the input. */
  lemma ParseTokenSpans(tags: seq<string>)
    ensures WellFormed(ParseToken(tags).0, |tags|)
    ensures forall i :: 0 <= i < |tags| ==> ParseToken(tags).0[i].spanType == tags[i]
    ensures forall i :: 0 <= i < |tags| ==> |ParseToken(tags).0[i].tokens| == 1 && ParseToken(tags).0[i].start == i
  {
    var spans := ParseToken(tags).0;
    forall k | 0 <= k < |spans| ensures Shaped(spans[k]) {
      assert spans[k].tokens == Range(k, k + 1);
    }
  }

  // ------------------------------------------------------------ soundness

  /** Every position of every span holds a tag of that span's type. */
  predicate TypesMatch(tags: seq<string>, spans: seq<Span>) {
    forall q, j :: 0 <= q < |spans| && spans[q].start <= j < spans[q].end ==>
      j < |tags| && ExtractType(tags[j], Sep) == spans[q].spanType
  }

  /** What both loops keep after `k` tags: finished spans well formed and typed, the active span contiguous up to `k`. */
  predicate Inv(tags: seq<string>, st: ParseState, k: nat) {
    && k <= |tags|
    && WellFormed(st.spans, k)
    && TypesMatch(tags, st.spans)
    && (st.active.None? ==> st.tokens == [])
    && (st.active.Some? ==>
          && |st.tokens| > 0 && st.tokens[0] < k && st.tokens == Range(st.tokens[0], k)
          && (|st.spans| > 0 ==> st.spans[|st.spans| - 1].end <= st.tokens[0])
          && forall j :: st.tokens[0] <= j < k ==> ExtractType(tags[j], Sep) == st.active.value)
  }

  lemma CloseSound(tags: seq<string>, st: ParseState, k: nat)
    requires Inv(tags, st, k)
    ensures WellFormed(Close(st), k) && TypesMatch(tags, Close(st))
    ensures |Close(st)| > 0 ==> Close(st)[|Close(st)| - 1].end <= k
  {
    if st.active.Some? {
      var s := SpanOf(st.active.value, st.tokens);
      assert s.end == k;
      var r := Close(st);
      assert r == st.spans + [s];
      forall q | 0 < q < |r| ensures r[q - 1].end <= r[q].start {
        if q < |st.spans| {
          assert r[q - 1] == st.spans[q - 1] && r[q] == st.spans[q];
        }
      }
    }
  }

  /** A one-token span at `k` after the closed spans. */
  lemma AppendUnitSound(tags: seq<string>, spans: seq<Span>, k: nat)
    requires k < |tags| && WellFormed(spans, k) && TypesMatch(tags, spans)
    requires |spans| > 0 ==> spans[|spans| - 1].end <= k
    ensures var r := spans + [Span(ExtractType(tags[k], Sep), k, k + 1, [k])];
      WellFormed(r, k + 1) && TypesMatch(tags, r)
  {
    var r := spans + [Span(ExtractType(tags[k], Sep), k, k + 1, [k])];
    assert [k] == Range(k, k + 1);
    forall q | 0 < q < |r| ensures r[q - 1].end <= r[q].start {
      if q < |spans| {
        assert r[q - 1] == spans[q - 1] && r[q] == spans[q];
      }
    }
  }

  lemma WellFormedGrow(spans: seq<Span>, k: nat, m: nat)
    requires WellFormed(spans, k) && k <= m
    ensures WellFormed(spans, m)
  {
  }

  lemma OpenSound(tags: seq<string>, st: ParseState, k: nat)
    requires Inv(tags, st, k) && k < |tags|
    ensures Inv(tags, Open(st, ExtractType(tags[k], Sep), k), k + 1)
  {
    CloseSound(tags, st, k);
    WellFormedGrow(Close(st), k, k + 1);
    assert [k] == Range(k, k + 1);
  }

  lemma FreshSound(tags: seq<string>, st: ParseState, k: nat)
    requires Inv(tags, st, k) && k < |tags| && st.active.None?
    ensures Inv(tags, ParseState(st.spans, Some(ExtractType(tags[k], Sep)), [k]), k + 1)
  {
    assert Close(st) == st.spans;
    OpenSound(tags, st, k);
  }

  lemma ExtendSound(tags: seq<string>, st: ParseState, k: nat)
    requires Inv(tags, st, k) && k < |tags| && st.active.Some? && st.active.value == ExtractType(tags[k], Sep)
    ensures Inv(tags, st.(tokens := st.tokens + [k]), k + 1)
  {
    WellFormedGrow(st.spans, k, k + 1);
    assert st.tokens + [k] == Range(st.tokens[0], k + 1);
  }

  lemma IdleSound(tags: seq<string>, st: ParseState, k: nat)
    requires Inv(tags, st, k) && k <= |tags|
    ensures Inv(tags, Idle(st), k)
    ensures |Close(st)| > 0 ==> Close(st)[|Close(st)| - 1].end <= k
  {
    CloseSound(tags, st, k);
  }

  lemma UnitSound(tags: seq<string>, spans: seq<Span>, k: nat)
    requires k < |tags| && Inv(tags, ParseState(spans, None, []), k)
    ensures Inv(tags, ParseState(spans + [Span(ExtractType(tags[k], Sep), k, k + 1, [k])], None, []), k + 1)
  {
    AppendUnitSound(tags, spans, k);
  }

  lemma IobStepSound(tags: seq<string>, st: ParseState, k: nat)
    requires Inv(tags, st, k) && k < |tags|
    ensures Inv(tags, IobStep(st, tags[k], k), k + 1)
  {
    var func, ty := ExtractFunction(tags[k], Sep), ExtractType(tags[k], Sep);
    if func != Inside && ty != Outside {
      OpenSound(tags, st, k);
    } else if func == Inside {
      if st.active.None? {
        FreshSound(tags, st, k);
      } else if st.active.value == ty {
        ExtendSound(tags, st, k);
      } else {
        OpenSound(tags, st, k);
      }
    } else {
      IdleSound(tags, st, k);
      WellFormedGrow(Close(st), k, k + 1);
    }
  }

  lemma IobesStepSound(tags: seq<string>, st: ParseState, k: nat)
    requires Inv(tags, st, k) && k < |tags|
    ensures Inv(tags, IobesStep(st, tags[k], k), k + 1)
  {
    var func, ty := ExtractFunction(tags[k], Sep), ExtractType(tags[k], Sep);
    if func == Begin {
      OpenSound(tags, st, k);
    } else if func == Single {
      IobesSingleSound(tags, st, k);
    } else if func == Inside {
      if st.active.None? {
        FreshSound(tags, st, k);
      } else if st.active.value == ty {
        ExtendSound(tags, st, k);
      } else {
        OpenSound(tags, st, k);
      }
    } else if func == End {
      IobesEndSound(tags, st, k);
    } else {
      IdleSound(tags, st, k);
      WellFormedGrow(Close(st), k, k + 1);
    }
  }

  lemma IobesSingleSound(tags: seq<string>, st: ParseState, k: nat)
    requires Inv(tags, st, k) && k < |tags| && ExtractFunction(tags[k], Sep) == Single
    ensures Inv(tags, IobesStep(st, tags[k], k), k + 1)
  {
    var ty := ExtractType(tags[k], Sep);
    assert IobesStep(st, tags[k], k) == ParseState(Close(st) + [Span(ty, k, k + 1, [k])], None, []);
    IdleSound(tags, st, k);
    UnitSound(tags, Close(st), k);
  }

  lemma IobesEndSound(tags: seq<string>, st: ParseState, k: nat)
    requires Inv(tags, st, k) && k < |tags| && ExtractFunction(tags[k], Sep) == End
    ensures Inv(tags, IobesStep(st, tags[k], k), k + 1)
  {
    var ty := ExtractType(tags[k], Sep);
    if st.active.Some? && st.active.value == ty {
      var ext := st.(tokens := st.tokens + [k]);
      assert IobesStep(st, tags[k], k) == Idle(ext);
      ExtendSound(tags, st, k);
      IdleSound(tags, ext, k + 1);
    } else {
      assert IobesStep(st, tags[k], k) == ParseState(st.spans + [Span(ty, k, k + 1, [k])], None, []);
      UnitSound(tags, st.spans, k);
    }
  }

  lemma {:induction false} IobRunSound(tags: seq<string>, k: nat)
    requires k <= |tags|
    ensures Inv(tags, IobRun(tags[..k]), k)
  {
    if k > 0 {
      IobRunSound(tags, k - 1);
      assert tags[..k][..k - 1] == tags[..k - 1];
      IobStepSound(tags, IobRun(tags[..k - 1]), k - 1);
    }
  }

  lemma {:induction false} IobesRunSound(tags: seq<string>, k: nat)
    requires k <= |tags|
    ensures Inv(tags, IobesRun(tags[..k]), k)
  {
    if k > 0 {
      IobesRunSound(tags, k - 1);
      assert tags[..k][..k - 1] == tags[..k - 1];
      IobesStepSound(tags, IobesRun(tags[..k - 1]), k - 1);
    }
  }

  /**
   * Whatever the tags, the IOB/BIO and IOBES parsers emit sorted,
   * non-overlapping spans with tokens exactly [start, end) inside the
   * input, every position of a span carrying a tag of the span's type,
   * and an empty error list.
   */
  lemma ParseSound(tags: seq<string>)
    ensures WellFormed(ParseIob(tags).0, |tags|) && TypesMatch(tags, ParseIob(tags).0) && ParseIob(tags).1 == []
    ensures WellFormed(ParseIobes(tags).0, |tags|) && TypesMatch(tags, ParseIobes(tags).0) && ParseIobes(tags).1 == []
  {
    assert tags[..|tags|] == tags;
    IobRunSound(tags, |tags|);
    CloseSound(tags, IobRun(tags), |tags|);
    IobesRunSound(tags, |tags|);
    CloseSound(tags, IobesRun(tags), |tags|);
  }

  // ---------------------------------------------------- IOBES step cases

  /** `S-t` closes any active span and emits the one-token span at `i`. */
  lemma IobesSingleCloses(st: ParseState, t: string, i: nat)
    ensures IobesStep(st, Single + Sep + t, i) == ParseState(Close(st) + [Span(t, i, i + 1, [i])], None, [])
  {
    CodeTagSplits(Single, t);
  }

  /** An `E-t` after an active span of another type drops that span and emits only `[i, i+1)`. */
  lemma IobesMismatchedEndDrops(st: ParseState, t: string, i: nat)
    requires st.active.Some? && st.active.value != t
    ensures IobesStep(st, End + Sep + t, i) == ParseState(st.spans + [Span(t, i, i + 1, [i])], None, [])
  {
    CodeTagSplits(End, t);
  }

  /** A tag whose function is none of B, S, I, E acts exactly like `O`. */
  lemma IobesUnknownIsOutside(st: ParseState, tag: string, i: nat)
    requires ExtractFunction(tag, Sep) !in {Begin, Single, Inside, End}
    ensures IobesStep(st, tag, i) == IobesStep(st, Outside, i) == Idle(st)
  {
    BareTagSplits(Outside);
  }

  /** `B-A E-B` yields the single span `E-B` alone: the `B-A` span is lost. */
  lemma IobesMismatchExample()
    ensures ParseIobes(["B-A", "E-B"]).0 == [Span("B", 1, 2, [1])]
  {
    var a, b := "B-A", "E-B";
    var first := ParseState([], Some("A"), [0]);
    MismatchOpens();
    assert [a][..0] == [];
    assert IobesRun([a]) == first;
    MismatchEndsAlone(first);
    assert [a, b][..1] == [a];
    assert IobesRun([a, b]) == IobesStep(first, b, 1);
  }

  /** `B-A` on the initial state opens an `A` span at position 0. */
  lemma MismatchOpens()
    ensures IobesStep(Initial, "B-A", 0) == ParseState([], Some("A"), [0])
  {
    CodeTagSplits(Begin, "A");
    assert Begin + Sep + "A" == "B-A";
  }

  /** `E-B` while an `A` span is open records a one-token `B` span and drops the open one. */
  lemma MismatchEndsAlone(st: ParseState)
    requires st == ParseState([], Some("A"), [0])
    ensures IobesStep(st, "E-B", 1) == ParseState([Span("B", 1, 2, [1])], None, [])
  {
    CodeTagSplits(End, "B");
    assert End + Sep + "B" == "E-B";
    assert End[0] != Begin[0] && End[0] != Single[0] && End[0] != Inside[0] && "A"[0] != "B"[0];
    assert st.spans + [Span("B", 1, 2, [1])] == [Span("B", 1, 2, [1])];
  }

  // ------------------------------------------------------ IOB step cases

  /** A tag that is not `I-` and has a type other than `O` always opens a new span at its position. */
  lemma IobNonInsideOpens(st: ParseState, tag: string, i: nat)
    requires ExtractFunction(tag, Sep) != Inside && ExtractType(tag, Sep) != Outside
    ensures IobStep(st, tag, i) == Open(st, ExtractType(tag, Sep), i)
  {
  }

  /** Only `I-` tags and tags typed other than `O` are covered by an IOB span. */
  predicate IobTagged(tag: string) {
    ExtractFunction(tag, Sep) == Inside || ExtractType(tag, Sep) != Outside
  }

  /** Position `j` lies in some span of the list. */
  predicate CoveredBy(spans: seq<Span>, j: int) {
    exists q :: 0 <= q < |spans| && Covers(spans[q], j)
  }

  /** Position `j` is in a finished span or in the active one. */
  predicate AllCover(st: ParseState, j: int) {
    CoveredBy(st.spans, j) || (st.active.Some? && |st.tokens| > 0 && st.tokens[0] <= j)
  }

  /** Position `j` starts a finished span or the active one. */
  predicate AllStart(st: ParseState, j: int) {
    (exists q :: 0 <= q < |st.spans| && st.spans[q].start == j) || (st.active.Some? && |st.tokens| > 0 && st.tokens[0] == j)
  }

  /** What the IOB loop keeps besides Inv: the positions seen so far are covered exactly when tagged, and a non-`I-` tag starts a span. */
  predicate IobCoverInv(tags: seq<string>, st: ParseState, k: nat)
    requires k <= |tags|
  {
    && (forall j :: 0 <= j < k ==> (AllCover(st, j) <==> IobTagged(tags[j])))
    && (forall j :: 0 <= j < k && ExtractFunction(tags[j], Sep) != Inside && ExtractType(tags[j], Sep) != Outside ==>
          AllStart(st, j))
  }

  lemma CloseCovers(st: ParseState, j: int)
    requires st.active.Some? ==> |st.tokens| > 0
    ensures CoveredBy(Close(st), j) <==>
      CoveredBy(st.spans, j) || (st.active.Some? && Covers(SpanOf(st.active.value, st.tokens), j))
  {
    var r := Close(st);
    if CoveredBy(r, j) {
      var q :| 0 <= q < |r| && Covers(r[q], j);
      if q < |st.spans| {
        assert r[q] == st.spans[q];
      }
    }
    if CoveredBy(st.spans, j) {
      var q :| 0 <= q < |st.spans| && Covers(st.spans[q], j);
      assert r[q] == st.spans[q];
    }
    if st.active.Some? && Covers(SpanOf(st.active.value, st.tokens), j) {
      assert Covers(r[|r| - 1], j);
    }
  }

  lemma CloseStarts(st: ParseState, j: int)
    requires st.active.Some? ==> |st.tokens| > 0
    ensures (exists q :: 0 <= q < |Close(st)| && Close(st)[q].start == j) <==> AllStart(st, j)
  {
    var r := Close(st);
    if q :| 0 <= q < |r| && r[q].start == j {
      if q < |st.spans| {
        assert r[q] == st.spans[q];
      }
    }
    if q :| 0 <= q < |st.spans| && st.spans[q].start == j {
      assert r[q] == st.spans[q];
    }
    if st.active.Some? && st.tokens[0] == j {
      assert r[|r| - 1].start == j;
    }
  }

  /** No finished span reaches position `k` or beyond. */
  lemma ClosedBefore(tags: seq<string>, st: ParseState, k: nat)
    requires Inv(tags, st, k)
    ensures !CoveredBy(st.spans, k) && !CoveredBy(Close(st), k)
  {
    CloseSound(tags, st, k);
  }

  /** A step leaves the coverage and the starts of earlier positions as they were. */
  lemma IobStepKeepsEarlier(tags: seq<string>, st: ParseState, k: nat, j: nat)
    requires Inv(tags, st, k) && k < |tags| && j < k
    ensures AllCover(IobStep(st, tags[k], k), j) <==> AllCover(st, j)
    ensures AllStart(IobStep(st, tags[k], k), j) <==> AllStart(st, j)
  {
    var next := IobStep(st, tags[k], k);
    var func, ty := ExtractFunction(tags[k], Sep), ExtractType(tags[k], Sep);
    if func == Inside && st.active.Some? && st.active.value == ty {
      assert next == st.(tokens := st.tokens + [k]);
    } else if func == Inside && st.active.None? {
      assert next == ParseState(st.spans, Some(ty), [k]);
    } else {
      assert next.spans == Close(st) && (next.active.Some? ==> next.tokens == [k]);
      CloseCovers(st, j);
      CloseStarts(st, j);
      if st.active.Some? {
        assert SpanOf(st.active.value, st.tokens).end == k;
      }
    }
  }

  /** After a step, position `k` is covered exactly when its tag is, and a non-`I-` typed tag starts a span there. */
  lemma IobStepCoversNew(tags: seq<string>, st: ParseState, k: nat)
    requires Inv(tags, st, k) && k < |tags|
    ensures AllCover(IobStep(st, tags[k], k), k) <==> IobTagged(tags[k])
    ensures ExtractFunction(tags[k], Sep) != Inside && ExtractType(tags[k], Sep) != Outside ==>
      AllStart(IobStep(st, tags[k], k), k)
  {
    ClosedBefore(tags, st, k);
    CloseCovers(st, k);
    if st.active.Some? {
      assert SpanOf(st.active.value, st.tokens).end == k;
    }
  }

  lemma IobStepCovers(tags: seq<string>, st: ParseState, k: nat)
    requires Inv(tags, st, k) && IobCoverInv(tags, st, k) && k < |tags|
    ensures IobCoverInv(tags, IobStep(st, tags[k], k), k + 1)
  {
    var next := IobStep(st, tags[k], k);
    forall j | 0 <= j < k + 1 ensures AllCover(next, j) <==> IobTagged(tags[j]) {
      if j < k {
        IobStepKeepsEarlier(tags, st, k, j);
      } else {
        IobStepCoversNew(tags, st, k);
      }
    }
    forall j | 0 <= j < k + 1 && ExtractFunction(tags[j], Sep) != Inside && ExtractType(tags[j], Sep) != Outside
      ensures AllStart(next, j)
    {
      if j < k {
        IobStepKeepsEarlier(tags, st, k, j);
      } else {
        IobStepCoversNew(tags, st, k);
      }
    }
  }

  lemma {:induction false} IobRunCovers(tags: seq<string>, k: nat)
    requires k <= |tags|
    ensures Inv(tags, IobRun(tags[..k]), k) && IobCoverInv(tags, IobRun(tags[..k]), k)
  {
    IobRunSound(tags, k);
    if k > 0 {
      IobRunCovers(tags, k - 1);
      assert tags[..k][..k - 1] == tags[..k - 1];
      IobStepCovers(tags, IobRun(tags[..k - 1]), k - 1);
    }
  }

  /**
   * IOB/BIO: a position is covered by an emitted span exactly when its tag
   * is `I-` or is typed other than `O`, and every other tag typed other
   * than `O` starts a span.
   */
  lemma IobCoverage(tags: seq<string>, j: nat)
    requires j < |tags|
    ensures CoveredBy(ParseIob(tags).0, j) <==> IobTagged(tags[j])
    ensures ExtractFunction(tags[j], Sep) != Inside && ExtractType(tags[j], Sep) != Outside ==>
      exists q :: 0 <= q < |ParseIob(tags).0| && ParseIob(tags).0[q].start == j
  {
    assert tags[..|tags|] == tags;
    IobRunCovers(tags, |tags|);
    var st := IobRun(tags);
    CloseCovers(st, j);
    CloseStarts(st, j);
    if st.active.Some? {
      assert SpanOf(st.active.value, st.tokens).end == |tags|;
    }
  }

  // ------------------------------------------------------------- dispatch

  /** `parse_spans_bilou_with_errors`: the IOBES parse of the renamed tags; its error list converts as the identity on `[]`. */
  function ParseBilou(tags: seq<string>): (seq<Span>, seq<Error>) {
    ParseIobes(MapTokens(tags, BilouToIobesToken))
  }

  /** `parse_spans_bmewo_with_errors`. */
  function ParseBmewo(tags: seq<string>): (seq<Span>, seq<Error>) {
    ParseIobes(MapTokens(tags, BmeowToIobesToken))
  }

  /** `parse_spans_with_errors`: dispatch on the scheme. */
  function ParseSpansWithErrors(tags: seq<string>, scheme: Encoding): (r: (seq<Span>, seq<Error>))
    ensures r.1 == []
    ensures WellFormed(r.0, |tags|)
  {
    match scheme
    case IOB => ParseSound(tags); ParseIob(tags)
    case BIO => ParseSound(tags); ParseBio(tags)
    case IOBES => ParseSound(tags); ParseIobes(tags)
    case BILOU => ParseSound(MapTokens(tags, BilouToIobesToken)); ParseBilou(tags)
    case BMEWO => ParseSound(MapTokens(tags, BmeowToIobesToken)); ParseBmewo(tags)
    case TOKEN => ParseTokenSpans(tags); ParseToken(tags)
  }

  /** `parse_spans`: the spans alone. */
  function ParseSpans(tags: seq<string>, scheme: Encoding): (r: seq<Span>)
    ensures WellFormed(r, |tags|)
  {
    ParseSpansWithErrors(tags, scheme).0
  }
}
