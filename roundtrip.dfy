/**
 * Parsing undoes encoding (tests/test_parse.py): on a well-formed span
 * list, each parser applied to the reference encoding of its scheme gives
 * the span list back. The proofs follow the parser loop position by
 * position against the state it must be in after `k` tags.
 */
module RoundTrip {
  import opened Wrappers
  import opened Iobes
  import opened TagUtils
  import opened Spans
  import opened Format
  import opened Layout
  import opened Parse
  import opened Rename

  /** The loop state when the first `p` spans are finished and `k` tags have been read. */
  function Expected(spans: seq<Span>, p: nat, k: nat): ParseState
    requires p <= |spans|
  {
    if p < |spans| && spans[p].start < k then
      ParseState(spans[..p], Some(spans[p].spanType), Range(spans[p].start, k))
    else ParseState(spans[..p], None, [])
  }

  /** Between two neighbouring positions at most one span finishes, and it ends exactly at `k`. */
  lemma ClosedStep(spans: seq<Span>, n: nat, k: int)
    requires WellFormed(spans, n)
    ensures Closed(spans, k - 1) <= Closed(spans, k) <= Closed(spans, k - 1) + 1
    ensures Closed(spans, k) == Closed(spans, k - 1) + 1 ==> spans[Closed(spans, k - 1)].end == k
  {
    var a := Closed(spans, k - 1);
    if a + 1 < |spans| {
      WellFormedOrdered(spans, n, a, a + 1);
    }
  }

  /** A finished span rebuilt from its start and its tokens is the span itself. */
  lemma SpanOfShaped(s: Span)
    requires Shaped(s)
    ensures SpanOf(s.spanType, Range(s.start, s.end)) == s
  {
  }

  lemma TakeOneMore(spans: seq<Span>, p: nat)
    requires p < |spans|
    ensures spans[..p] + [spans[p]] == spans[..p + 1]
  {
  }

  // ---------------------------------------------------------------- IOBES

  lemma RoleFunctions(fmt: SpanFormat, t: string)
    requires CodeFormat(fmt)
    ensures ExtractFunction(MakeTag(fmt.begin, t, Sep), Sep) == fmt.begin
    ensures ExtractFunction(MakeTag(fmt.inside, t, Sep), Sep) == fmt.inside
    ensures ExtractFunction(MakeTag(fmt.end, t, Sep), Sep) == fmt.end
    ensures ExtractFunction(MakeTag(fmt.single, t, Sep), Sep) == fmt.single
    ensures ExtractType(MakeTag(fmt.begin, t, Sep), Sep) == t
    ensures ExtractType(MakeTag(fmt.inside, t, Sep), Sep) == t
    ensures ExtractType(MakeTag(fmt.end, t, Sep), Sep) == t
    ensures ExtractType(MakeTag(fmt.single, t, Sep), Sep) == t
  {
    MakeTagSplits(fmt.begin, t);
    MakeTagSplits(fmt.inside, t);
    MakeTagSplits(fmt.end, t);
    MakeTagSplits(fmt.single, t);
  }

  lemma IobesGapStep(spans: seq<Span>, n: nat, k: nat)
    requires WellFormed(spans, n) && k < n
    requires var p := Closed(spans, k); !(p < |spans| && spans[p].start <= k)
    ensures IobesStep(Expected(spans, Closed(spans, k), k), Outside, k) == Expected(spans, Closed(spans, k + 1), k + 1)
  {
    BareTagSplits(Outside);
    var p := Closed(spans, k);
    ClosedStep(spans, n, k + 1);
  }

  /** After the last position of span `p` nothing is active and `p + 1` spans are finished. */
  lemma FinishedState(spans: seq<Span>, n: nat, k: nat)
    requires WellFormed(spans, n)
    requires var p := Closed(spans, k); p < |spans| && spans[p].start <= k && k + 1 == spans[p].end
    ensures var p := Closed(spans, k);
      Closed(spans, k + 1) == p + 1 && Expected(spans, p + 1, k + 1) == ParseState(spans[..p + 1], None, [])
  {
    var p := Closed(spans, k);
    ClosedStep(spans, n, k + 1);
    if p + 1 < |spans| {
      WellFormedOrdered(spans, n, p, p + 1);
    }
  }

  /** `S-t` on a one-token span. */
  lemma IobesSingleStep(spans: seq<Span>, n: nat, k: nat)
    requires WellFormed(spans, n) && k < n
    requires var p := Closed(spans, k); p < |spans| && spans[p].start == k && k + 1 == spans[p].end
    ensures IobesStep(Expected(spans, Closed(spans, k), k), TagAt(IobesFormat, spans, k), k)
      == Expected(spans, Closed(spans, k + 1), k + 1)
  {
    var p := Closed(spans, k);
    var s := spans[p];
    assert s == Span(s.spanType, k, k + 1, [k]);
    assert TagAt(IobesFormat, spans, k) == MakeTag(Single, s.spanType, Sep);
    var st := Expected(spans, p, k);
    assert st == ParseState(spans[..p], None, []);
    IobesSingleIdle(st, s.spanType, k);
    FinishedState(spans, n, k);
    TakeOneMore(spans, p);
  }

  /** An `S-` with no span open adds a one-token span. */
  lemma IobesSingleIdle(st: ParseState, t: string, k: nat)
    requires st.active.None?
    ensures IobesStep(st, MakeTag(Single, t, Sep), k) == ParseState(st.spans + [Span(t, k, k + 1, [k])], None, [])
  {
    MakeTagSplits(Single, t);
  }

  /** An `E-` of the active span's type appends its position and finishes the span. */
  lemma IobesEndOfActive(st: ParseState, t: string, k: nat)
    requires st.active == Some(t)
    ensures IobesStep(st, MakeTag(End, t, Sep), k) == Idle(st.(tokens := st.tokens + [k]))
  {
    MakeTagSplits(End, t);
  }

  /** `E-t` on the last token of a longer span. */
  lemma IobesEndStep(spans: seq<Span>, n: nat, k: nat)
    requires WellFormed(spans, n) && k < n
    requires var p := Closed(spans, k); p < |spans| && spans[p].start < k && k + 1 == spans[p].end
    ensures IobesStep(Expected(spans, Closed(spans, k), k), TagAt(IobesFormat, spans, k), k)
      == Expected(spans, Closed(spans, k + 1), k + 1)
  {
    var p := Closed(spans, k);
    var s := spans[p];
    assert TagAt(IobesFormat, spans, k) == MakeTag(End, s.spanType, Sep);
    var st := Expected(spans, p, k);
    IobesEndOfActive(st, s.spanType, k);
    var longer := st.(tokens := st.tokens + [k]);
    RangeSnoc(s.start, k);
    SpanOfShaped(s);
    assert Close(longer) == spans[..p] + [s];
    FinishedState(spans, n, k);
    TakeOneMore(spans, p);
  }

  /** `B-t` on the first token of a longer span. */
  lemma IobesBeginStep(spans: seq<Span>, n: nat, k: nat)
    requires WellFormed(spans, n) && k < n
    requires var p := Closed(spans, k); p < |spans| && spans[p].start == k && k + 1 < spans[p].end
    ensures IobesStep(Expected(spans, Closed(spans, k), k), TagAt(IobesFormat, spans, k), k)
      == Expected(spans, Closed(spans, k + 1), k + 1)
  {
    var p := Closed(spans, k);
    var s := spans[p];
    var tag := TagAt(IobesFormat, spans, k);
    assert |s.tokens| > 1;
    assert tag == MakeTag(Begin, s.spanType, Sep);
    RoleFunctions(IobesFormat, s.spanType);
    var st := Expected(spans, p, k);
    assert st == ParseState(spans[..p], None, []);
    ClosedStep(spans, n, k + 1);
    assert Closed(spans, k + 1) == p;
    RangeUnit(k);
    assert IobesStep(st, tag, k) == ParseState(spans[..p], Some(s.spanType), [k]);
  }

  /** `I-t` strictly inside a span. */
  lemma IobesInsideStep(spans: seq<Span>, n: nat, k: nat)
    requires WellFormed(spans, n) && k < n
    requires var p := Closed(spans, k); p < |spans| && spans[p].start < k && k + 1 < spans[p].end
    ensures IobesStep(Expected(spans, Closed(spans, k), k), TagAt(IobesFormat, spans, k), k)
      == Expected(spans, Closed(spans, k + 1), k + 1)
  {
    var p := Closed(spans, k);
    var s := spans[p];
    assert |s.tokens| > 1;
    assert TagAt(IobesFormat, spans, k) == MakeTag(Inside, s.spanType, Sep);
    var st := Expected(spans, p, k);
    assert st == ParseState(spans[..p], Some(s.spanType), Range(s.start, k));
    IobesInsideOfActive(st, s.spanType, k);
    ClosedStep(spans, n, k + 1);
    assert Closed(spans, k + 1) == p;
    RangeSnoc(s.start, k);
  }

  /** An `I-` of the active span's type appends its position. */
  lemma IobesInsideOfActive(st: ParseState, t: string, k: nat)
    requires st.active == Some(t)
    ensures IobesStep(st, MakeTag(Inside, t, Sep), k) == st.(tokens := st.tokens + [k])
  {
    MakeTagSplits(Inside, t);
  }

  /** One IOBES step over the reference encoding moves the expected state from `j` to `j + 1`. */
  lemma IobesTagStep(spans: seq<Span>, n: nat, j: nat)
    requires WellFormed(spans, n) && j < n
    ensures IobesStep(Expected(spans, Closed(spans, j), j), TagAt(IobesFormat, spans, j), j)
      == Expected(spans, Closed(spans, j + 1), j + 1)
  {
    var p := Closed(spans, j);
    if p < |spans| && spans[p].start <= j {
      var s := spans[p];
      if j + 1 == s.end && s.start == j {
        IobesSingleStep(spans, n, j);
      } else if j + 1 == s.end {
        IobesEndStep(spans, n, j);
      } else if s.start == j {
        IobesBeginStep(spans, n, j);
      } else {
        IobesInsideStep(spans, n, j);
      }
    } else {
      TagAtGap(IobesFormat, spans, j) by {
        UncoveredIsGap(spans, n, j);
      }
      IobesGapStep(spans, n, j);
    }
  }

  lemma ExpectedAtZero(spans: seq<Span>, n: nat)
    requires WellFormed(spans, n)
    ensures Closed(spans, 0) == 0 && Expected(spans, 0, 0) == Initial
  {
    if |spans| > 0 { assert spans[0].end > 0; }
  }

  /** The IOBES loop over the first `k` tags is one step past the loop over the first `k - 1`. */
  lemma IobesRunSnoc(tags: seq<string>, k: nat)
    requires 0 < k <= |tags|
    ensures IobesRun(tags[..k]) == IobesStep(IobesRun(tags[..k - 1]), tags[k - 1], k - 1)
  {
    assert tags[..k][..k - 1] == tags[..k - 1];
  }

  lemma IobesRunExtends(spans: seq<Span>, n: nat, k: nat)
    requires WellFormed(spans, n) && 0 < k <= n
    requires IobesRun(Encode(IobesFormat, spans, n)[..k - 1]) == Expected(spans, Closed(spans, k - 1), k - 1)
    ensures IobesRun(Encode(IobesFormat, spans, n)[..k]) == Expected(spans, Closed(spans, k), k)
  {
    var tags := Encode(IobesFormat, spans, n);
    IobesRunSnoc(tags, k);
    assert tags[k - 1] == TagAt(IobesFormat, spans, k - 1);
    IobesTagStep(spans, n, k - 1);
  }

  lemma {:induction false} IobesRunExpected(spans: seq<Span>, n: nat, k: nat)
    requires WellFormed(spans, n) && k <= n
    ensures IobesRun(Encode(IobesFormat, spans, n)[..k]) == Expected(spans, Closed(spans, k), k)
  {
    var tags := Encode(IobesFormat, spans, n);
    if k == 0 {
      ExpectedAtZero(spans, n);
    } else {
      IobesRunExpected(spans, n, k - 1);
      IobesRunExtends(spans, n, k);
    }
  }

  /** IOBES: parsing the reference encoding of a well-formed list gives the list back, with no errors. */
  lemma IobesRoundTrip(spans: seq<Span>, n: nat)
    requires WellFormed(spans, n)
    ensures ParseIobes(Encode(IobesFormat, spans, n)) == (spans, [])
  {
    var tags := Encode(IobesFormat, spans, n);
    IobesRunExpected(spans, n, n);
    assert tags[..n] == tags;
    assert Closed(spans, n) == |spans|;
    assert spans[..|spans|] == spans;
  }

  // ------------------------------------------------------------ IOB / BIO

  /**
   * What the IOB loop needs of the tag at `k` to rebuild `spans`: inside a
   * span, the span's type, `I-` past the start, and at the start either a
   * non-`I-` function or no touching span of the same type before it;
   * outside every span, a function other than `I` and the type `O`.
   */
  predicate IobReads(spans: seq<Span>, tag: string, k: nat) {
    var p := Closed(spans, k);
    if p < |spans| && spans[p].start <= k then
      && ExtractType(tag, Sep) == spans[p].spanType
      && (k > spans[p].start ==> ExtractFunction(tag, Sep) == Inside)
      && (k == spans[p].start ==> ExtractFunction(tag, Sep) != Inside || !Continues(spans, p))
    else ExtractFunction(tag, Sep) != Inside && ExtractType(tag, Sep) == Outside
  }

  lemma IobGapStep(spans: seq<Span>, n: nat, k: nat, tag: string, next: nat)
    requires WellFormed(spans, n) && k < n && IobReads(spans, tag, k)
    requires var p := Closed(spans, k); !(p < |spans| && spans[p].start <= k)
    requires next == k + 1
    ensures IobStep(Expected(spans, Closed(spans, k - 1), k), tag, k) == Expected(spans, Closed(spans, k), next)
  {
    var a, p := Closed(spans, k - 1), Closed(spans, k);
    ClosedStep(spans, n, k);
    if a < |spans| && spans[a].start < k {
      assert p == a + 1;
      TakeOneMore(spans, a);
      SpanOfShaped(spans[a]);
      if p < |spans| {
        WellFormedOrdered(spans, n, a, p);
      }
    }
  }

  lemma IobCoveredStep(spans: seq<Span>, n: nat, k: nat, tag: string, next: nat)
    requires WellFormed(spans, n) && Typed(spans) && k < n && IobReads(spans, tag, k)
    requires var p := Closed(spans, k); p < |spans| && spans[p].start <= k
    requires next == k + 1
    ensures IobStep(Expected(spans, Closed(spans, k - 1), k), tag, k) == Expected(spans, Closed(spans, k), next)
  {
    ClosedStep(spans, n, k);
    var a, p := Closed(spans, k - 1), Closed(spans, k);
    if k > spans[p].start {
      IobExtendStep(spans, n, k, tag, next);
    } else if a < p {
      IobReopenStep(spans, n, k, tag, next);
    } else {
      IobFreshStep(spans, n, k, tag, next);
    }
  }

  /** Past the start of a span, an `I-` tag of its type adds the position to the open span. */
  lemma IobExtendStep(spans: seq<Span>, n: nat, k: nat, tag: string, next: nat)
    requires WellFormed(spans, n) && Typed(spans) && k < n && IobReads(spans, tag, k)
    requires var p := Closed(spans, k); p < |spans| && spans[p].start < k
    requires next == k + 1
    ensures IobStep(Expected(spans, Closed(spans, k - 1), k), tag, k) == Expected(spans, Closed(spans, k), next)
  {
    var a, p := Closed(spans, k - 1), Closed(spans, k);
    var s := spans[p];
    var st := Expected(spans, a, k);
    var ty := ExtractType(tag, Sep);
    CoverIsClosed(spans, n, p, k - 1);
    assert a == p && ExtractFunction(tag, Sep) == Inside;
    assert st == ParseState(spans[..p], Some(ty), Range(s.start, k));
    RangeSnoc(s.start, k);
    assert IobStep(st, tag, k) == st.(tokens := st.tokens + [k]);
  }

  /** At the start of a span that touches the previous one, the tag closes the previous span and opens the new one. */
  lemma IobReopenStep(spans: seq<Span>, n: nat, k: nat, tag: string, next: nat)
    requires WellFormed(spans, n) && Typed(spans) && k < n && IobReads(spans, tag, k)
    requires var p := Closed(spans, k); p < |spans| && spans[p].start == k
    requires Closed(spans, k - 1) < Closed(spans, k)
    requires next == k + 1
    ensures IobStep(Expected(spans, Closed(spans, k - 1), k), tag, k) == Expected(spans, Closed(spans, k), next)
  {
    ClosedStep(spans, n, k);
    var a, p := Closed(spans, k - 1), Closed(spans, k);
    var st := Expected(spans, a, k);
    var ty := ExtractType(tag, Sep);
    assert ty == spans[p].spanType && ty != Outside;
    assert a == p - 1 && spans[a].end == k;
    TakeOneMore(spans, a);
    SpanOfShaped(spans[a]);
    assert IobStep(st, tag, k) == Open(st, ty, k);
    assert [k] == Range(k, k + 1);
  }

  /** At the start of a span after a gap, the tag opens the span. */
  lemma IobFreshStep(spans: seq<Span>, n: nat, k: nat, tag: string, next: nat)
    requires WellFormed(spans, n) && Typed(spans) && k < n && IobReads(spans, tag, k)
    requires var p := Closed(spans, k); p < |spans| && spans[p].start == k
    requires Closed(spans, k - 1) == Closed(spans, k)
    requires next == k + 1
    ensures IobStep(Expected(spans, Closed(spans, k - 1), k), tag, k) == Expected(spans, Closed(spans, k), next)
  {
    var p := Closed(spans, k);
    var st := Expected(spans, p, k);
    assert ExtractType(tag, Sep) == spans[p].spanType != Outside;
    assert st == ParseState(spans[..p], None, []);
    assert [k] == Range(k, k + 1);
  }

  lemma {:induction false} IobRunExpected(spans: seq<Span>, tags: seq<string>, k: nat)
    requires WellFormed(spans, |tags|) && Typed(spans) && k <= |tags|
    requires forall j {:trigger IobReads(spans, tags[j], j)} :: 0 <= j < |tags| ==> IobReads(spans, tags[j], j)
    ensures IobRun(tags[..k]) == Expected(spans, Closed(spans, k - 1), k)
  {
    if k == 0 {
      assert Closed(spans, -1) == 0;
    } else {
      IobRunExpected(spans, tags, k - 1);
      IobRunSnoc(tags, k);
      var p := Closed(spans, k - 1);
      if p < |spans| && spans[p].start <= k - 1 {
        IobCoveredStep(spans, |tags|, k - 1, tags[k - 1], k);
      } else {
        IobGapStep(spans, |tags|, k - 1, tags[k - 1], k);
      }
    }
  }

  lemma IobRunSnoc(tags: seq<string>, k: nat)
    requires 0 < k <= |tags|
    ensures IobRun(tags[..k]) == IobStep(IobRun(tags[..k - 1]), tags[k - 1], k - 1)
  {
    assert tags[..k][..k - 1] == tags[..k - 1];
  }

  /** Any tag sequence that reads as `spans` position by position parses to `spans` under IOB and BIO. */
  lemma IobParsesReads(spans: seq<Span>, tags: seq<string>)
    requires WellFormed(spans, |tags|) && Typed(spans)
    requires forall j {:trigger IobReads(spans, tags[j], j)} :: 0 <= j < |tags| ==> IobReads(spans, tags[j], j)
    ensures ParseIob(tags) == (spans, [])
  {
    var n := |tags|;
    IobRunExpected(spans, tags, n);
    assert tags[..n] == tags;
    var p := Closed(spans, n - 1);
    if p < |spans| {
      assert spans[p].end == n;
      if p + 1 < |spans| {
        WellFormedOrdered(spans, n, p, p + 1);
      }
      TakeOneMore(spans, p);
      SpanOfShaped(spans[p]);
      assert spans[..p + 1] == spans;
    } else {
      assert spans[..p] == spans;
    }
  }

  lemma EncodeIobReads(spans: seq<Span>, n: nat, k: nat)
    requires WellFormed(spans, n) && Typed(spans) && k < n
    ensures IobReads(spans, EncodeIob(spans, n)[k], k)
  {
    var p := Closed(spans, k);
    BareTagSplits(Outside);
    if p < |spans| && spans[p].start <= k {
      MakeTagSplits(Begin, spans[p].spanType);
      MakeTagSplits(Inside, spans[p].spanType);
    }
  }

  lemma EncodeBioReads(spans: seq<Span>, n: nat, k: nat)
    requires WellFormed(spans, n) && Typed(spans) && k < n
    ensures IobReads(spans, Encode(BioFormat, spans, n)[k], k)
  {
    var p := Closed(spans, k);
    BareTagSplits(Outside);
    if p < |spans| && spans[p].start <= k {
      SchemeTags(spans[p].spanType);
      RoleFunctions(BioFormat, spans[p].spanType);
    }
  }

  /** IOB: parsing the reference IOB encoding of a well-formed list with no span typed `O` gives it back. */
  lemma IobRoundTrip(spans: seq<Span>, n: nat)
    requires WellFormed(spans, n) && Typed(spans)
    ensures ParseIob(EncodeIob(spans, n)) == (spans, [])
  {
    forall j | 0 <= j < n ensures IobReads(spans, EncodeIob(spans, n)[j], j) {
      EncodeIobReads(spans, n, j);
    }
    IobParsesReads(spans, EncodeIob(spans, n));
  }

  /** BIO: likewise for the reference BIO encoding. */
  lemma BioRoundTrip(spans: seq<Span>, n: nat)
    requires WellFormed(spans, n) && Typed(spans)
    ensures ParseBio(Encode(BioFormat, spans, n)) == (spans, [])
  {
    forall j | 0 <= j < n ensures IobReads(spans, Encode(BioFormat, spans, n)[j], j) {
      EncodeBioReads(spans, n, j);
    }
    IobParsesReads(spans, Encode(BioFormat, spans, n));
  }

  /** A span typed `O` is lost by the BIO parser: `B-O` reads as outside. */
  lemma BioOutsideTypeLost()
    ensures ParseBio(Encode(BioFormat, [Span(Outside, 0, 1, [0])], 1)).0 == []
  {
    var spans := [Span(Outside, 0, 1, [0])];
    assert Closed(spans, 0) == 0;
    var tags := Encode(BioFormat, spans, 1);
    SchemeTags(Outside);
    assert tags[0] == TagAt(BioFormat, spans, 0) == "B-O";
    assert tags == ["B-O"];
    CodeTagSplits(Begin, Outside);
    assert tags[..0] == [];
    assert IobRun(tags) == IobStep(Initial, "B-O", 0) == Idle(Initial);
  }

  /** IOB keeps a lone span typed `O`: it is written `I-O`, and the parser opens a span on `I-`. */
  lemma IobLoneOutsideTypeKept()
    ensures ParseIob(EncodeIob([Span(Outside, 0, 1, [0])], 1)).0 == [Span(Outside, 0, 1, [0])]
  {
    var spans := [Span(Outside, 0, 1, [0])];
    assert Closed(spans, 0) == 0;
    var tags := EncodeIob(spans, 1);
    assert tags[0] == IobTagAt(spans, 0) == MakeTag(Inside, Outside, Sep) == "I-O";
    assert tags == ["I-O"];
    CodeTagSplits(Inside, Outside);
    assert tags[..0] == [];
    assert IobRun(tags) == IobStep(Initial, "I-O", 0) == ParseState([], Some(Outside), [0]);
  }

  /**
   * IOB loses a span typed `O` that directly follows another span typed `O`:
   * its first tag is `B-O`, which the parser reads as outside.
   */
  lemma IobTouchingOutsideTypeLost()
    ensures ParseIob(EncodeIob([Span(Outside, 0, 1, [0]), Span(Outside, 1, 2, [1])], 2)).0 == [Span(Outside, 0, 1, [0])]
  {
    var spans := [Span(Outside, 0, 1, [0]), Span(Outside, 1, 2, [1])];
    assert Closed(spans, 0) == 0;
    assert Closed(spans, 1) == 1;
    var tags := EncodeIob(spans, 2);
    assert Continues(spans, 1);
    assert tags[0] == IobTagAt(spans, 0) == MakeTag(Inside, Outside, Sep) == "I-O";
    assert tags[1] == IobTagAt(spans, 1) == MakeTag(Begin, Outside, Sep) == "B-O";
    assert tags == ["I-O", "B-O"];
    CodeTagSplits(Inside, Outside);
    CodeTagSplits(Begin, Outside);
    assert tags[..1] == ["I-O"];
    assert ["I-O"][..0] == [];
    var st := IobStep(Initial, "I-O", 0);
    assert st == ParseState([], Some(Outside), [0]);
    assert IobRun(tags) == IobStep(st, "B-O", 1) == Idle(st);
  }

  /** BILOU: the parser reads the renamed tags as IOBES, so the BILOU encoding parses back too. */
  lemma BilouRoundTrip(spans: seq<Span>, n: nat)
    requires WellFormed(spans, n)
    ensures ParseBilou(Encode(BilouFormat, spans, n)) == (spans, [])
  {
    BilouEncodeRenames(spans, n);
    IobesRoundTrip(spans, n);
  }

  /** BMEWO: likewise through the M/W renaming. */
  lemma BmeowRoundTrip(spans: seq<Span>, n: nat)
    requires WellFormed(spans, n)
    ensures ParseBmewo(Encode(BmeowFormat, spans, n)) == (spans, [])
  {
    BmeowEncodeRenames(spans, n);
    IobesRoundTrip(spans, n);
  }
}
