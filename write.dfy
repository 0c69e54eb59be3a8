/**
 * Span list to tag sequence (iobes/write.py): sorting by start, the blank
 * `O` sequence, the generic four-role writer `_write_tags` and the
 * contextual IOB writer.
 */
module Write {
  import opened Wrappers
  import opened Iobes
  import opened TagUtils
  import opened Spans
  import opened Format
  import opened Layout

  // ---------------------------------------------------------------- sorting

  predicate SortedByStart(xs: seq<Span>) {
    forall i, j :: 0 <= i < j < |xs| ==> xs[i].start <= xs[j].start
  }

  predicate StrictlyByStart(xs: seq<Span>) {
    forall i, j :: 0 <= i < j < |xs| ==> xs[i].start < xs[j].start
  }

  /** Insert `s` before the first element that does not start earlier (keeps equal starts in input order). */
  function Insert(s: Span, sorted: seq<Span>): (r: seq<Span>)
    ensures multiset(r) == multiset(sorted) + multiset{s}
    ensures |r| == |sorted| + 1 && (r[0] == s || (|sorted| > 0 && r[0] == sorted[0]))
    ensures SortedByStart(sorted) ==> SortedByStart(r)
    decreases |sorted|
  {
    if |sorted| == 0 || s.start <= sorted[0].start then [s] + sorted
    else
      var rest := Insert(s, sorted[1..]);
      InsertBehind(s, sorted, rest);
      [sorted[0]] + rest
  }

  /** Putting the head back in front of the insertion into the tail. */
  lemma InsertBehind(s: Span, sorted: seq<Span>, rest: seq<Span>)
    requires |sorted| > 0 && s.start > sorted[0].start
    requires multiset(rest) == multiset(sorted[1..]) + multiset{s}
    requires |rest| == |sorted| && (rest[0] == s || (|sorted| > 1 && rest[0] == sorted[1]))
    requires SortedByStart(sorted[1..]) ==> SortedByStart(rest)
    ensures multiset([sorted[0]] + rest) == multiset(sorted) + multiset{s}
    ensures SortedByStart(sorted) ==> SortedByStart([sorted[0]] + rest)
  {
    assert sorted == [sorted[0]] + sorted[1..];
    if SortedByStart(sorted) {
      assert SortedByStart(sorted[1..]);
      SortedCons(sorted[0], rest);
    }
  }

  lemma SortedCons(x: Span, xs: seq<Span>)
    requires |xs| > 0 && SortedByStart(xs) && x.start <= xs[0].start
    ensures SortedByStart([x] + xs)
  {
    assert forall j :: 0 <= j < |xs| ==> xs[0].start <= xs[j].start;
  }

  /** `sort_spans`: a sort by `start`; the order it leaves among equal starts is not stated. */
  function SortSpans(spans: seq<Span>): (r: seq<Span>)
    ensures multiset(r) == multiset(spans)
    ensures SortedByStart(r)
    decreases |spans|
  {
    if |spans| == 0 then []
    else
      assert spans == [spans[0]] + spans[1..];
      Insert(spans[0], SortSpans(spans[1..]))
  }

  /** A sorted permutation of a list with strictly increasing starts is that list. */
  lemma {:induction false} SortedUnique(a: seq<Span>, b: seq<Span>)
    requires SortedByStart(a) && StrictlyByStart(b) && multiset(a) == multiset(b)
    ensures a == b
    decreases |a|
  {
    assert |a| == |multiset(a)| == |multiset(b)| == |b|;
    if |a| > 0 {
      SameHead(a, b);
      MultisetTail(a);
      MultisetTail(b);
      SortedUnique(a[1..], b[1..]);
      assert a == [a[0]] + a[1..] && b == [b[0]] + b[1..];
    }
  }

  /** The first elements agree: each is in the other list, and `b` has no second element starting as early. */
  lemma SameHead(a: seq<Span>, b: seq<Span>)
    requires SortedByStart(a) && StrictlyByStart(b) && multiset(a) == multiset(b) && |a| > 0 && |b| > 0
    ensures a[0] == b[0]
  {
    assert a[0] in multiset(b);
    var i :| 0 <= i < |b| && b[i] == a[0];
    assert b[0] in multiset(a);
    var k :| 0 <= k < |a| && a[k] == b[0];
    assert a[0].start <= a[k].start;
    if i > 0 {
      assert b[0].start < b[i].start;
    }
  }

  lemma MultisetTail(a: seq<Span>)
    requires |a| > 0
    ensures multiset(a[1..]) == multiset(a) - multiset{a[0]}
  {
    assert a == [a[0]] + a[1..];
  }

  /** Sorting any reordering of a well-formed list restores it; in particular sorting it changes nothing. */
  lemma SortRestores(shuffled: seq<Span>, spans: seq<Span>, n: nat)
    requires WellFormed(spans, n) && multiset(shuffled) == multiset(spans)
    ensures SortSpans(shuffled) == spans
  {
    forall i, j | 0 <= i < j < |spans| ensures spans[i].start < spans[j].start {
      WellFormedStartsIncrease(spans, n, i, j);
    }
    SortedUnique(SortSpans(shuffled), spans);
  }

  // ----------------------------------------------------------- blank tags

  /** The largest `end`, as `max(spans, key=end).end`. */
  function MaxEnd(spans: seq<Span>): (m: nat)
    requires |spans| > 0
    ensures exists k :: 0 <= k < |spans| && spans[k].end == m
    ensures forall k :: 0 <= k < |spans| ==> spans[k].end <= m
  {
    if |spans| == 1 then spans[0].end
    else
      var rest := MaxEnd(spans[1..]);
      assert forall k :: 1 <= k < |spans| ==> spans[k] == spans[1..][k - 1];
      if spans[0].end >= rest then spans[0].end else rest
  }

  lemma MaxEndPermutation(a: seq<Span>, b: seq<Span>)
    requires multiset(a) == multiset(b)
    ensures |a| == |b|
    ensures |a| > 0 ==> MaxEnd(a) == MaxEnd(b)
  {
    assert |a| == |multiset(a)| == |multiset(b)| == |b|;
    if |a| == 0 { return; }
    var ka :| 0 <= ka < |a| && a[ka].end == MaxEnd(a);
    var kb :| 0 <= kb < |b| && b[kb].end == MaxEnd(b);
    assert a[ka] in multiset(b);
    assert b[kb] in multiset(a);
  }

  /** `make_blanks`: `length` copies of `fill`, the length defaulting to the largest end. */
  function MakeBlanks(spans: seq<Span>, length: Option<nat>, fill: string): (r: Result<seq<string>, Exception>)
    ensures r.Success? <==> length.Some? || |spans| > 0
    ensures r.Failure? ==> r.error.ValueError?
    ensures r.Success? && length.Some? ==> |r.value| == length.value
    ensures r.Success? && length.None? ==> |spans| > 0 && |r.value| == MaxEnd(spans)
    ensures r.Success? ==> forall i :: 0 <= i < |r.value| ==> r.value[i] == fill
  {
    match length
    case Some(n) => Success(seq(n, _ => fill))
    case None =>
      if |spans| == 0 then Failure(ValueError("max() arg is an empty sequence"))
      else Success(seq(MaxEnd(spans), _ => fill))
  }

  // ------------------------------------------------------ four-role writer

  /** The tokens strictly between the first and the last (`tokens[1:-1]`). */
  function Interior(tokens: seq<nat>): seq<nat> {
    if |tokens| >= 2 then tokens[1..|tokens| - 1] else []
  }

  /** Python list indexing: negative indices count from the end. */
  function PyIndex(i: int, n: nat): (r: Option<nat>)
    ensures r.Some? ==> r.value < n
  {
    if 0 <= i < n then Some(i) else if -(n as int) <= i < 0 then Some((i + n) as nat) else None
  }

  /** Overwrite each position of `idxs` in turn; IndexError at the first one out of range. */
  function StampEach(tags: seq<string>, idxs: seq<nat>, tag: string): (r: Result<seq<string>, Exception>)
    ensures r.Success? ==> |r.value| == |tags|
    ensures r.Success? <==> forall i :: 0 <= i < |idxs| ==> idxs[i] < |tags|
    ensures r.Success? ==> r.value == Fill(tags, idxs, tag)
    ensures r.Failure? ==> r.error == IndexError
    decreases |idxs|
  {
    if |idxs| == 0 then Success(tags)
    else if idxs[0] < |tags| then
      var r := StampEach(tags[idxs[0] := tag], idxs[1..], tag);
      assert forall i :: 1 <= i < |idxs| ==> idxs[i] == idxs[1..][i - 1];
      r
    else Failure(IndexError)
  }

  /** One iteration of `_write_tags`' loop. */
  function StampSpan(tags: seq<string>, fmt: SpanFormat, s: Span): (r: Result<seq<string>, Exception>)
    ensures r.Success? ==> |r.value| == |tags|
    ensures r.Failure? ==> r.error == IndexError
  {
    if |s.tokens| == 1 then
      if s.start < |tags| then Success(tags[s.start := SingleTag(fmt, s.spanType)]) else Failure(IndexError)
    else if s.start >= |tags| then Failure(IndexError)
    else
      match PyIndex(s.end - 1, |tags|)
      case None => Failure(IndexError)
      case Some(e) =>
        StampEach(tags[s.start := StartTag(fmt, s.spanType)][e := EndTag(fmt, s.spanType)],
                  Interior(s.tokens), InsideTag(fmt, s.spanType))
  }

  /** `_write_tags`' loop over the (sorted) spans. */
  function StampAll(tags: seq<string>, fmt: SpanFormat, spans: seq<Span>): (r: Result<seq<string>, Exception>)
    ensures r.Success? ==> |r.value| == |tags|
    ensures r.Failure? ==> r.error == IndexError
    decreases |spans|
  {
    if |spans| == 0 then Success(tags)
    else
      match StampSpan(tags, fmt, spans[0])
      case Failure(e) => Failure(e)
      case Success(t) => StampAll(t, fmt, spans[1..])
  }

  /** What is left of the loop once the current span's writes gave `r`. */
  function Then(r: Result<seq<string>, Exception>, fmt: SpanFormat, rest: seq<Span>): Result<seq<string>, Exception> {
    match r
    case Failure(e) => Failure(e)
    case Success(t) => StampAll(t, fmt, rest)
  }

  /** One turn of `_write_tags`' loop, at span `q` of the sorted list. */
  lemma StampAllUnfold(tags: seq<string>, fmt: SpanFormat, sorted: seq<Span>, q: nat)
    requires q < |sorted|
    ensures StampAll(tags, fmt, sorted[q..]) == Then(StampSpan(tags, fmt, sorted[q]), fmt, sorted[q + 1..])
  {
    assert sorted[q..][1..] == sorted[q + 1..];
  }

  /** `_write_tags` as a function of its inputs. */
  function WriteFormatted(spans: seq<Span>, fmt: SpanFormat, length: Option<nat>): (r: Result<seq<string>, Exception>)
    ensures length.None? && |spans| == 0 ==> r.Failure? && r.error.ValueError?
    ensures r.Success? && length.Some? ==> |r.value| == length.value
    ensures r.Success? && length.None? ==> |spans| > 0 && |r.value| == MaxEnd(spans)
  {
    var sorted := SortSpans(spans);
    MaxEndPermutation(spans, sorted);
    match MakeBlanks(sorted, length, Outside)
    case Failure(e) => Failure(e)
    case Success(blank) => StampAll(blank, fmt, sorted)
  }

  /** `write_bio_tags`, `write_iobes_tags`, `write_bilou_tags`, `write_bmeow_tags` (alias `write_bmewo_tags`). */
  function WriteBioTags(spans: seq<Span>, length: Option<nat>): Result<seq<string>, Exception> {
    WriteFormatted(spans, BioFormat, length)
  }
  function WriteIobesTags(spans: seq<Span>, length: Option<nat>): Result<seq<string>, Exception> {
    WriteFormatted(spans, IobesFormat, length)
  }
  function WriteBilouTags(spans: seq<Span>, length: Option<nat>): Result<seq<string>, Exception> {
    WriteFormatted(spans, BilouFormat, length)
  }
  function WriteBmeowTags(spans: seq<Span>, length: Option<nat>): Result<seq<string>, Exception> {
    WriteFormatted(spans, BmeowFormat, length)
  }
  function WriteBmewoTags(spans: seq<Span>, length: Option<nat>): Result<seq<string>, Exception> {
    WriteBmeowTags(spans, length)
  }

  /** Write `tag` at each of `idxs` in turn, stopping at the first index out of range. */
  method StampTokens(tags: array<string>, idxs: seq<nat>, tag: string) returns (ok: bool)
    modifies tags
    ensures StampEach(old(tags[..]), idxs, tag) == if ok then Success(tags[..]) else Failure(IndexError)
  {
    var m := 0;
    while m < |idxs|
      invariant 0 <= m <= |idxs|
      invariant StampEach(old(tags[..]), idxs, tag) == StampEach(tags[..], idxs[m..], tag)
    {
      assert idxs[m..][1..] == idxs[m + 1..];
      if idxs[m] >= tags.Length {
        return false;
      }
      tags[idxs[m]] := tag;
      m := m + 1;
    }
    return true;
  }

  /** One iteration of `_write_tags`' loop, in place. */
  method StampSpanInPlace(tags: array<string>, fmt: SpanFormat, s: Span) returns (ok: bool)
    modifies tags
    ensures StampSpan(old(tags[..]), fmt, s) == if ok then Success(tags[..]) else Failure(IndexError)
  {
    var n := tags.Length;
    if |s.tokens| == 1 {
      if s.start >= n {
        return false;
      }
      tags[s.start] := SingleTag(fmt, s.spanType);
      return true;
    }
    if s.start >= n {
      return false;
    }
    tags[s.start] := StartTag(fmt, s.spanType);
    var e := PyIndex(s.end - 1, n);
    if e.None? {
      return false;
    }
    tags[e.value] := EndTag(fmt, s.spanType);
    assert tags[..] == old(tags[..])[s.start := StartTag(fmt, s.spanType)][e.value := EndTag(fmt, s.spanType)];
    ok := StampTokens(tags, Interior(s.tokens), InsideTag(fmt, s.spanType));
  }

  /** `_write_tags`: sort, blank, then stamp each span's single/start/end/inside tags in place. */
  method WriteTags(spans: seq<Span>, fmt: SpanFormat, length: Option<nat>) returns (r: Result<seq<string>, Exception>)
    ensures r == WriteFormatted(spans, fmt, length)
  {
    var sorted := SortSpans(spans);
    var blanks := MakeBlanks(sorted, length, Outside);
    if blanks.Failure? {
      return Failure(blanks.error);
    }
    ghost var goal := StampAll(blanks.value, fmt, sorted);
    assert goal == WriteFormatted(spans, fmt, length);
    var tags := new string[|blanks.value|](_ => Outside);
    assert tags[..] == blanks.value;
    assert sorted[0..] == sorted;
    var q := 0;
    while q < |sorted|
      invariant 0 <= q <= |sorted|
      invariant goal == StampAll(tags[..], fmt, sorted[q..])
    {
      StampAllUnfold(tags[..], fmt, sorted, q);
      var ok := StampSpanInPlace(tags, fmt, sorted[q]);
      if !ok {
        return Failure(IndexError);
      }
      q := q + 1;
    }
    assert sorted[q..] == [];
    return Success(tags[..]);
  }

  // ---------------------------------------------- positions out of range

  /** A span that starts at or past the end of the tags raises IndexError, whatever its tokens. */
  lemma StampSpanPastEnd(tags: seq<string>, fmt: SpanFormat, s: Span)
    requires s.start >= |tags|
    ensures StampSpan(tags, fmt, s) == Failure(IndexError)
  {
  }

  /** The writes of a span of the generated shape succeed exactly when it ends within the tags. */
  lemma StampShapedSpan(tags: seq<string>, fmt: SpanFormat, s: Span)
    requires Shaped(s)
    ensures StampSpan(tags, fmt, s).Success? <==> s.end <= |tags|
  {
    var n := |tags|;
    if |s.tokens| != 1 && s.start < n {
      if s.end <= n {
        assert PyIndex(s.end - 1, n) == Some(s.end - 1);
        InteriorRange(s.start, s.end);
      } else {
        assert PyIndex(s.end - 1, n) == None;
      }
    }
  }

  /** `_write_tags`' loop raises IndexError when any span starts at or past the end of the tags. */
  lemma {:induction false} StampAllPastEnd(tags: seq<string>, fmt: SpanFormat, spans: seq<Span>, q: nat)
    requires q < |spans| && spans[q].start >= |tags|
    ensures StampAll(tags, fmt, spans) == Failure(IndexError)
    decreases |spans|
  {
    if q == 0 {
      StampSpanPastEnd(tags, fmt, spans[0]);
    } else {
      match StampSpan(tags, fmt, spans[0])
      case Failure(_) =>
      case Success(t) =>
        assert spans[1..][q - 1] == spans[q];
        StampAllPastEnd(t, fmt, spans[1..], q - 1);
    }
  }

  /** For spans of the generated shape, the loop succeeds exactly when every span ends within the tags. */
  lemma {:induction false} StampAllShaped(tags: seq<string>, fmt: SpanFormat, spans: seq<Span>)
    requires forall q :: 0 <= q < |spans| ==> Shaped(spans[q])
    ensures StampAll(tags, fmt, spans).Success? <==> forall q :: 0 <= q < |spans| ==> spans[q].end <= |tags|
    decreases |spans|
  {
    if |spans| > 0 {
      StampShapedSpan(tags, fmt, spans[0]);
      assert forall q :: 1 <= q < |spans| ==> spans[1..][q - 1] == spans[q];
      match StampSpan(tags, fmt, spans[0])
      case Failure(_) =>
      case Success(t) =>
        StampAllShaped(t, fmt, spans[1..]);
    }
  }

  /** With an explicit length, `_write_tags` raises IndexError when some span starts at or past it. */
  lemma WritePastLengthFails(spans: seq<Span>, fmt: SpanFormat, n: nat)
    requires exists q :: 0 <= q < |spans| && spans[q].start >= n
    ensures WriteFormatted(spans, fmt, Some(n)) == Failure(IndexError)
  {
    var q :| 0 <= q < |spans| && spans[q].start >= n;
    var sorted := SortSpans(spans);
    assert spans[q] in multiset(sorted);
    var k :| 0 <= k < |sorted| && sorted[k] == spans[q];
    StampAllPastEnd(MakeBlanks(sorted, Some(n), Outside).value, fmt, sorted, k);
  }

  /** For spans of the generated shape, `_write_tags` with a length succeeds exactly when every span ends within it. */
  lemma WriteShapedInRange(spans: seq<Span>, fmt: SpanFormat, n: nat)
    requires forall q :: 0 <= q < |spans| ==> Shaped(spans[q])
    ensures WriteFormatted(spans, fmt, Some(n)).Success? <==> forall q :: 0 <= q < |spans| ==> spans[q].end <= n
  {
    var sorted := SortSpans(spans);
    forall k | 0 <= k < |sorted| ensures sorted[k] in spans {
      assert sorted[k] in multiset(spans);
    }
    forall q | 0 <= q < |spans| ensures spans[q] in sorted {
      assert spans[q] in multiset(sorted);
    }
    StampAllShaped(MakeBlanks(sorted, Some(n), Outside).value, fmt, sorted);
  }

  /** `write_iobes_tags([Span("A", 3, 4, [3])], 2)` raises IndexError. */
  lemma WritePastLengthExample()
    ensures WriteIobesTags([Span("A", 3, 4, [3])], Some(2)) == Failure(IndexError)
  {
    var spans := [Span("A", 3, 4, [3])];
    assert spans[0].start >= 2;
    WritePastLengthFails(spans, IobesFormat, 2);
  }

  // ------------------------------------------------ writers versus layout

  lemma EncodeNothing(fmt: SpanFormat, n: nat)
    ensures Encode(fmt, [], n) == seq(n, _ => Outside)
    ensures EncodeIob([], n) == seq(n, _ => Outside)
  {
  }

  lemma InteriorRange(a: nat, b: nat)
    requires a + 2 <= b
    ensures Interior(Range(a, b)) == Range(a + 1, b - 1)
  {
  }

  lemma StampSingleExtends(fmt: SpanFormat, spans: seq<Span>, n: nat, q: nat)
    requires WellFormed(spans, n) && q < |spans| && |spans[q].tokens| == 1
    ensures Encode(fmt, spans[..q], n)[spans[q].start := SingleTag(fmt, spans[q].spanType)] == Encode(fmt, spans[..q + 1], n)
  {
    var s, tags, want := spans[q], Encode(fmt, spans[..q], n), Encode(fmt, spans[..q + 1], n);
    var t := tags[s.start := SingleTag(fmt, s.spanType)];
    forall j | 0 <= j < n ensures t[j] == want[j] {
      TagAtExtend(fmt, spans, n, q, j);
    }
  }

  lemma StampLongExtends(fmt: SpanFormat, spans: seq<Span>, n: nat, q: nat)
    requires WellFormed(spans, n) && q < |spans| && |spans[q].tokens| != 1
    ensures var s := spans[q];
      Fill(Encode(fmt, spans[..q], n)[s.start := StartTag(fmt, s.spanType)][s.end - 1 := EndTag(fmt, s.spanType)],
           Range(s.start + 1, s.end - 1), InsideTag(fmt, s.spanType))
      == Encode(fmt, spans[..q + 1], n)
  {
    var s, tags, want := spans[q], Encode(fmt, spans[..q], n), Encode(fmt, spans[..q + 1], n);
    var t := tags[s.start := StartTag(fmt, s.spanType)][s.end - 1 := EndTag(fmt, s.spanType)];
    var filled := Fill(t, Range(s.start + 1, s.end - 1), InsideTag(fmt, s.spanType));
    forall j | 0 <= j < n ensures filled[j] == want[j] {
      StampLongAt(fmt, spans, n, q, t, j);
    }
  }

  /** Position `j` after a long span's begin, end and inside tags are written. */
  lemma StampLongAt(fmt: SpanFormat, spans: seq<Span>, n: nat, q: nat, t: seq<string>, j: nat)
    requires WellFormed(spans, n) && q < |spans| && |spans[q].tokens| != 1 && j < n
    requires var s := spans[q];
      t == Encode(fmt, spans[..q], n)[s.start := StartTag(fmt, s.spanType)][s.end - 1 := EndTag(fmt, s.spanType)]
    ensures Fill(t, Range(spans[q].start + 1, spans[q].end - 1), InsideTag(fmt, spans[q].spanType))[j]
      == TagAt(fmt, spans[..q + 1], j)
  {
    var s := spans[q];
    FillRange(t, s.start + 1, s.end - 1, InsideTag(fmt, s.spanType), j);
    TagAtExtend(fmt, spans, n, q, j);
    assert Encode(fmt, spans[..q], n)[j] == TagAt(fmt, spans[..q], j);
  }

  /** Stamping span `q` over the encoding of the spans before it encodes one span more. */
  lemma StampSpanExtends(fmt: SpanFormat, spans: seq<Span>, n: nat, q: nat)
    requires WellFormed(spans, n) && q < |spans|
    ensures StampSpan(Encode(fmt, spans[..q], n), fmt, spans[q]) == Success(Encode(fmt, spans[..q + 1], n))
  {
    var s := spans[q];
    if |s.tokens| == 1 {
      StampSingleExtends(fmt, spans, n, q);
    } else {
      assert PyIndex(s.end - 1, n) == Some(s.end - 1);
      InteriorRange(s.start, s.end);
      StampLongExtends(fmt, spans, n, q);
    }
  }

  lemma {:induction false} StampAllExtends(fmt: SpanFormat, spans: seq<Span>, n: nat, q: nat)
    requires WellFormed(spans, n) && q <= |spans|
    ensures StampAll(Encode(fmt, spans[..q], n), fmt, spans[q..]) == Success(Encode(fmt, spans, n))
    decreases |spans| - q
  {
    if q == |spans| {
      assert spans[..q] == spans;
    } else {
      StampSpanExtends(fmt, spans, n, q);
      assert spans[q..][1..] == spans[q + 1..];
      StampAllExtends(fmt, spans, n, q + 1);
    }
  }

  /** In a well-formed list the largest end is the last span's end. */
  lemma MaxEndIsLast(spans: seq<Span>, n: nat)
    requires WellFormed(spans, n) && |spans| > 0
    ensures MaxEnd(spans) == spans[|spans| - 1].end
    ensures WellFormed(spans, MaxEnd(spans))
  {
    LastEndIsMax(spans, n);
    var m := MaxEnd(spans);
    forall k | 0 <= k < |spans| ensures Shaped(spans[k]) && spans[k].end <= m {
    }
  }

  lemma LastEndIsMax(spans: seq<Span>, n: nat)
    requires WellFormed(spans, n) && |spans| > 0
    ensures MaxEnd(spans) == spans[|spans| - 1].end
  {
    var k :| 0 <= k < |spans| && spans[k].end == MaxEnd(spans);
    EndBeforeLast(spans, n, k);
  }

  /** In a well-formed list no span ends after the last one. */
  lemma EndBeforeLast(spans: seq<Span>, n: nat, k: nat)
    requires WellFormed(spans, n) && k < |spans|
    ensures spans[k].end <= spans[|spans| - 1].end
  {
    var last := |spans| - 1;
    if k < last {
      WellFormedOrdered(spans, n, k, last);
      assert Shaped(spans[last]);
    }
  }

  /**
   * `_write_tags` on any ordering of a well-formed span list writes the
   * reference encoding; without a length it writes up to the last end.
   */
  lemma WriterMatchesLayout(fmt: SpanFormat, shuffled: seq<Span>, spans: seq<Span>, n: nat)
    requires WellFormed(spans, n) && multiset(shuffled) == multiset(spans)
    ensures WriteFormatted(shuffled, fmt, Some(n)) == Success(Encode(fmt, spans, n))
    ensures |spans| > 0 ==>
      WriteFormatted(shuffled, fmt, None) == Success(Encode(fmt, spans, spans[|spans| - 1].end))
  {
    SortRestores(shuffled, spans, n);
    EncodeNothing(fmt, n);
    assert spans[..0] == [] && spans[0..] == spans;
    StampAllExtends(fmt, spans, n, 0);
    if |spans| > 0 {
      MaxEndIsLast(spans, n);
      var m := MaxEnd(spans);
      EncodeNothing(fmt, m);
      StampAllExtends(fmt, spans, m, 0);
    }
  }

  // ------------------------------------------------------------ IOB writer

  function IobTag(code: string, spanType: string): string { MakeTag(code, spanType, Sep) }

  /** After `span`'s tokens are `I-`: a `B-` at its start when it touches `prev` with the same type. */
  function IobContinue(tags: seq<string>, prev: Span, span: Span, rest: seq<Span>): Result<seq<string>, Exception>
    decreases |rest| + 1, 0
  {
    if prev.end == span.start && prev.spanType == span.spanType then
      if span.start < |tags| then IobStampRest(tags[span.start := IobTag(Begin, span.spanType)], span, rest)
      else Failure(IndexError)
    else IobStampRest(tags, span, rest)
  }

  function IobAfterTokens(r: Result<seq<string>, Exception>, prev: Span, span: Span, rest: seq<Span>): Result<seq<string>, Exception>
    decreases |rest| + 1, 1
  {
    match r
    case Failure(e) => Failure(e)
    case Success(t) => IobContinue(t, prev, span, rest)
  }

  /** `write_iob_tags`' loop over consecutive pairs, `prev` being the span before `rest`. */
  function IobStampRest(tags: seq<string>, prev: Span, rest: seq<Span>): Result<seq<string>, Exception>
    decreases |rest|, 2
  {
    if |rest| == 0 then Success(tags)
    else IobAfterTokens(StampEach(tags, rest[0].tokens, IobTag(Inside, rest[0].spanType)), prev, rest[0], rest[1..])
  }

  /** One turn of `write_iob_tags`' loop, at span `k` of the sorted list. */
  lemma IobRestUnfold(tags: seq<string>, prev: Span, sorted: seq<Span>, k: nat)
    requires k < |sorted|
    ensures IobStampRest(tags, prev, sorted[k..]) ==
      IobAfterTokens(StampEach(tags, sorted[k].tokens, IobTag(Inside, sorted[k].spanType)), prev, sorted[k], sorted[k + 1..])
  {
    assert sorted[k..][1..] == sorted[k + 1..];
  }

  function IobAfterFirst(r: Result<seq<string>, Exception>, first: Span, rest: seq<Span>): Result<seq<string>, Exception> {
    match r
    case Failure(e) => Failure(e)
    case Success(t) => IobStampRest(t, first, rest)
  }

  /** `write_iob_tags` as written: `spans[0]` fails with IndexError on an empty list. */
  function WriteIobTagsAsWritten(spans: seq<Span>, length: Option<nat>): (r: Result<seq<string>, Exception>)
    ensures length.Some? && |spans| == 0 ==> r == Failure(IndexError)
    ensures length.None? && |spans| == 0 ==> r.Failure? && r.error.ValueError?
  {
    var sorted := SortSpans(spans);
    MaxEndPermutation(spans, sorted);
    match MakeBlanks(sorted, length, Outside)
    case Failure(e) => Failure(e)
    case Success(blank) =>
      if |sorted| == 0 then Failure(IndexError)
      else IobAfterFirst(StampEach(blank, sorted[0].tokens, IobTag(Inside, sorted[0].spanType)), sorted[0], sorted[1..])
  }

  /** `write_iob_tags` with the empty list writing only blanks, as every other writer does. */
  function WriteIobTags(spans: seq<Span>, length: Option<nat>): (r: Result<seq<string>, Exception>)
    ensures length.Some? && |spans| == 0 ==> r == Success(seq(length.value, _ => Outside))
    ensures length.None? && |spans| == 0 ==> r.Failure? && r.error.ValueError?
    ensures |spans| > 0 ==> r == WriteIobTagsAsWritten(spans, length)
  {
    if |spans| == 0 && length.Some? then MakeBlanks(spans, length, Outside) else WriteIobTagsAsWritten(spans, length)
  }

  /** The as-written IOB writer rejects an empty span list even when given a length. */
  lemma WriteIobEmptyFails()
    ensures WriteIobTagsAsWritten([], Some(1)) == Failure(IndexError)
    ensures WriteIobTags([], Some(1)) == Success([Outside])
  {
    assert seq(1, _ => Outside) == [Outside];
  }

  /** One turn of `write_iob_tags`' loop, in place: span `k` becomes `I-`, with `B-` at its start where it continues span `k-1`. */
  method IobMarkSpan(tags: array<string>, sorted: seq<Span>, k: nat) returns (ok: bool)
    requires 0 < k < |sorted|
    modifies tags
    ensures IobStampRest(old(tags[..]), sorted[k - 1], sorted[k..]) ==
      if ok then IobStampRest(tags[..], sorted[k], sorted[k + 1..]) else Failure(IndexError)
  {
    var prev, span := sorted[k - 1], sorted[k];
    IobRestUnfold(tags[..], prev, sorted, k);
    ok := StampTokens(tags, span.tokens, IobTag(Inside, span.spanType));
    if !ok {
      return;
    }
    ghost var stamped := tags[..];
    if prev.end == span.start && prev.spanType == span.spanType {
      if span.start >= tags.Length {
        return false;
      }
      tags[span.start] := IobTag(Begin, span.spanType);
      assert tags[..] == stamped[span.start := IobTag(Begin, span.spanType)];
    }
  }

  /** `write_iob_tags`: sort, blank, mark the first span `I-`, then each later span `I-` with a `B-` where it continues. */
  method WriteIobTagsLoop(spans: seq<Span>, length: Option<nat>) returns (r: Result<seq<string>, Exception>)
    ensures r == WriteIobTagsAsWritten(spans, length)
  {
    var sorted := SortSpans(spans);
    var blanks := MakeBlanks(sorted, length, Outside);
    if blanks.Failure? {
      return Failure(blanks.error);
    }
    if |sorted| == 0 {
      return Failure(IndexError);
    }
    var n := |blanks.value|;
    var tags := new string[n](_ => Outside);
    assert tags[..] == blanks.value;
    ghost var goal := IobAfterFirst(StampEach(blanks.value, sorted[0].tokens, IobTag(Inside, sorted[0].spanType)), sorted[0], sorted[1..]);
    assert goal == WriteIobTagsAsWritten(spans, length);
    var ok := StampTokens(tags, sorted[0].tokens, IobTag(Inside, sorted[0].spanType));
    if !ok {
      return Failure(IndexError);
    }
    assert goal == IobStampRest(tags[..], sorted[0], sorted[1..]);
    ok := IobMarkRest(tags, sorted);
    if !ok {
      return Failure(IndexError);
    }
    return Success(tags[..]);
  }

  /** The loop of `write_iob_tags` over every span after the first. */
  method IobMarkRest(tags: array<string>, sorted: seq<Span>) returns (ok: bool)
    requires |sorted| > 0
    modifies tags
    ensures IobStampRest(old(tags[..]), sorted[0], sorted[1..]) == if ok then Success(tags[..]) else Failure(IndexError)
  {
    ghost var goal := IobStampRest(tags[..], sorted[0], sorted[1..]);
    var k := 1;
    while k < |sorted|
      invariant 1 <= k <= |sorted|
      invariant goal == IobStampRest(tags[..], sorted[k - 1], sorted[k..])
    {
      ok := IobMarkSpan(tags, sorted, k);
      if !ok {
        return false;
      }
      k := k + 1;
    }
    assert sorted[k..] == [];
    return true;
  }

  /** Marking span `q` over the IOB encoding of the spans before it encodes one span more. */
  lemma IobSpanExtends(spans: seq<Span>, n: nat, q: nat)
    requires WellFormed(spans, n) && q < |spans|
    ensures var s := spans[q];
      var filled := Fill(EncodeIob(spans[..q], n), s.tokens, IobTag(Inside, s.spanType));
      (if Continues(spans, q) then filled[s.start := IobTag(Begin, s.spanType)] else filled)
      == EncodeIob(spans[..q + 1], n)
  {
    var s, want := spans[q], EncodeIob(spans[..q + 1], n);
    var filled := Fill(EncodeIob(spans[..q], n), s.tokens, IobTag(Inside, s.spanType));
    var marked := if Continues(spans, q) then filled[s.start := IobTag(Begin, s.spanType)] else filled;
    forall j | 0 <= j < n ensures marked[j] == want[j] {
      FillRange(EncodeIob(spans[..q], n), s.start, s.end, IobTag(Inside, s.spanType), j);
      IobTagAtExtend(spans, n, q, j);
    }
  }

  lemma {:induction false} IobStampRestExtends(spans: seq<Span>, n: nat, q: nat)
    requires WellFormed(spans, n) && 0 < q <= |spans|
    ensures IobStampRest(EncodeIob(spans[..q], n), spans[q - 1], spans[q..]) == Success(EncodeIob(spans, n))
    decreases |spans| - q
  {
    if q == |spans| {
      assert spans[..q] == spans;
    } else {
      var s := spans[q];
      IobSpanExtends(spans, n, q);
      var filled := Fill(EncodeIob(spans[..q], n), s.tokens, IobTag(Inside, s.spanType));
      assert StampEach(EncodeIob(spans[..q], n), s.tokens, IobTag(Inside, s.spanType)) == Success(filled);
      assert spans[q..][1..] == spans[q + 1..];
      assert IobStampRest(EncodeIob(spans[..q], n), spans[q - 1], spans[q..])
          == IobContinue(filled, spans[q - 1], s, spans[q + 1..]);
      IobStampRestExtends(spans, n, q + 1);
    }
  }

  lemma IobStampSorted(spans: seq<Span>, n: nat)
    requires WellFormed(spans, n) && |spans| > 0
    ensures IobAfterFirst(StampEach(seq(n, _ => Outside), spans[0].tokens, IobTag(Inside, spans[0].spanType)), spans[0], spans[1..])
      == Success(EncodeIob(spans, n))
  {
    EncodeNothing(Format.BioFormat, n);
    assert spans[..0] == [];
    IobSpanExtends(spans, n, 0);
    IobStampRestExtends(spans, n, 1);
  }

  /**
   * `write_iob_tags` (with the empty list allowed) on any ordering of a
   * well-formed span list writes the reference IOB encoding.
   */
  lemma IobWriterMatchesLayout(shuffled: seq<Span>, spans: seq<Span>, n: nat)
    requires WellFormed(spans, n) && multiset(shuffled) == multiset(spans)
    ensures WriteIobTags(shuffled, Some(n)) == Success(EncodeIob(spans, n))
    ensures |spans| > 0 ==> WriteIobTags(shuffled, None) == Success(EncodeIob(spans, spans[|spans| - 1].end))
  {
    SortRestores(shuffled, spans, n);
    MaxEndPermutation(shuffled, spans);
    if |spans| > 0 {
      IobStampSorted(spans, n);
      MaxEndIsLast(spans, n);
      IobStampSorted(spans, MaxEnd(spans));
    } else {
      EncodeNothing(Format.BioFormat, n);
    }
  }
}
