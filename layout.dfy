/**
 * Reference encodings: the tag each position of a well-formed span list
 * receives under each scheme, defined position by position. The writers,
 * the test encoders and the parsers are all proved against these.
 */
module Layout {
  import opened Iobes
  import opened TagUtils
  import opened Spans
  import opened Format

  /** The function code a non-contextual scheme writes at position `j` of span `s`. */
  function RoleCode(fmt: SpanFormat, s: Span, j: int): string {
    if |s.tokens| == 1 then fmt.single
    else if j == s.start then fmt.begin
    else if j == s.end - 1 then fmt.end
    else fmt.inside
  }

  function TagAt(fmt: SpanFormat, spans: seq<Span>, j: nat): string {
    var p := Closed(spans, j);
    if p < |spans| && spans[p].start <= j then MakeTag(RoleCode(fmt, spans[p], j), spans[p].spanType, Sep)
    else Outside
  }

  /** The length-`n` tag sequence a non-contextual scheme gives `spans`. */
  function Encode(fmt: SpanFormat, spans: seq<Span>, n: nat): (r: seq<string>)
    ensures |r| == n
  {
    seq(n, j requires 0 <= j < n => TagAt(fmt, spans, j))
  }

  /** IOB's context rule: span `p` touches a preceding span of its own type. */
  predicate Continues(spans: seq<Span>, p: nat)
    requires p < |spans|
  {
    p > 0 && spans[p - 1].end == spans[p].start && spans[p - 1].spanType == spans[p].spanType
  }

  function IobTagAt(spans: seq<Span>, j: nat): string {
    var p := Closed(spans, j);
    if p < |spans| && spans[p].start <= j then
      MakeTag(if j == spans[p].start && Continues(spans, p) then Begin else Inside, spans[p].spanType, Sep)
    else Outside
  }

  /** The length-`n` IOB tag sequence of `spans`. */
  function EncodeIob(spans: seq<Span>, n: nat): (r: seq<string>)
    ensures |r| == n
  {
    seq(n, j requires 0 <= j < n => IobTagAt(spans, j))
  }

  /** `tags` with every position in `idxs` overwritten by `tag`, in order. */
  function Fill(tags: seq<string>, idxs: seq<nat>, tag: string): (r: seq<string>)
    requires forall i :: 0 <= i < |idxs| ==> idxs[i] < |tags|
    ensures |r| == |tags|
    decreases |idxs|
  {
    if |idxs| == 0 then tags else Fill(tags[idxs[0] := tag], idxs[1..], tag)
  }

  lemma {:induction false} FillAt(tags: seq<string>, idxs: seq<nat>, tag: string, j: nat)
    requires forall i :: 0 <= i < |idxs| ==> idxs[i] < |tags|
    requires j < |tags|
    ensures Fill(tags, idxs, tag)[j] == if j in idxs then tag else tags[j]
    decreases |idxs|
  {
    if |idxs| > 0 {
      FillAt(tags[idxs[0] := tag], idxs[1..], tag, j);
      assert j in idxs <==> j == idxs[0] || j in idxs[1..];
    }
  }

  /** Filling the positions start .. end-1 of a well-formed span. */
  lemma FillRange(tags: seq<string>, a: nat, b: nat, tag: string, j: nat)
    requires a <= b <= |tags| && j < |tags|
    ensures Fill(tags, Range(a, b), tag)[j] == if a <= j < b then tag else tags[j]
  {
    FillAt(tags, Range(a, b), tag, j);
    if a <= j < b {
      assert Range(a, b)[j - a] == j;
    }
  }

  /** Inside a span, the reference encoding writes that span's role tag. */
  lemma EncodeCovered(fmt: SpanFormat, spans: seq<Span>, n: nat, q: nat, j: nat)
    requires WellFormed(spans, n) && q < |spans| && Covers(spans[q], j)
    ensures j < n
    ensures Encode(fmt, spans, n)[j] == MakeTag(RoleCode(fmt, spans[q], j), spans[q].spanType, Sep)
  {
    CoverIsClosed(spans, n, q, j);
  }

  /** Outside every span, the reference encoding writes `O`. */
  lemma TagAtGap(fmt: SpanFormat, spans: seq<Span>, j: nat)
    requires forall q :: 0 <= q < |spans| ==> !Covers(spans[q], j)
    ensures TagAt(fmt, spans, j) == Outside
    ensures IobTagAt(spans, j) == Outside
  {
    var p := Closed(spans, j);
    if p < |spans| {
      assert !Covers(spans[p], j);
    }
  }

  /** Exactly the uncovered positions are `O`. */
  lemma EncodeOutsideIff(fmt: SpanFormat, spans: seq<Span>, n: nat, j: nat)
    requires WellFormed(spans, n) && CodeFormat(fmt) && j < n
    ensures Encode(fmt, spans, n)[j] == Outside <==> forall q :: 0 <= q < |spans| ==> !Covers(spans[q], j)
    ensures EncodeIob(spans, n)[j] == Outside <==> forall q :: 0 <= q < |spans| ==> !Covers(spans[q], j)
  {
    if exists q :: 0 <= q < |spans| && Covers(spans[q], j) {
      var q :| 0 <= q < |spans| && Covers(spans[q], j);
      CoverIsClosed(spans, n, q, j);
    } else {
      TagAtGap(fmt, spans, j);
    }
  }

  /** Inside a span, IOB writes `B-` exactly at a start that continues a touching span of the same type. */
  lemma EncodeIobCovered(spans: seq<Span>, n: nat, q: nat, j: nat)
    requires WellFormed(spans, n) && q < |spans| && Covers(spans[q], j)
    ensures j < n
    ensures EncodeIob(spans, n)[j] ==
      MakeTag(if j == spans[q].start && Continues(spans, q) then Begin else Inside, spans[q].spanType, Sep)
  {
    CoverIsClosed(spans, n, q, j);
  }

  /**
   * Adding span `q` to the first `q` spans: a position it covers has `q` as
   * its first open span; any other position has the same first open span as
   * before, and whether that span reaches back to it is unchanged.
   */
  lemma ClosedExtend(spans: seq<Span>, n: nat, q: nat, j: nat)
    requires WellFormed(spans, n) && q < |spans|
    ensures Covers(spans[q], j) ==> Closed(spans[..q + 1], j) == q
    ensures !Covers(spans[q], j) ==>
      var p, p' := Closed(spans[..q + 1], j), Closed(spans[..q], j);
      && (p < q + 1 && spans[..q + 1][p].start <= j <==> p' < q && spans[..q][p'].start <= j)
      && (p < q + 1 && spans[..q + 1][p].start <= j ==> p == p' && spans[..q + 1][p] == spans[..q][p'])
  {
    var longer, shorter := spans[..q + 1], spans[..q];
    WellFormedPrefix(spans, n, q + 1);
    WellFormedPrefix(spans, n, q);
    if Covers(spans[q], j) {
      CoverIsClosed(longer, n, q, j);
    } else if i :| 0 <= i < q && Covers(spans[i], j) {
      CoverIsClosed(longer, n, i, j);
      CoverIsClosed(shorter, n, i, j);
    } else {
      UncoveredIsGap(longer, n, j);
      UncoveredIsGap(shorter, n, j);
    }
  }

  /** Adding span `q` to the first `q` spans changes exactly the positions it covers. */
  lemma TagAtExtend(fmt: SpanFormat, spans: seq<Span>, n: nat, q: nat, j: nat)
    requires WellFormed(spans, n) && q < |spans|
    ensures TagAt(fmt, spans[..q + 1], j) ==
      if Covers(spans[q], j) then MakeTag(RoleCode(fmt, spans[q], j), spans[q].spanType, Sep)
      else TagAt(fmt, spans[..q], j)
  {
    ClosedExtend(spans, n, q, j);
  }

  /** The same for IOB, whose first tag also depends on the span before. */
  lemma IobTagAtExtend(spans: seq<Span>, n: nat, q: nat, j: nat)
    requires WellFormed(spans, n) && q < |spans|
    ensures IobTagAt(spans[..q + 1], j) ==
      if Covers(spans[q], j) then
        MakeTag(if j == spans[q].start && Continues(spans, q) then Begin else Inside, spans[q].spanType, Sep)
      else IobTagAt(spans[..q], j)
  {
    ClosedExtend(spans, n, q, j);
    var p := Closed(spans[..q + 1], j);
    if p < q + 1 && spans[..q + 1][p].start <= j {
      assert p > 0 ==> spans[..q + 1][p - 1] == spans[p - 1];
      assert p < q ==> spans[..q][p] == spans[p] && (p > 0 ==> spans[..q][p - 1] == spans[p - 1]);
    }
  }
}
