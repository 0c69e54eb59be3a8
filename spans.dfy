/**
 * Span lists of the shape the test generator `generate_spans` builds
 * (tests/utils.py): sorted, non-empty spans whose tokens are exactly
 * [start, end), separated by gaps of zero or more tokens, all ending by the
 * returned length.
 */
module Spans {
  import opened Iobes

  function Range(a: nat, b: nat): (r: seq<nat>)
    requires a <= b
    ensures |r| == b - a
    ensures forall i :: 0 <= i < |r| ==> r[i] == a + i
  {
    seq(b - a, i requires 0 <= i < b - a => a + i)
  }

  lemma RangeSnoc(a: nat, b: nat)
    requires a <= b
    ensures Range(a, b) + [b] == Range(a, b + 1)
  {
  }

  lemma RangeUnit(a: nat)
    ensures Range(a, a + 1) == [a]
  {
  }

  /** Non-empty, with tokens exactly the positions start .. end-1. */
  predicate Shaped(s: Span) {
    s.start < s.end && s.tokens == Range(s.start, s.end)
  }

  /** The output shape of `generate_spans` together with its length `n`. */
  predicate WellFormed(spans: seq<Span>, n: nat) {
    && (forall k :: 0 <= k < |spans| ==> Shaped(spans[k]) && spans[k].end <= n)
    && (forall k :: 0 < k < |spans| ==> spans[k - 1].end <= spans[k].start)
  }

  /** No span has the type `O`, which IOB and BIO tags cannot express. */
  predicate Typed(spans: seq<Span>) {
    forall k :: 0 <= k < |spans| ==> spans[k].spanType != Outside
  }

  /** Any earlier span ends no later than any later span starts. */
  lemma {:induction false} WellFormedOrdered(spans: seq<Span>, n: nat, i: nat, j: nat)
    requires WellFormed(spans, n) && i < j < |spans|
    ensures spans[i].end <= spans[j].start
    decreases j - i
  {
    if i + 1 < j {
      WellFormedOrdered(spans, n, i, j - 1);
    }
  }

  /** Starts strictly increase (so no two spans share a start). */
  lemma WellFormedStartsIncrease(spans: seq<Span>, n: nat, i: nat, j: nat)
    requires WellFormed(spans, n) && i < j < |spans|
    ensures spans[i].start < spans[j].start
  {
    WellFormedOrdered(spans, n, i, j);
  }

  lemma WellFormedPrefix(spans: seq<Span>, n: nat, q: nat)
    requires WellFormed(spans, n) && q <= |spans|
    ensures WellFormed(spans[..q], n)
  {
  }

  /** The number of leading spans that end at or before position `j`. */
  function Closed(spans: seq<Span>, j: int): (p: nat)
    ensures p <= |spans|
    ensures forall i :: 0 <= i < p ==> spans[i].end <= j
    ensures p < |spans| ==> spans[p].end > j
    decreases |spans|
  {
    if |spans| == 0 || spans[0].end > j then 0 else 1 + Closed(spans[1..], j)
  }

  /** The two facts in Closed's contract determine it. */
  lemma ClosedAt(spans: seq<Span>, j: int, p: nat)
    requires p <= |spans|
    requires forall i :: 0 <= i < p ==> spans[i].end <= j
    requires p == |spans| || spans[p].end > j
    ensures Closed(spans, j) == p
  {
  }

  /** Position `j` lies in span `q`. */
  predicate Covers(s: Span, j: int) {
    s.start <= j < s.end
  }

  /** In a well-formed list, the span covering `j` is the first one not closed at `j`. */
  lemma CoverIsClosed(spans: seq<Span>, n: nat, q: nat, j: int)
    requires WellFormed(spans, n) && q < |spans| && Covers(spans[q], j)
    ensures Closed(spans, j) == q
  {
    forall i | 0 <= i < q ensures spans[i].end <= j {
      WellFormedOrdered(spans, n, i, q);
    }
    ClosedAt(spans, j, q);
  }

  /** If the first span not closed at `j` does not reach back to `j`, nothing covers `j`. */
  lemma UncoveredIsGap(spans: seq<Span>, n: nat, j: int)
    requires WellFormed(spans, n)
    requires var p := Closed(spans, j); !(p < |spans| && spans[p].start <= j)
    ensures forall q :: 0 <= q < |spans| ==> !Covers(spans[q], j)
  {
    var p := Closed(spans, j);
    forall q | 0 <= q < |spans| ensures !Covers(spans[q], j) {
      if p < q {
        WellFormedOrdered(spans, n, p, q);
      }
    }
  }
}
