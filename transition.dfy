/**
 * Legal tag-to-tag transitions for constrained decoding (iobes/transition.py).
 * For a vocabulary of tags plus a start and an end sentinel, each scheme's
 * grid lists every (source, target) pair of `tokens ++ [start, end]` in
 * source-major order with a flag saying whether a tag sequence of that
 * scheme may contain the target right after the source.
 */
module Transitions {
  import opened Iobes
  import opened TagUtils
  import opened Spans
  import opened Format
  import opened Layout
  import opened Rename

  /** `Transition`: a source tag, a target tag and whether the step is legal. */
  datatype Transition = Transition(source: string, target: string, valid: bool)

  /** The three rule sets the source writes out; BILOU and BMEWO reuse the IOBES one. */
  datatype Rules = IobRules | BioRules | IobesRules

  function Func(tag: string): string { ExtractFunction(tag, Sep) }

  function Type(tag: string): string { ExtractType(tag, Sep) }

  // ------------------------------------------------------------- the per-pair rules

  /** `iob_transitions`' if/elif chain for one pair: B needs a preceding span of the same type. */
  predicate IobAllowed(src: string, tgt: string, start: string, end: string) {
    if tgt == start then false
    else if src == end then false
    else if src == start then Func(tgt) != Begin
    else if Func(src) == Begin then Func(tgt) != Begin || Type(src) == Type(tgt)
    else if Func(src) == Inside then Func(tgt) != Begin || Type(src) == Type(tgt)
    else if Func(src) == Outside then Func(tgt) != Begin
    else true
  }

  /** `bio_transitions`: I continues a span of the same type and never starts one. */
  predicate BioAllowed(src: string, tgt: string, start: string, end: string) {
    if tgt == start then false
    else if src == end then false
    else if src == start then Func(tgt) != Inside
    else if Func(src) == Begin then Func(tgt) != Inside || Type(src) == Type(tgt)
    else if Func(src) == Inside then Func(tgt) != Inside || Type(src) == Type(tgt)
    else if Func(src) == Outside then Func(tgt) != Inside
    else true
  }

  /**
   * `iobes_transitions`: after B or I only I or E of the same type may follow;
   * after start, E, S or O neither I nor E may. `beginMeetsEnd` is the test
   * the B branch makes for the end sentinel (iobes/transition.py:126).
   */
  predicate IobesRule(src: string, tgt: string, start: string, end: string, beginMeetsEnd: bool) {
    var closes := Func(tgt) == Inside || Func(tgt) == End;
    var opens := Func(tgt) == Begin || Func(tgt) == Single || Func(tgt) == Outside;
    if tgt == start then false
    else if src == end then false
    else if src == start then !closes
    else if Func(src) == Begin then
      if opens || beginMeetsEnd then false
      else if closes then Type(src) == Type(tgt)
      else true
    else if Func(src) == Inside then
      if opens || tgt == end then false
      else if closes then Type(src) == Type(tgt)
      else true
    else if Func(src) == End || Func(src) == Single || Func(src) == Outside then !closes
    else true
  }

  /** The B branch as written: it compares the target's function, not the target, with the end sentinel. */
  predicate IobesAllowedAsWritten(src: string, tgt: string, start: string, end: string) {
    IobesRule(src, tgt, start, end, Func(tgt) == end)
  }

  /** The B branch tested like the I branch, by the target itself. */
  predicate IobesAllowed(src: string, tgt: string, start: string, end: string) {
    IobesRule(src, tgt, start, end, tgt == end)
  }

  predicate Allowed(rules: Rules, src: string, tgt: string, start: string, end: string) {
    match rules
    case IobRules => IobAllowed(src, tgt, start, end)
    case BioRules => BioAllowed(src, tgt, start, end)
    case IobesRules => IobesAllowed(src, tgt, start, end)
  }

  // ------------------------------------------------------------- the grid

  /** `chain(tokens, [start, end])`. */
  function Vocabulary(tokens: seq<string>, start: string, end: string): seq<string> {
    tokens + [start, end]
  }

  /** The grid entry for one pair. */
  function Entry(rules: Rules, src: string, tgt: string, start: string, end: string): Transition {
    Transition(src, tgt, Allowed(rules, src, tgt, start, end))
  }

  /** The transitions out of one source, in target order. */
  function Row(rules: Rules, src: string, tgts: seq<string>, start: string, end: string): (r: seq<Transition>)
    ensures |r| == |tgts|
    ensures forall b :: 0 <= b < |tgts| ==> r[b] == Entry(rules, src, tgts[b], start, end)
  {
    if |tgts| == 0 then []
    else Row(rules, src, tgts[..|tgts| - 1], start, end) + [Entry(rules, src, tgts[|tgts| - 1], start, end)]
  }

  /** One row per source, in source order. */
  function Grid(rules: Rules, srcs: seq<string>, tgts: seq<string>, start: string, end: string): (r: seq<Transition>)
    ensures |r| == |srcs| * |tgts|
  {
    if |srcs| == 0 then []
    else
      var k := |srcs| - 1;
      MulSucc(k, |tgts|);
      Grid(rules, srcs[..k], tgts, start, end) + Row(rules, srcs[k], tgts, start, end)
  }

  lemma MulSucc(k: nat, m: nat)
    ensures (k + 1) * m == k * m + m
  {
  }

  lemma RowBefore(a: nat, b: nat, k: nat, m: nat)
    requires a < k && b < m
    ensures 0 <= a * m + b < k * m
  {
    assert (a + 1) * m <= k * m;
  }

  /** Entry `a * |tgts| + b` of the grid is the pair (srcs[a], tgts[b]). */
  lemma {:induction false} GridIndex(rules: Rules, srcs: seq<string>, tgts: seq<string>, start: string, end: string, a: nat, b: nat)
    requires a < |srcs| && b < |tgts|
    ensures a * |tgts| + b < |Grid(rules, srcs, tgts, start, end)|
    ensures Grid(rules, srcs, tgts, start, end)[a * |tgts| + b] == Entry(rules, srcs[a], tgts[b], start, end)
    decreases |srcs|
  {
    var k, m := |srcs| - 1, |tgts|;
    var grid := Grid(rules, srcs, tgts, start, end);
    var before, row := Grid(rules, srcs[..k], tgts, start, end), Row(rules, srcs[k], tgts, start, end);
    MulSucc(k, m);
    assert grid == before + row;
    var i := a * m + b;
    if a < k {
      RowBefore(a, b, k, m);
      assert 0 <= i < |before|;
      GridIndex(rules, srcs[..k], tgts, start, end, a, b);
      assert grid[i] == before[i];
      assert srcs[..k][a] == srcs[a];
    } else {
      assert a == k;
      assert i == |before| + b;
      assert grid[i] == row[b];
    }
  }

  /** Every entry of the grid is the pair it names, flagged by the rules. */
  lemma {:induction false} GridEntries(rules: Rules, srcs: seq<string>, tgts: seq<string>, start: string, end: string)
    ensures forall t :: t in Grid(rules, srcs, tgts, start, end) ==>
      t.source in srcs && t.target in tgts && t.valid == Allowed(rules, t.source, t.target, start, end)
    decreases |srcs|
  {
    if |srcs| > 0 {
      var k := |srcs| - 1;
      GridEntries(rules, srcs[..k], tgts, start, end);
      RowEntries(rules, srcs[k], tgts, start, end);
      assert Grid(rules, srcs, tgts, start, end) == Grid(rules, srcs[..k], tgts, start, end) + Row(rules, srcs[k], tgts, start, end);
      assert forall s :: s in srcs[..k] ==> s in srcs;
    }
  }

  lemma RowEntries(rules: Rules, src: string, tgts: seq<string>, start: string, end: string)
    ensures forall t :: t in Row(rules, src, tgts, start, end) ==>
      t.source == src && t.target in tgts && t.valid == Allowed(rules, t.source, t.target, start, end)
  {
    var row := Row(rules, src, tgts, start, end);
    forall t | t in row
      ensures t.source == src && t.target in tgts && t.valid == Allowed(rules, t.source, t.target, start, end)
    {
      var b :| 0 <= b < |row| && row[b] == t;
      assert t == Entry(rules, src, tgts[b], start, end);
    }
  }

  // ------------------------------------------------------------- building the grids

  /** The inner loop: append the transitions out of `src` to every tag of the vocabulary. */
  method AppendRow(ts: seq<Transition>, rules: Rules, src: string, v: seq<string>, start: string, end: string)
    returns (r: seq<Transition>)
    ensures r == ts + Row(rules, src, v, start, end)
  {
    r := ts;
    var b := 0;
    while b < |v|
      invariant 0 <= b <= |v|
      invariant r == ts + Row(rules, src, v[..b], start, end)
    {
      r := r + [Entry(rules, src, v[b], start, end)];
      assert v[..b + 1][..b] == v[..b];
      b := b + 1;
    }
    assert v[..b] == v;
  }

  /** One more source row, as the outer loop adds it. */
  lemma GridStep(rules: Rules, v: seq<string>, a: nat, start: string, end: string)
    requires a < |v|
    ensures Grid(rules, v[..a + 1], v, start, end) == Grid(rules, v[..a], v, start, end) + Row(rules, v[a], v, start, end)
  {
    assert v[..a + 1][..a] == v[..a];
  }

  /** The nested loops of `iob_transitions`, `bio_transitions` and `iobes_transitions`, over one rule set. */
  method BuildGrid(rules: Rules, tokens: seq<string>, start: string, end: string) returns (ts: seq<Transition>)
    ensures ts == Grid(rules, Vocabulary(tokens, start, end), Vocabulary(tokens, start, end), start, end)
  {
    var v := Vocabulary(tokens, start, end);
    ts := [];
    var a := 0;
    while a < |v|
      invariant 0 <= a <= |v|
      invariant ts == Grid(rules, v[..a], v, start, end)
    {
      ts := AppendRow(ts, rules, v[a], v, start, end);
      GridStep(rules, v, a, start, end);
      a := a + 1;
    }
    assert v[..a] == v;
  }

  method IobTransitions(tokens: seq<string>, start: string, end: string) returns (ts: seq<Transition>)
    ensures ts == Grid(IobRules, Vocabulary(tokens, start, end), Vocabulary(tokens, start, end), start, end)
  {
    ts := BuildGrid(IobRules, tokens, start, end);
  }

  method BioTransitions(tokens: seq<string>, start: string, end: string) returns (ts: seq<Transition>)
    ensures ts == Grid(BioRules, Vocabulary(tokens, start, end), Vocabulary(tokens, start, end), start, end)
  {
    ts := BuildGrid(BioRules, tokens, start, end);
  }

  method IobesTransitions(tokens: seq<string>, start: string, end: string) returns (ts: seq<Transition>)
    ensures ts == Grid(IobesRules, Vocabulary(tokens, start, end), Vocabulary(tokens, start, end), start, end)
  {
    ts := BuildGrid(IobesRules, tokens, start, end);
  }

  /** Both ends of a transition renamed; the flag is kept. */
  function RenameTransition(t: Transition, f: string -> string): Transition {
    Transition(f(t.source), f(t.target), t.valid)
  }

  /** The `new_trans` loop of `bilou_transitions` and `bmeow_transitions`. */
  method RenameTransitions(ts: seq<Transition>, f: string -> string) returns (r: seq<Transition>)
    ensures |r| == |ts|
    ensures forall i :: 0 <= i < |ts| ==> r[i] == RenameTransition(ts[i], f)
  {
    r := [];
    for i := 0 to |ts|
      invariant |r| == i
      invariant forall k :: 0 <= k < i ==> r[k] == RenameTransition(ts[k], f)
    {
      r := r + [RenameTransition(ts[i], f)];
    }
  }

  /** The IOBES grid of the vocabulary renamed into IOBES. */
  function RenamedGrid(tokens: seq<string>, start: string, end: string, toIobes: string -> string): seq<Transition> {
    var v := Vocabulary(MapTokens(tokens, toIobes), start, end);
    Grid(IobesRules, v, v, start, end)
  }

  /** `bilou_transitions`: the IOBES grid of the vocabulary read as IOBES, with both ends renamed back. */
  method BilouTransitions(tokens: seq<string>, start: string, end: string) returns (ts: seq<Transition>)
    ensures |ts| == |RenamedGrid(tokens, start, end, BilouToIobesToken)|
    ensures forall i :: 0 <= i < |ts| ==>
      ts[i] == RenameTransition(RenamedGrid(tokens, start, end, BilouToIobesToken)[i], IobesToBilouToken)
  {
    var iobes := IobesTransitions(MapTokens(tokens, BilouToIobesToken), start, end);
    ts := RenameTransitions(iobes, IobesToBilouToken);
  }

  /** `bmeow_transitions` (alias `bmewo_transitions`): the same through the M/W renaming. */
  method BmeowTransitions(tokens: seq<string>, start: string, end: string) returns (ts: seq<Transition>)
    ensures |ts| == |RenamedGrid(tokens, start, end, BmeowToIobesToken)|
    ensures forall i :: 0 <= i < |ts| ==>
      ts[i] == RenameTransition(RenamedGrid(tokens, start, end, BmeowToIobesToken)[i], IobesToBmeowToken)
  {
    var iobes := IobesTransitions(MapTokens(tokens, BmeowToIobesToken), start, end);
    ts := RenameTransitions(iobes, IobesToBmeowToken);
  }
}
