/** Simulating a cycle of swaps on the speculative reserves and searching for its most profitable input. */
module Solver {
  import opened Arith
  import opened Amm
  import opened Wrappers
  import opened Shadow
  import opened Graph
  import opened Ternary

  /** A cycle's hops over given pool rows. */
  datatype Hops = Hops(pools: seq<Pool>, indices: seq<nat>, directions: seq<bool>)
  {
    ghost predicate Ok()
    {
      |indices| == |directions| && forall k :: 0 <= k < |indices| ==> HopFits(k)
    }

    ghost predicate HopFits(k: nat)
      requires k < |indices|
    {
      indices[k] < |pools| && FeeOk(pools[indices[k]])
    }

    function Pool(k: nat): Shadow.Pool
      requires Ok() && k < |indices|
      ensures FeeOk(Pool(k))
    {
      assert HopFits(k);
      pools[indices[k]]
    }

    /** The amount in hand after k hops starting from a, every hop on the reserves as they stand. */
    function Amount(a: nat, k: nat): nat
      requires Ok() && k <= |indices|
    {
      if k == 0 then a else SimSwap(Pool(k - 1), Amount(a, k - 1), directions[k - 1])
    }

    /** What a whole cycle returns. */
    function Out(a: nat): nat
      requires Ok()
    {
      Amount(a, |indices|)
    }
  }

  // ── Simulation ───────────────────────────────────────────────────

  lemma SimSwapMonotone(p: Pool, a: nat, b: nat, d: bool)
    requires FeeOk(p) && a <= b
    ensures SimSwap(p, 0, d) == 0 && SimSwap(p, a, d) <= SimSwap(p, b, d)
    ensures SimSwap(p, b, d) <= if d then p.specY else p.specX
  {
    if p.specX > 0 && p.specY > 0 {
      if d { SwapMonotone(p.specX, p.specY, p.feeNum, p.feeDen, a, b); }
      else { SwapMonotone(p.specY, p.specX, p.feeNum, p.feeDen, a, b); }
    }
  }

  /** More in never means less out, over any number of hops; nothing in gives nothing out. */
  lemma {:induction false} AmountMonotone(h: Hops, a: nat, b: nat, k: nat)
    requires h.Ok() && k <= |h.indices| && a <= b
    ensures h.Amount(a, k) <= h.Amount(b, k) && h.Amount(0, k) == 0
  {
    if k > 0 {
      AmountMonotone(h, a, b, k - 1);
      SimSwapMonotone(h.Pool(k - 1), h.Amount(a, k - 1), h.Amount(b, k - 1), h.directions[k - 1]);
    }
  }

  lemma {:induction false} OnceZero(h: Hops, a: nat, j: nat, k: nat)
    requires h.Ok() && j <= k <= |h.indices| && h.Amount(a, j) == 0
    ensures h.Amount(a, k) == 0
  {
    if j < k {
      OnceZero(h, a, j, k - 1);
      SimSwapMonotone(h.Pool(k - 1), 0, 0, h.directions[k - 1]);
    }
  }

  method SimulateCycle(shadow: StateShadow, ghost s: State, cycle: ArbCycle, input: nat) returns (amount: nat)
    requires shadow.Valid() && s == shadow.View() && Hops(s.pools, cycle.poolIndices, cycle.directions).Ok()
    ensures amount == Hops(s.pools, cycle.poolIndices, cycle.directions).Out(input)
  {
    ghost var h := Hops(s.pools, cycle.poolIndices, cycle.directions);
    amount := input;
    for i := 0 to |cycle.poolIndices|
      invariant amount == h.Amount(input, i)
    {
      assert h.HopFits(i);
      amount := shadow.SimSwapAt(cycle.poolIndices[i], amount, cycle.directions[i]);
      if amount == 0 {
        OnceZero(h, input, i + 1, |cycle.poolIndices|);
        return 0;
      }
    }
  }

  // ── Executing the same hops one after the other ──────────────────

  /** k hops applied to the shadow itself, each paying in what the one before paid out. */
  ghost function Execute(s: State, indices: seq<nat>, directions: seq<bool>, a: nat, k: nat): (r: Option<(State, nat)>)
    requires k <= |indices| == |directions|
  {
    if k == 0 then Some((s, a))
    else
      var r := Execute(s, indices, directions, a, k - 1);
      if r.None? then None
      else
        var (t, b) := r.value;
        var i, d := indices[k - 1], directions[k - 1];
        if i < |t.pools| && CanSwap(t.pools[i], b, d) then Some((AfterSwap(t, i, b, d), SwapOutput(t.pools[i], b, d)))
        else None
  }

  ghost predicate Distinct(indices: seq<nat>)
  {
    forall i, j :: 0 <= i < j < |indices| ==> indices[i] != indices[j]
  }

  lemma SimIsSwap(p: Pool, a: nat, d: bool)
    requires FeeOk(p) && SimSwap(p, a, d) > 0
    ensures CanSwap(p, a, d) && SwapOutput(p, a, d) == SimSwap(p, a, d)
  {}

  /** On distinct pools, as long as something comes out, the simulation is what execution would give. */
  lemma {:induction false} SimulationIsExecution(s: State, indices: seq<nat>, directions: seq<bool>, a: nat, k: nat)
    requires Hops(s.pools, indices, directions).Ok() && Distinct(indices) && k <= |indices|
    requires Hops(s.pools, indices, directions).Amount(a, k) > 0
    ensures var r := Execute(s, indices, directions, a, k);
            && r.Some? && r.value.1 == Hops(s.pools, indices, directions).Amount(a, k)
            && |r.value.0.pools| == |s.pools|
            && forall i :: 0 <= i < |s.pools| && i !in indices[..k] ==> r.value.0.pools[i] == s.pools[i]
  {
    var h := Hops(s.pools, indices, directions);
    if k > 0 {
      if h.Amount(a, k - 1) == 0 { OnceZero(h, a, k - 1, k); }
      SimulationIsExecution(s, indices, directions, a, k - 1);
      var i := indices[k - 1];
      assert h.HopFits(k - 1);
      assert i !in indices[..k - 1];
      assert indices[..k] == indices[..k - 1] + [i];
      SimIsSwap(s.pools[i], h.Amount(a, k - 1), directions[k - 1]);
    }
  }

  // ── Profit ───────────────────────────────────────────────────────

  function Net(h: Hops, x: nat): int
    requires h.Ok()
  {
    h.Out(x) - x
  }

  /** The profit of a cycle as a function of its input. */
  function Profit(h: Hops): (f: nat -> int)
    requires h.Ok()
    ensures forall x: nat :: f(x) == Net(h, x)
  {
    (x: nat) => Net(h, x)
  }

  /** The profit, as the search sees it: a loss counts as zero. */
  function Gain(h: Hops, x: nat): nat
    requires h.Ok()
  {
    Clamp(Net(h, x))
  }

  lemma NothingGained(h: Hops)
    requires h.Ok()
    ensures h.Out(0) == 0 && Gain(h, 0) == 0 && Net(h, 0) == 0
  {
    AmountMonotone(h, 0, 0, |h.indices|);
  }

  /** A cycle's profit is strictly unimodal only if its output stops growing at the peak: integer outputs never
      fall, so each further unit put in must be a whole unit lost. */
  lemma {:induction false} UnimodalIsFlat(h: Hops, m: nat, maxInput: nat, x: nat)
    requires h.Ok() && Peak(Profit(h), 0, m, maxInput) && m <= x <= maxInput
    ensures h.Out(x) == h.Out(m)
    decreases x
  {
    if x > m {
      UnimodalIsFlat(h, m, maxInput, x - 1);
      AmountMonotone(h, x - 1, x, |h.indices|);
      assert Profit(h)(x - 1) > Profit(h)(x);
    }
  }

  /** and before the peak each unit put in brings at least two. */
  lemma UnimodalIsSteep(h: Hops, m: nat, maxInput: nat, x: nat)
    requires h.Ok() && Peak(Profit(h), 0, m, maxInput) && x < m
    ensures h.Out(x + 1) >= h.Out(x) + 2
  {
    assert Profit(h)(x) < Profit(h)(x + 1);
  }

  // ── The solver ───────────────────────────────────────────────────

  datatype ArbResult = ArbResult(cycleIdx: nat, optimalInput: nat, expectedOutput: nat, netProfit: nat,
                                 profitBps: nat, poolSequence: seq<nat>, directions: seq<bool>)

  ghost predicate CycleFits(s: State, c: ArbCycle)
  {
    Hops(s.pools, c.poolIndices, c.directions).Ok()
  }

  ghost function HopsOf(s: State, c: ArbCycle): Hops
  {
    Hops(s.pools, c.poolIndices, c.directions)
  }

  lemma Select(bit: nat, a: nat, b: nat)
    requires bit <= 1
    ensures bit * a + (1 - bit) * b == if bit == 1 then a else b
  {}

  datatype SimdSolver = SimdSolver(minProfit: nat, maxInput: nat, searchIterations: nat)
  {
    function ProbeInput(): nat
    {
      if maxInput / 1000 < 100 then 100 else maxInput / 1000
    }

    method BinarySearchOptimal(shadow: StateShadow, ghost s: State, cycle: ArbCycle) returns (bestInput: nat, bestOutput: nat)
      requires shadow.Valid() && s == shadow.View() && CycleFits(s, cycle) && maxInput >= 1
      ensures bestInput == Search(Profit(HopsOf(s, cycle)), Whole(maxInput), searchIterations).bestInput
      ensures bestOutput == HopsOf(s, cycle).Out(bestInput)
    {
      hide Search, Narrow, Tracks, Profit, Better, Clamp, Hops.Amount, Hops.Out, Gain, Net;
      ghost var h := HopsOf(s, cycle);
      FitsMeansOk(s, cycle);
      ghost var f := Profit(h);
      var lo: nat, hi: nat, bestProfit: nat := 1, maxInput, 0;
      bestInput := 0;
      WholeTracks(f, maxInput);
      ghost var left: nat := searchIterations;
      for i := 0 to searchIterations
        invariant left == searchIterations - i
        invariant Tracks(f, Bracket(lo, hi, bestInput, bestProfit), maxInput)
        invariant Search(f, Bracket(lo, hi, bestInput, bestProfit), left) == Search(f, Whole(maxInput), searchIterations)
      {
        ghost var b := Bracket(lo, hi, bestInput, bestProfit);
        InRange(f, b, maxInput);
        SearchUnfolds(f, b, left);
        if hi - lo < 3 { break; }
        NarrowTracks(f, b, maxInput);
        var m1, m2 := lo + (hi - lo) / 3, hi - (hi - lo) / 3;
        var out1 := SimulateCycle(shadow, s, cycle, m1);
        var out2 := SimulateCycle(shadow, s, cycle, m2);
        NarrowIs(h, b, out1, out2);
        var p1: nat := if out1 > m1 then out1 - m1 else 0;
        var p2: nat := if out2 > m2 then out2 - m2 else 0;
        if p1 > bestProfit { bestProfit, bestInput := p1, m1; }
        if p2 > bestProfit { bestProfit, bestInput := p2, m2; }
        var p1Less := if p1 < p2 then 1 else 0;
        Select(p1Less, m1, lo);
        Select(p1Less, hi, m2);
        lo := p1Less * m1 + (1 - p1Less) * lo;
        hi := p1Less * hi + (1 - p1Less) * m2;
        left := left - 1;
      }
      InRange(f, Bracket(lo, hi, bestInput, bestProfit), maxInput);
      SearchUnfolds(f, Bracket(lo, hi, bestInput, bestProfit), left);
      bestOutput := SimulateCycle(shadow, s, cycle, bestInput);
    }

    /** What evaluating one cycle should report, in terms of the search. */
    ghost function Evaluated(s: State, cycle: ArbCycle, idx: nat): Option<ArbResult>
      requires CycleFits(s, cycle)
    {
      var h := HopsOf(s, cycle);
      var x := Search(Profit(h), Whole(maxInput), searchIterations).bestInput;
      if |cycle.path| == 0 || |cycle.poolIndices| == 0 || Gain(h, ProbeInput()) == 0 || Gain(h, x) == 0
         || Gain(h, x) < minProfit then None
      else
        assert x > 0 by { NothingGained(h); }
        Some(ArbResult(idx, x, h.Out(x), Gain(h, x), (Gain(h, x) * 10000 / x) % 0x1_0000_0000,
                       cycle.poolIndices, cycle.directions))
    }

    method EvaluateSingle(shadow: StateShadow, ghost s: State, cycle: ArbCycle, idx: nat) returns (r: Option<ArbResult>)
      requires shadow.Valid() && s == shadow.View() && CycleFits(s, cycle) && maxInput >= 1
      ensures r == Evaluated(s, cycle, idx)
    {
      hide Search;
      if |cycle.path| == 0 || |cycle.poolIndices| == 0 { return None; }
      var probeInput := ProbeInput();
      var probeOutput := SimulateCycle(shadow, s, cycle, probeInput);
      if probeOutput <= probeInput { return None; }
      var optimalInput, maxOutput := BinarySearchOptimal(shadow, s, cycle);
      if maxOutput <= optimalInput { return None; }
      var netProfit := maxOutput - optimalInput;
      if netProfit < minProfit { return None; }
      var profitBps := if optimalInput > 0 then netProfit * 10000 / optimalInput % 0x1_0000_0000 else 0;
      NothingGained(HopsOf(s, cycle));
      r := Some(ArbResult(idx, optimalInput, maxOutput, netProfit, profitBps, cycle.poolIndices, cycle.directions));
    }

    /** The results of the first k cycles, in order. */
    ghost function Collected(s: State, cycles: seq<ArbCycle>, k: nat): seq<ArbResult>
      requires k <= |cycles| && forall i :: 0 <= i < |cycles| ==> CycleFits(s, cycles[i])
    {
      if k == 0 then []
      else
        var before := Collected(s, cycles, k - 1);
        var r := Evaluated(s, cycles[k - 1], |before|);
        if r.Some? then before + [r.value] else before
    }

    method EvaluateBatch(shadow: StateShadow, ghost s: State, cycles: seq<ArbCycle>) returns (results: seq<ArbResult>)
      requires shadow.Valid() && s == shadow.View() && maxInput >= 1
      requires forall i :: 0 <= i < |cycles| ==> CycleFits(s, cycles[i])
      ensures multiset(results) == multiset(Collected(s, cycles, |cycles|)) && Descending(results)
    {
      results := [];
      for i := 0 to |cycles|
        invariant results == Collected(s, cycles, i)
      {
        hide Evaluated;
        var r := EvaluateSingle(shadow, s, cycles[i], |results|);
        if r.Some? { results := results + [r.value]; }
      }
      results := SortByProfit(results);
    }
  }

  lemma FitsMeansOk(s: State, c: ArbCycle)
    requires CycleFits(s, c)
    ensures HopsOf(s, c) == Hops(s.pools, c.poolIndices, c.directions) && HopsOf(s, c).Ok()
  {}

  /** A step of the search in terms of the two simulated outputs. */
  lemma NarrowIs(h: Hops, b: Bracket, out1: nat, out2: nat)
    requires h.Ok() && b.lo + 3 <= b.hi
    requires out1 == h.Out(b.lo + (b.hi - b.lo) / 3) && out2 == h.Out(b.hi - (b.hi - b.lo) / 3)
    ensures var m1, m2 := b.lo + (b.hi - b.lo) / 3, b.hi - (b.hi - b.lo) / 3;
            var p1, p2 := if out1 > m1 then out1 - m1 else 0, if out2 > m2 then out2 - m2 else 0;
            var q := if p1 > b.bestProfit then p1 else b.bestProfit;
            Narrow(Profit(h), b) == Bracket(if p1 < p2 then m1 else b.lo, if p1 < p2 then b.hi else m2,
                                    if p2 > q then m2 else if p1 > b.bestProfit then m1 else b.bestInput,
                                    if p2 > q then p2 else q)
  {
    hide Hops.Out, Hops.Ok;
  }

  // ── What a reported opportunity means ────────────────────────────

  /** A reported result is a real profit of at least minProfit, on an input in range; and on distinct pools,
      executing the hops one after the other with that input pays exactly the expected output. */
  lemma ReportedIsExecutable(sv: SimdSolver, s: State, cycle: ArbCycle, idx: nat)
    requires CycleFits(s, cycle) && sv.maxInput >= 1 && sv.Evaluated(s, cycle, idx).Some?
    ensures var r := sv.Evaluated(s, cycle, idx).value;
            && 0 < r.optimalInput <= sv.maxInput
            && r.expectedOutput == r.optimalInput + r.netProfit && r.netProfit >= 1 && r.netProfit >= sv.minProfit
            && r.poolSequence == cycle.poolIndices && r.directions == cycle.directions
            && (Distinct(cycle.poolIndices) ==>
                  PaysOut(s, cycle.poolIndices, cycle.directions, r.optimalInput, r.expectedOutput))
  {
    hide Search, Hops.Amount, Execute;
    var h := HopsOf(s, cycle);
    NothingGained(h);
    WholeTracks(Profit(h), sv.maxInput);
    SearchTracks(Profit(h), Whole(sv.maxInput), sv.maxInput, sv.searchIterations);
    var x := Search(Profit(h), Whole(sv.maxInput), sv.searchIterations).bestInput;
    if Distinct(cycle.poolIndices) {
      SimulationIsExecution(s, cycle.poolIndices, cycle.directions, x, |cycle.poolIndices|);
    }
  }

  ghost predicate PaysOut(s: State, indices: seq<nat>, directions: seq<bool>, input: nat, output: nat)
  {
    && |indices| == |directions|
    && var r := Execute(s, indices, directions, input, |indices|);
       r.Some? && r.value.1 == output
  }

  /** Every collected result comes from one of the cycles and carries its position among the results. */
  lemma {:induction false} CollectedFrom(sv: SimdSolver, s: State, cycles: seq<ArbCycle>, k: nat, j: nat) returns (i: nat)
    requires k <= |cycles| && forall c :: 0 <= c < |cycles| ==> CycleFits(s, cycles[c])
    requires j < |sv.Collected(s, cycles, k)|
    ensures i < k && sv.Evaluated(s, cycles[i], j) == Some(sv.Collected(s, cycles, k)[j])
    ensures sv.Collected(s, cycles, k)[j].cycleIdx == j
  {
    hide SimdSolver.Evaluated;
    if j < |sv.Collected(s, cycles, k - 1)| {
      i := CollectedFrom(sv, s, cycles, k - 1, j);
    } else {
      i := k - 1;
      IdxIsGiven(sv, s, cycles[i], j);
    }
  }

  /** The index given is carried along and changes nothing else. */
  lemma IdxIsGiven(sv: SimdSolver, s: State, cycle: ArbCycle, idx: nat)
    requires CycleFits(s, cycle)
    ensures sv.Evaluated(s, cycle, idx).Some? <==> Reported(sv, s, cycle)
    ensures sv.Evaluated(s, cycle, idx).Some? ==>
      && sv.Evaluated(s, cycle, idx).value.cycleIdx == idx
      && sv.Evaluated(s, cycle, idx).value.(cycleIdx := 0) == sv.Evaluated(s, cycle, 0).value
  {}

  /** Something is reported about the cycle. */
  ghost predicate Reported(sv: SimdSolver, s: State, cycle: ArbCycle)
    requires CycleFits(s, cycle)
  {
    sv.Evaluated(s, cycle, 0).Some?
  }

  /** The cycles among the first k about which something is reported. */
  ghost function ReportedBelow(sv: SimdSolver, s: State, cycles: seq<ArbCycle>, k: nat): set<nat>
    requires k <= |cycles| && forall c :: 0 <= c < |cycles| ==> CycleFits(s, cycles[c])
  {
    set i: nat | i < k && Reported(sv, s, cycles[i])
  }

  /** There is one result for every reported cycle, */
  lemma {:induction false} CollectedCount(sv: SimdSolver, s: State, cycles: seq<ArbCycle>, k: nat)
    requires k <= |cycles| && forall c :: 0 <= c < |cycles| ==> CycleFits(s, cycles[c])
    ensures |sv.Collected(s, cycles, k)| == |ReportedBelow(sv, s, cycles, k)|
  {
    hide SimdSolver.Evaluated;
    if k == 0 {
      assert ReportedBelow(sv, s, cycles, 0) == {};
    } else {
      CollectedCount(sv, s, cycles, k - 1);
      var before := ReportedBelow(sv, s, cycles, k - 1);
      IdxIsGiven(sv, s, cycles[k - 1], |before|);
      assert ReportedBelow(sv, s, cycles, k) == if Reported(sv, s, cycles[k - 1]) then before + {k - 1} else before;
    }
  }

  /** at the position given by how many cycles before it are reported. */
  lemma {:induction false} ReportedIsCollected(sv: SimdSolver, s: State, cycles: seq<ArbCycle>, k: nat, i: nat)
    requires k <= |cycles| && forall c :: 0 <= c < |cycles| ==> CycleFits(s, cycles[c])
    requires i < k && Reported(sv, s, cycles[i])
    ensures var j := |ReportedBelow(sv, s, cycles, i)|;
            && j < |sv.Collected(s, cycles, k)|
            && sv.Evaluated(s, cycles[i], j) == Some(sv.Collected(s, cycles, k)[j])
    decreases k
  {
    hide SimdSolver.Evaluated, ReportedBelow;
    var j := |ReportedBelow(sv, s, cycles, i)|;
    if i == k - 1 {
      CollectedCount(sv, s, cycles, i);
      IdxIsGiven(sv, s, cycles[i], j);
    } else {
      ReportedIsCollected(sv, s, cycles, k - 1, i);
    }
  }

  /** The results of all cycles, in whatever order: as many as there are reported cycles, and one for each of them with
      its input, output, profit and hops. */
  lemma BatchIsComplete(sv: SimdSolver, s: State, cycles: seq<ArbCycle>, results: seq<ArbResult>)
    requires forall c :: 0 <= c < |cycles| ==> CycleFits(s, cycles[c])
    requires multiset(results) == multiset(sv.Collected(s, cycles, |cycles|))
    ensures |results| == |ReportedBelow(sv, s, cycles, |cycles|)|
    ensures forall i :: 0 <= i < |cycles| && Reported(sv, s, cycles[i]) ==> HasResult(sv, s, cycles[i], results)
  {
    hide SimdSolver.Evaluated, ReportedBelow, SimdSolver.Collected;
    var all := sv.Collected(s, cycles, |cycles|);
    assert |multiset(all)| == |all| && |multiset(results)| == |results|;
    CollectedCount(sv, s, cycles, |cycles|);
    forall i | 0 <= i < |cycles| && Reported(sv, s, cycles[i]) ensures HasResult(sv, s, cycles[i], results) {
      ReportedIsCollected(sv, s, cycles, |cycles|, i);
      var j := |ReportedBelow(sv, s, cycles, i)|;
      IdxIsGiven(sv, s, cycles[i], j);
      assert all[j] in multiset(all);
      var r :| 0 <= r < |results| && results[r] == all[j];
    }
  }

  ghost predicate HasResult(sv: SimdSolver, s: State, cycle: ArbCycle, results: seq<ArbResult>)
    requires CycleFits(s, cycle)
  {
    exists r :: 0 <= r < |results| && sv.Evaluated(s, cycle, 0) == Some(results[r].(cycleIdx := 0))
  }

  /** When a cycle is reported, in terms of what it pays: it gains on the probe, a thousandth of the largest input but
      at least 100, and on the best input at least the minimum. The figures are those of the best input, the profit
      in hundredths of a percent rounded down and cut to 32 bits. */
  lemma ReportedExactly(sv: SimdSolver, s: State, cycle: ArbCycle)
    requires CycleFits(s, cycle)
    ensures var h, probe := HopsOf(s, cycle), sv.ProbeInput();
            var x := Search(Profit(h), Whole(sv.maxInput), sv.searchIterations).bestInput;
            && (sv.maxInput < 100000 ==> probe == 100)
            && (sv.maxInput >= 100000 ==> 1000 * probe <= sv.maxInput < 1000 * (probe + 1))
            && (Reported(sv, s, cycle) <==>
                  && cycle.path != [] && cycle.poolIndices != [] && h.Out(probe) > probe
                  && h.Out(x) > x && h.Out(x) >= x + sv.minProfit)
            && (Reported(sv, s, cycle) ==>
                  var r := sv.Evaluated(s, cycle, 0).value;
                  && r.optimalInput == x && r.expectedOutput == h.Out(x) && r.netProfit == h.Out(x) - x
                  && BasisPoints(r.profitBps, r.netProfit, x)
                  && r.poolSequence == cycle.poolIndices && r.directions == cycle.directions)
  {
    hide Search, Hops.Out, Hops.Ok;
    NothingGained(HopsOf(s, cycle));
    if Reported(sv, s, cycle) {
      var r := sv.Evaluated(s, cycle, 0).value;
      RoundedDown(r.netProfit * 10000, r.optimalInput);
      assert RoundsDown(r.netProfit * 10000 / r.optimalInput, 10000 * r.netProfit, r.optimalInput);
    }
  }

  /** bps is 10000 profit / input rounded down, in 32 bits. */
  ghost predicate BasisPoints(bps: nat, profit: nat, input: nat)
  {
    exists q: nat :: RoundsDown(q, 10000 * profit, input) && bps == q % 0x1_0000_0000
  }

  predicate RoundsDown(q: nat, n: nat, d: nat)
  {
    q * d <= n < (q + 1) * d
  }

  lemma RoundedDown(n: nat, d: nat)
    requires d > 0
    ensures n / d >= 0 && RoundsDown(n / d, n, d)
  {
    Quotient(n, d);
  }

  /** The position is not the cycle's own index once an earlier cycle has been rejected: results and
      cycles stay aligned up to k exactly when all of the first k cycles are reported. */
  lemma {:induction false} AlignedUntilRejection(sv: SimdSolver, s: State, cycles: seq<ArbCycle>, k: nat)
    requires k <= |cycles| && forall c :: 0 <= c < |cycles| ==> CycleFits(s, cycles[c])
    ensures |sv.Collected(s, cycles, k)| <= k
    ensures |sv.Collected(s, cycles, k)| == k <==> forall i :: 0 <= i < k ==> sv.Evaluated(s, cycles[i], i).Some?
  {
    hide SimdSolver.Evaluated;
    if k > 0 { AlignedUntilRejection(sv, s, cycles, k - 1); }
  }

  // Two pools without fees whose prices differ by a factor of two.
  const CheapPool: Pool := Fresh(1, 2, 1000, 2000, 0, 1, 0)
  const DearPool: Pool := Fresh(1, 2, 1000, 1000, 0, 1, 0)
  const TwoPools: State := State([CheapPool, DearPool], 0, 0)
  const WrongWay: ArbCycle := ArbCycle([0, 1], [1, 0], [true, false], 0)
  const RightWay: ArbCycle := ArbCycle([0, 1], [0, 1], [true, false], -1)

  lemma TwoHops(h: Hops, a: nat)
    requires h.Ok() && |h.indices| == 2
    ensures h.Out(a) == SimSwap(h.Pool(1), SimSwap(h.Pool(0), a, h.directions[0]), h.directions[1])
  {
    assert h.Amount(a, 0) == a;
    assert h.Amount(a, 1) == SimSwap(h.Pool(0), a, h.directions[0]);
  }

  /** Where the cheap pool comes first each unit in brings about two out. */
  lemma RightWayOutput(a: nat, mid: nat, out: nat)
    requires 2000 - 2000000 / (1000 + a) == mid && 1000 - 1000000 / (1000 + mid) == out
    ensures CycleFits(TwoPools, RightWay) && HopsOf(TwoPools, RightWay).Out(a) == out
  {
    TwoHops(HopsOf(TwoPools, RightWay), a);
  }

  lemma WrongWayOutput(a: nat, mid: nat, out: nat)
    requires 1000 - 1000000 / (1000 + a) == mid && 1000 - 2000000 / (2000 + mid) == out
    ensures CycleFits(TwoPools, WrongWay) && HopsOf(TwoPools, WrongWay).Out(a) == out
  {
    TwoHops(HopsOf(TwoPools, WrongWay), a);
  }

  /** The second of two cycles, reported after the first was rejected, carries index 0 and so points at the first. */
  lemma MisalignedExample()
    ensures var sv, cycles := SimdSolver(1, 4, 1), [WrongWay, RightWay];
            && CycleFits(TwoPools, WrongWay) && CycleFits(TwoPools, RightWay)
            && sv.Collected(TwoPools, cycles, 2) == [ArbResult(0, 3, 6, 3, 10000, [0, 1], [true, false])]
            && cycles[0].poolIndices == [1, 0]
  {
    var sv, cycles := SimdSolver(1, 4, 1), [WrongWay, RightWay];
    hide Hops.Out, SimdSolver.Collected, SimdSolver.Evaluated;
    WrongWayOutput(100, 91, 44);
    RightWayReported(sv);
    Rejected(sv, TwoPools, WrongWay);
    CollectedPair(sv, TwoPools, cycles);
  }

  /** A cycle that loses on the probe is not reported. */
  lemma Rejected(sv: SimdSolver, s: State, c: ArbCycle)
    requires CycleFits(s, c) && HopsOf(s, c).Out(sv.ProbeInput()) <= sv.ProbeInput()
    ensures sv.Evaluated(s, c, 0).None?
  {
    hide Hops.Out, Search;
  }

  lemma RightWayReported(sv: SimdSolver)
    requires sv == SimdSolver(1, 4, 1)
    ensures CycleFits(TwoPools, RightWay)
    ensures sv.Evaluated(TwoPools, RightWay, 0) == Some(ArbResult(0, 3, 6, 3, 10000, [0, 1], [true, false]))
  {
    hide Hops.Out, Search;
    RightWayOutput(100, 182, 154);
    RightWayOutput(2, 4, 4);
    RightWayOutput(3, 6, 6);
    SearchOfFour(Profit(HopsOf(TwoPools, RightWay)));
  }

  lemma CollectedPair(sv: SimdSolver, s: State, cycles: seq<ArbCycle>)
    requires |cycles| == 2 && forall i :: 0 <= i < |cycles| ==> CycleFits(s, cycles[i])
    requires sv.Evaluated(s, cycles[0], 0).None? && sv.Evaluated(s, cycles[1], 0).Some?
    ensures sv.Collected(s, cycles, 2) == [sv.Evaluated(s, cycles[1], 0).value]
  {
    hide SimdSolver.Evaluated;
    assert sv.Collected(s, cycles, 0) == [];
    assert sv.Collected(s, cycles, 1) == [];
  }

  lemma SearchOfFour(f: nat -> int)
    requires f(2) == 2 && f(3) == 3
    ensures Search(f, Whole(4), 1).bestInput == 3
  {
    assert Whole(4).hi - Whole(4).lo == 3;
    assert Narrow(f, Whole(4)) == Bracket(2, 4, 3, 3);
    SearchUnfolds(f, Whole(4), 1);
  }

  // ── Machine width ────────────────────────────────────────────────

  const U128: nat := 0x1_0000_0000_0000_0000_0000_0000_0000_0000
  const SMALL: nat := 0x8000_0000_0000_0000_0000_0000            // 2^95

  ghost predicate RowIsSmall(p: Pool)
  {
    p.specX < SMALL && p.specY < SMALL && p.specX * p.specY < U128 && p.feeNum < 0x1_0000_0000
  }

  /** No intermediate of any hop leaves 128 bits when reserves and input are below 2^95 and each
      pool's product fits. */
  lemma {:induction false} CycleStaysInRange(h: Hops, a: nat, k: nat)
    requires h.Ok() && k < |h.indices| && a < SMALL && forall i :: 0 <= i < |h.indices| ==> RowIsSmall(h.Pool(i))
    ensures var p, b := h.Pool(k), h.Amount(a, k);
            && b < SMALL && b * p.feeNum < U128
            && p.specX + AfterFee(b, p.feeNum, p.feeDen) < U128 && p.specY + AfterFee(b, p.feeNum, p.feeDen) < U128
            && p.specX * p.specY < U128
  {
    var p, b := h.Pool(k), h.Amount(a, k);
    if k > 0 {
      CycleStaysInRange(h, a, k - 1);
      SimSwapMonotone(h.Pool(k - 1), 0, h.Amount(a, k - 1), h.directions[k - 1]);
      assert RowIsSmall(h.Pool(k - 1));
    }
    assert RowIsSmall(p);
    FeeAtMost(b, p.feeNum, p.feeDen);
    SmallProduct(b, p.feeNum);
  }

  lemma SmallProduct(b: nat, f: nat)
    requires b < SMALL && f < 0x1_0000_0000
    ensures b * f < U128
  {
    MulMonotone(b, SMALL, f);
  }

  // ── Ordering the results ─────────────────────────────────────────

  ghost predicate Descending(rs: seq<ArbResult>)
  {
    forall i, j :: 0 <= i < j < |rs| ==> rs[i].netProfit >= rs[j].netProfit
  }

  /** Sorting by profit, best first. The order among equal profits is not specified by the program. */
  method SortByProfit(rs: seq<ArbResult>) returns (sorted: seq<ArbResult>)
    ensures Descending(sorted) && multiset(sorted) == multiset(rs)
  {
    sorted := [];
    for i := 0 to |rs|
      invariant Descending(sorted) && multiset(sorted) == multiset(rs[..i])
    {
      sorted := InsertByProfit(sorted, rs[i]);
      assert rs[..i + 1] == rs[..i] + [rs[i]];
    }
    assert rs[..|rs|] == rs;
  }

  method InsertByProfit(rs: seq<ArbResult>, r: ArbResult) returns (out: seq<ArbResult>)
    requires Descending(rs)
    ensures Descending(out) && multiset(out) == multiset(rs) + multiset{r}
  {
    var k := 0;
    while k < |rs| && rs[k].netProfit >= r.netProfit
      invariant 0 <= k <= |rs| && forall i :: 0 <= i < k ==> rs[i].netProfit >= r.netProfit
    {
      k := k + 1;
    }
    out := rs[..k] + [r] + rs[k..];
    assert rs == rs[..k] + rs[k..];
  }
}
