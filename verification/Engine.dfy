/** The event loop that ties the shadow, the price graph and the solver together. */
module Engine {
  import opened Wrappers
  import opened GraphTheory
  import opened Graph
  import opened Amm
  import opened Shadow
  import opened Events
  import opened Solver
  import opened PoolGraph

  /** No pool has a fee of 0 / 0, which a swap divides by. */
  ghost predicate FeesDefined(s: State)
  {
    forall i :: 0 <= i < |s.pools| ==> !FeeUndefined(s.pools[i])
  }

  /** Fees never change: the pools the graph was built from still have theirs. */
  ghost predicate FeesStand(built: seq<Pool>, s: State)
  {
    && |built| <= |s.pools|
    && forall i :: 0 <= i < |built| ==> built[i].feeNum == s.pools[i].feeNum && built[i].feeDen == s.pools[i].feeDen
  }

  /** Some cycle of distinct pools pays out profit more than is put in, executed on s hop by hop. */
  ghost predicate Opportunity(s: State, profit: nat, maxInput: nat)
  {
    exists r: ArbResult :: Pays(s, r, maxInput) && r.netProfit == profit
  }

  ghost predicate Pays(s: State, r: ArbResult, maxInput: nat)
  {
    && 0 < r.optimalInput <= maxInput && Distinct(r.poolSequence)
    && PaysOut(s, r.poolSequence, r.directions, r.optimalInput, r.optimalInput + r.netProfit)
  }

  class Aste {
    const shadow: StateShadow
    const graph: PriceGraph
    const solver: SimdSolver
    const maxHops: nat
    const rebuildInterval: nat
    const weights: LogWeight
    var cycleCount: nat
    /** Every event so far, registrations included. */
    ghost var history: seq<Event>
    /** The pools as they were when the graph was last built. */
    ghost var built: seq<Pool>

    ghost function Footprint(): set<object>
    {
      {this as object, shadow, graph} + shadow.Columns()
    }

    ghost predicate Valid()
      reads Footprint()
    {
      && shadow.Valid() && graph.Valid()
      && StateAfter(history) == Some(shadow.View()) && FeesStand(built, shadow.View())
      && FromPools(graph.edges, graph.tokenToNode, built, weights) && Complete(graph.edges, built, |built|)
      && solver.maxInput >= 1 && rebuildInterval > 0 && LikeMinusLog(weights)
    }

    constructor (solver: SimdSolver, maxHops: nat, rebuildInterval: nat, weights: LogWeight)
      requires solver.maxInput >= 1 && rebuildInterval > 0 && LikeMinusLog(weights)
      ensures Valid() && fresh(Footprint()) && history == []
    {
      shadow := new StateShadow();
      graph := new PriceGraph();
      this.solver, this.maxHops, this.rebuildInterval, this.weights := solver, maxHops, rebuildInterval, weights;
      cycleCount, history, built := 0, [], [];
      new;
      AfterNothing();
    }

    method RegisterPool(tx: nat, ty: nat, x: nat, y: nat, num: nat, den: nat, slot: nat) returns (r: Option<nat>)
      requires Valid()
      modifies Footprint()
      ensures Valid() && history == old(history) + [Register(tx, ty, x, y, num, den, slot)]
      ensures r == if |old(shadow.View()).pools| < MAX_POOLS then Some(|old(shadow.View()).pools|) else None
      ensures r.Some? ==> built == shadow.View().pools
    {
      hide StateAfter, FromPools, Complete, LikeMinusLog, FeesStand;
      ghost var s, e := shadow.View(), Register(tx, ty, x, y, num, den, slot);
      AfterOneMore(history, e);
      r := shadow.RegisterPool(tx, ty, x, y, num, den, slot);
      history := history + [e];
      Registered(built, s, shadow.View(), e);
      if r.Some? { Rebuild(); }
    }

    /** Builds the graph from the shadow as it stands. */
    method Rebuild()
      requires Valid()
      modifies graph, this`built
      ensures Valid() && built == shadow.View().pools
    {
      ghost var s := shadow.View();
      BuildFromShadow(graph, shadow, s, weights);
      assert shadow.Valid() && shadow.View() == s;
      built := s.pools;
      assert shadow.Valid() && shadow.View() == s;
    }

    /** For a pending swap the profit reported is the best among the detected cycles, and it can be had:
        executing the reported hops one after the other on the speculative reserves pays it out. Other events
        report none. */
    method ProcessEvent(e: Event) returns (profit: nat, ghost cycles: seq<ArbCycle>)
      requires Valid() && !e.Register? && Enabled(shadow.View(), e)
      requires e.PendingSwap? ==> FeesDefined(shadow.View())
      modifies Footprint()
      ensures Valid() && history == old(history) + [e] && cycleCount == old(cycleCount) + 1
      ensures if e.NewBlock? || (e.PendingSwap? && cycleCount % rebuildInterval == 0) then built == shadow.View().pools
              else built == old(built) && graph.edges == old(graph.edges) && graph.tokenToNode == old(graph.tokenToNode)
      ensures !e.PendingSwap? ==> profit == 0
      ensures e.PendingSwap? ==>
        && Detected(graph.edges, graph.numTokens, cycles, maxHops)
        && MostProfitable(solver, shadow.View(), cycles, profit)
      ensures profit > 0 ==> profit >= solver.minProfit && Opportunity(shadow.View(), profit, solver.maxInput)
    {
      hide StateAfter, FeesDefined, FeesStand, FromPools, Opportunity, LikeMinusLog, Detected, MostProfitable, Complete;
      if e.PendingSwap? { SameFees(shadow.View(), e); }
      Transition(e);
      profit, cycles := 0, [];
      if e.PendingSwap? {
        profit, cycles := Solve();
      } else if e.NewBlock? {
        Rebuild();
      }
    }

    /** The event's effect on the shadow. */
    method Transition(e: Event)
      requires Valid() && !e.Register? && Enabled(shadow.View(), e)
      modifies this`history, this`cycleCount, shadow, shadow.Columns()
      ensures Valid() && history == old(history) + [e] && cycleCount == old(cycleCount) + 1
      ensures shadow.View() == Next(old(shadow.View()), e)
    {
      hide Complete, Enabled, FeesDefined, FeesStand, Next, StateAfter;
      ghost var s := shadow.View();
      AfterOneMore(history, e);
      SameFees(s, e);
      hide StateAfter, FeesDefined, FeesStand, FromPools, SwapEffect, SwapOutput, Complete, LikeMinusLog;
      history := history + [e];
      cycleCount := cycleCount + 1;
      ApplyToShadow(e, s);
    }

    method ApplyToShadow(e: Event, ghost s: State)
      requires shadow.Valid() && s == shadow.View() && !e.Register? && Enabled(s, e)
      modifies shadow, shadow.Columns()
      ensures shadow.Valid() && shadow.View() == Next(s, e)
    {
      match e
      case PendingSwap(i, amount, xToY) => var out := shadow.ApplySpeculativeSwap(i, amount, xToY);
      case NewBlock(slot) => shadow.OnNewBlock(slot);
      case PoolUpdate(i, x, y, slot) => shadow.UpdateReserves(i, x, y, slot);
    }

    /** The graph is rebuilt only every few events; between rebuilds it may lag behind the shadow. */
    method Solve() returns (profit: nat, ghost cycles: seq<ArbCycle>)
      requires Valid() && FeesDefined(shadow.View())
      modifies graph, this`built
      ensures Valid()
      ensures if cycleCount % rebuildInterval == 0 then built == shadow.View().pools
              else built == old(built) && graph.edges == old(graph.edges) && graph.tokenToNode == old(graph.tokenToNode)
      ensures Detected(graph.edges, graph.numTokens, cycles, maxHops)
      ensures MostProfitable(solver, shadow.View(), cycles, profit)
      ensures profit > 0 ==> profit >= solver.minProfit && Opportunity(shadow.View(), profit, solver.maxInput)
    {
      hide StateAfter, FeesDefined, FeesStand, FromPools, Opportunity, LikeMinusLog, Detected, MostProfitable, Complete;
      if cycleCount % rebuildInterval == 0 { Rebuild(); }
      profit, cycles := BestProfit(shadow.View());
    }

    /** Detects, evaluates, and takes the best result. */
    method BestProfit(ghost s: State) returns (profit: nat, ghost found: seq<ArbCycle>)
      requires Valid() && s == shadow.View() && FeesDefined(s)
      ensures Valid() && s == shadow.View()
      ensures Detected(graph.edges, graph.numTokens, found, maxHops) && MostProfitable(solver, s, found, profit)
      ensures profit > 0 ==> profit >= solver.minProfit && Opportunity(s, profit, solver.maxInput)
    {
      hide StateAfter, Detected, MostProfitable, Opportunity, Complete, FromPools, FeesStand, FeesDefined, LikeMinusLog;
      var cycles;
      cycles := graph.FindArbitrageCycles(maxHops);
      found := cycles;
      CyclesUsable(graph.edges, graph.tokenToNode, built, weights, graph.numTokens, cycles, maxHops, s);
      profit := BestOf(s, cycles);
      assert shadow.Valid() && shadow.View() == s;
    }

    method BestOf(ghost s: State, cycles: seq<ArbCycle>) returns (profit: nat)
      requires shadow.Valid() && s == shadow.View() && solver.maxInput >= 1
      requires forall i :: 0 <= i < |cycles| ==> Usable(s, cycles[i]) && CycleFits(s, cycles[i])
      ensures MostProfitable(solver, s, cycles, profit)
      ensures profit > 0 ==> profit >= solver.minProfit && Opportunity(s, profit, solver.maxInput)
    {
      if |cycles| == 0 { return 0; }
      var results := solver.EvaluateBatch(shadow, s, cycles);
      SameSize(results, solver.Collected(s, cycles, |cycles|));
      if |results| == 0 {
        NothingIsBest(solver, s, cycles);
        return 0;
      }
      profit := results[0].netProfit;
      BestIsReal(solver, s, cycles, results);
      FirstIsBest(solver, s, cycles, results);
    }
  }

  /** profit is the largest that evaluating any of the cycles reports, zero when nothing is reported. */
  ghost predicate MostProfitable(sv: SimdSolver, s: State, cycles: seq<ArbCycle>, profit: nat)
  {
    && (forall i :: 0 <= i < |cycles| ==> CycleFits(s, cycles[i]))
    && (forall i :: 0 <= i < |cycles| && Reported(sv, s, cycles[i]) ==>
          sv.Evaluated(s, cycles[i], 0).value.netProfit <= profit)
    && (profit == 0 || exists i :: 0 <= i < |cycles| && Yields(sv, s, cycles[i], profit))
  }

  ghost predicate Yields(sv: SimdSolver, s: State, cycle: ArbCycle, profit: nat)
    requires CycleFits(s, cycle)
  {
    Reported(sv, s, cycle) && sv.Evaluated(s, cycle, 0).value.netProfit == profit
  }

  lemma SameSize(a: seq<ArbResult>, b: seq<ArbResult>)
    requires multiset(a) == multiset(b)
    ensures |a| == |b|
  {
    assert |multiset(a)| == |a| && |multiset(b)| == |b|;
  }

  lemma FirstIsBest(sv: SimdSolver, s: State, cycles: seq<ArbCycle>, results: seq<ArbResult>)
    requires forall i :: 0 <= i < |cycles| ==> CycleFits(s, cycles[i])
    requires |results| > 0 && Descending(results) && multiset(results) == multiset(sv.Collected(s, cycles, |cycles|))
    ensures MostProfitable(sv, s, cycles, results[0].netProfit)
  {
    hide SimdSolver.Collected, SimdSolver.Evaluated;
    var best := results[0].netProfit;
    BatchIsComplete(sv, s, cycles, results);
    forall i | 0 <= i < |cycles| && Reported(sv, s, cycles[i]) ensures sv.Evaluated(s, cycles[i], 0).value.netProfit <= best {
      assert HasResult(sv, s, cycles[i], results);
      var r :| 0 <= r < |results| && sv.Evaluated(s, cycles[i], 0) == Some(results[r].(cycleIdx := 0));
    }
    var all := sv.Collected(s, cycles, |cycles|);
    assert results[0] in multiset(results);
    var j :| 0 <= j < |all| && all[j] == results[0];
    var i := CollectedFrom(sv, s, cycles, |cycles|, j);
    IdxIsGiven(sv, s, cycles[i], j);
    assert Yields(sv, s, cycles[i], best);
  }

  lemma NothingIsBest(sv: SimdSolver, s: State, cycles: seq<ArbCycle>)
    requires forall i :: 0 <= i < |cycles| ==> CycleFits(s, cycles[i])
    requires sv.Collected(s, cycles, |cycles|) == []
    ensures MostProfitable(sv, s, cycles, 0)
  {
    hide SimdSolver.Collected, SimdSolver.Evaluated;
    BatchIsComplete(sv, s, cycles, []);
    forall i | 0 <= i < |cycles| && Reported(sv, s, cycles[i]) ensures HasResult(sv, s, cycles[i], []) {}
  }

  lemma Registered(built: seq<Pool>, s: State, t: State, e: Event)
    requires FeesStand(built, s) && e.Register? && t == Next(s, e)
    ensures FeesStand(built, t)
  {}

  lemma SameFees(s: State, e: Event)
    requires Enabled(s, e) && !e.Register?
    ensures forall built :: FeesStand(built, s) ==> FeesStand(built, Next(s, e))
    ensures FeesDefined(s) ==> FeesDefined(Next(s, e))
  {}

  ghost predicate Usable(s: State, c: ArbCycle)
  {
    CycleFits(s, c) && Distinct(c.poolIndices)
  }

  lemma CyclesUsable(edges: seq<PriceEdge>, nodes: seq<(nat, nat)>, pools: seq<Pool>, w: LogWeight,
                     n: nat, cycles: seq<ArbCycle>, maxHops: nat, s: State)
    requires FromPools(edges, nodes, pools, w) && LikeMinusLog(w) && Detected(edges, n, cycles, maxHops)
    requires FeesStand(pools, s) && FeesDefined(s)
    ensures forall i :: 0 <= i < |cycles| ==> Usable(s, cycles[i]) && CycleFits(s, cycles[i])
  {
    hide FromPools, LikeMinusLog, IsGood, Detected, Distinct;
    DetectedParts(edges, n, cycles, maxHops);
    forall i | 0 <= i < |cycles| ensures Usable(s, cycles[i]) {
      var c := cycles[i];
      assert IsGood(edges, c, maxHops);
      PoolsAreDistinct(edges, nodes, pools, w, c, maxHops);
      var h := Hops(s.pools, c.poolIndices, c.directions);
      forall k | 0 <= k < |c.poolIndices| ensures h.HopFits(k) { assert Tradable(pools[c.poolIndices[k]]); }
    }
  }

  lemma BestIsReal(sv: SimdSolver, s: State, cycles: seq<ArbCycle>, results: seq<ArbResult>)
    requires sv.maxInput >= 1 && forall i :: 0 <= i < |cycles| ==> Usable(s, cycles[i]) && CycleFits(s, cycles[i])
    requires |results| > 0 && multiset(results) == multiset(sv.Collected(s, cycles, |cycles|))
    ensures results[0].netProfit >= sv.minProfit && Opportunity(s, results[0].netProfit, sv.maxInput)
  {
    var r := results[0];
    var all := sv.Collected(s, cycles, |cycles|);
    assert r in multiset(all);
    var j :| 0 <= j < |all| && all[j] == r;
    var i := CollectedFrom(sv, s, cycles, |cycles|, j);
    assert Usable(s, cycles[i]);
    ReportedIsExecutable(sv, s, cycles[i], j);
    assert Pays(s, r, sv.maxInput);
  }
}
