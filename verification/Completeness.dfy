/** When the search finds something: for every graph small enough, exactly when there is a negative cycle. */
module Completeness {
  import opened Arith
  import opened Wrappers
  import opened GraphTheory
  import opened Relaxation
  import opened Graph

  ghost predicate NegativeLoop(edges: seq<PriceEdge>, c: seq<PriceEdge>, x: nat)
  {
    |c| > 0 && Walk(edges, c, x, x) && WalkSum(c) < 0
  }

  /** No edge leads from a node to itself. */
  ghost predicate NoSelfEdges(edges: seq<PriceEdge>)
  {
    forall i :: 0 <= i < |edges| ==> edges[i].src != edges[i].dst
  }

  // ── Short negative loops ─────────────────────────────────────────

  /** A closed walk of more than n edges meets a node twice: one of the two loops it splits into is negative. */
  lemma {:induction false} ShortLoop(edges: seq<PriceEdge>, n: nat, c: seq<PriceEdge>, x: nat)
    returns (c': seq<PriceEdge>, x': nat)
    requires WellFormed(edges, n) && x < n && NegativeLoop(edges, c, x)
    ensures x' < n && NegativeLoop(edges, c', x') && |c'| <= n
    decreases |c|
  {
    if |c| <= n {
      c', x' := c, x;
    } else {
      var nodes := seq(|c|, k requires 0 <= k < |c| => NodeAt(c, x, k));
      forall k | 0 <= k < |nodes| ensures nodes[k] < n { NodesInRange(edges, c, x, x, n, k); }
      var i, j := Pigeonhole(nodes, n);
      assert nodes[i] == NodeAt(c, x, i) && nodes[j] == NodeAt(c, x, j);
      var inner, outer := SplitLoop(edges, c, x, i, j);
      NodesInRange(edges, c, x, x, n, i);
      if WalkSum(inner) < 0 {
        c', x' := ShortLoop(edges, n, inner, NodeAt(c, x, i));
      } else {
        c', x' := ShortLoop(edges, n, outer, x);
      }
    }
  }

  lemma SplitLoop(edges: seq<PriceEdge>, c: seq<PriceEdge>, x: nat, i: nat, j: nat)
    returns (inner: seq<PriceEdge>, outer: seq<PriceEdge>)
    requires Walk(edges, c, x, x) && i < j < |c| && NodeAt(c, x, i) == NodeAt(c, x, j)
    ensures var y := NodeAt(c, x, i);
            Walk(edges, inner, y, y) && Walk(edges, outer, x, x) && WalkSum(inner) + WalkSum(outer) == WalkSum(c)
    ensures 0 < |inner| < |c| && 0 < |outer| < |c|
  {
    var y := NodeAt(c, x, i);
    WalkSplit(edges, c, x, x, j);
    WalkSplit(edges, c[..j], x, y, i);
    assert c[..j][..i] == c[..i] && NodeAt(c[..j], x, i) == y;
    inner, outer := c[..j][i..], c[..i] + c[j..];
    WalkJoin(edges, c[..i], c[j..], x, y, x);
  }

  /** A closed walk read from its k-th node on. */
  lemma Rotated(edges: seq<PriceEdge>, c: seq<PriceEdge>, x: nat, k: nat)
    requires Walk(edges, c, x, x) && k <= |c|
    ensures var y := NodeAt(c, x, k); Walk(edges, c[k..] + c[..k], y, y)
    ensures WalkSum(c[k..] + c[..k]) == WalkSum(c)
  {
    WalkSplit(edges, c, x, x, k);
    WalkJoin(edges, c[k..], c[..k], NodeAt(c, x, k), x, NodeAt(c, x, k));
  }

  // ── A start from which n - 1 passes go all the way around ────────

  /** Positions that never rise around the loop are all the same. */
  lemma {:induction false} NeverRises(js: seq<nat>, k: nat)
    requires 0 < |js| && k < |js| && forall i :: 0 <= i < |js| - 1 ==> js[i] >= js[i + 1]
    ensures js[0] >= js[k]
    decreases k
  {
    if k > 0 { NeverRises(js, k - 1); }
  }

  /** Without self-edges, some two consecutive edges of a loop stand in list order. */
  lemma SomeRise(edges: seq<PriceEdge>, c: seq<PriceEdge>, js: seq<nat>, x: nat) returns (k: nat)
    requires Walk(edges, c, x, x) && Placed(edges, c, js) && |c| >= 2 && NoSelfEdges(edges)
    ensures k < |c| && js[k] < js[if k + 1 < |c| then k + 1 else 0]
  {
    if i :| 0 <= i < |js| - 1 && js[i] < js[i + 1] {
      k := i;
    } else {
      k := |c| - 1;
      NeverRises(js, |js| - 1);
      NeverRises(js, 1);
      if js[|js| - 1] >= js[0] { AllSame(js, 1); FollowsItself(edges, c, js, x); }
    }
  }

  lemma AllSame(js: seq<nat>, k: nat)
    requires 0 < |js| && k < |js| && js[|js| - 1] >= js[0]
    requires forall i :: 0 <= i < |js| - 1 ==> js[i] >= js[i + 1]
    ensures js[k] == js[0]
  {
    NeverRises(js, k);
    NeverRises(js[k..], |js| - 1 - k);
  }

  lemma FollowsItself(edges: seq<PriceEdge>, c: seq<PriceEdge>, js: seq<nat>, x: nat)
    requires Walk(edges, c, x, x) && Placed(edges, c, js) && |c| >= 2 && js[1] == js[0]
    ensures edges[js[0]].src == edges[js[0]].dst
  {
    WalkSplit(edges, c, x, x, 1);
    WalkSplit(edges, c[1..], NodeAt(c, x, 1), x, 1);
    assert c[1..][..1] == [c[1]];
    assert [c[1]][..0] == [];
    assert Walk(edges, [], NodeAt(c, x, 1), c[1].src);
    assert c[0] == edges[js[0]] == c[1];
  }

  /** So one pass meets two edges of it, and n - 1 passes a loop of n edges. */
  lemma GoodStart(edges: seq<PriceEdge>, n: nat, c: seq<PriceEdge>, x: nat)
    returns (c': seq<PriceEdge>, js: seq<nat>, y: nat)
    requires WellFormed(edges, n) && x < n && NegativeLoop(edges, c, x) && |c| <= n && NoSelfEdges(edges)
    ensures y < n && NegativeLoop(edges, c', y) && |c'| == |c| && Placed(edges, c', js) && Rounds(js) <= n - 1
  {
    js := Place(edges, c, x, x);
    if |c| == 1 { OneEdge(edges, c, js, x); }
    var k := SomeRise(edges, c, js, x);
    var m := |c|;
    c', y := c[k..] + c[..k], NodeAt(c, x, k);
    Rotated(edges, c, x, k);
    NodesInRange(edges, c, x, x, n, k);
    js := js[k..] + js[..k];
    assert js[0] < js[1];
    RoundsAtMost(js);
  }

  lemma OneEdge(edges: seq<PriceEdge>, c: seq<PriceEdge>, js: seq<nat>, x: nat)
    requires Walk(edges, c, x, x) && |c| == 1 && Placed(edges, c, js)
    ensures edges[js[0]].src == edges[js[0]].dst
  {
    assert c[..0] == [];
    assert Walk(edges, [], x, c[0].src);
  }

  // ── What the run from there looks like ───────────────────────────

  /** Every distance along the loop is finite, and at the start it is negative. */
  lemma LoopIsCovered(edges: seq<PriceEdge>, dist: seq<int>, n: nat, c: seq<PriceEdge>, js: seq<nat>, y: nat, k: nat)
    requires WellFormed(edges, n) && |dist| == n && y < n && Walk(edges, c, y, y) && |c| <= n && Placed(edges, c, js)
    requires Covered(edges, dist, y, n, n - 1, 0) && Rounds(js) <= n - 1 && Tame(edges, n) && k <= |c|
    ensures NodeAt(c, y, k) < n && dist[NodeAt(c, y, k)] <= WalkSum(c[..k]) < INFINITE
  {
    hide WalkSum, Rounds, NodeAt, Walk, MaxWeight;
    NodesInRange(edges, c, y, y, n, k);
    WalkSplit(edges, c, y, y, k);
    RoundsOfPrefix(js, k);
    assert Placed(edges, c[..k], js[..k]) && InTime(js[..k], n - 1, 0);
    SmallSum(edges, c[..k], y, NodeAt(c, y, k), n);
  }

  lemma SmallSum(edges: seq<PriceEdge>, w: seq<PriceEdge>, s: nat, v: nat, n: nat)
    requires Walk(edges, w, s, v) && |w| <= n && Tame(edges, n)
    ensures WalkSum(w) < INFINITE
  {
    WalkSumBound(edges, w, s, v);
    MulMonotone(|w|, n + 1, MaxWeight(edges));
  }

  /** Going once around a negative loop, some edge must still be relaxable. */
  lemma {:induction false} RelaxableOnLoop(edges: seq<PriceEdge>, dist: seq<int>, walks: seq<seq<PriceEdge>>, steps: nat,
                                          c: seq<PriceEdge>, js: seq<nat>, y: nat, k: nat) returns (i: nat)
    requires WellFormed(edges, |dist|) && y < |dist| && Walk(edges, c, y, y) && Placed(edges, c, js) && k <= |c|
    requires Witnessed(edges, dist, walks, y, steps) && Tame(edges, steps)
    requires forall m :: 0 <= m <= |c| ==> NodeAt(c, y, m) < |dist| && dist[NodeAt(c, y, m)] < INFINITE
    ensures i <= k && (i < k ==> i < |js| && js[i] < |edges| && edges[js[i]].src < |dist|)
    ensures i < k ==> edges[js[i]].dst < |dist|
    ensures (i < k ==> Relaxable(dist, edges[js[i]]) && edges[js[i]].dst == NodeAt(c, y, i + 1))
    ensures i == k ==> dist[NodeAt(c, y, k)] <= dist[y] + WalkSum(c[..k])
  {
    if k == 0 {
      i := 0;
    } else {
      i := RelaxableOnLoop(edges, dist, walks, steps, c, js, y, k - 1);
      if i == k - 1 {
        var e := c[k - 1];
        WalkSplit(edges, c, y, y, k);
        assert c[..k][..k - 1] == c[..k - 1] && e == edges[js[k - 1]];
        WalkSplit(edges, c, y, y, k - 1);
        WalkEnd(edges, c[..k - 1], y, e.src, NodeAt(c, y, k - 1));
        ExactAdd(edges, dist, walks, y, steps, e);
        if !Relaxable(dist, e) { i := k; }
      }
    }
  }

  lemma WalkEnd(edges: seq<PriceEdge>, w: seq<PriceEdge>, s: nat, u: nat, v: nat)
    requires Walk(edges, w, s, u) && Walk(edges, w, s, v)
    ensures u == v
  {}

  // ── Walking back never stops ─────────────────────────────────────

  ghost predicate Reached(dist: seq<int>, v: nat)
  {
    v < |dist| && dist[v] < INFINITE
  }

  /** When the start's own distance has become negative, every reached node has a reached predecessor. */
  lemma HasPredecessor(edges: seq<PriceEdge>, dist: seq<int>, pred: seq<Pred>, t: Trace, s: nat, v: nat)
    requires TraceOk(edges, dist, pred, t) && Rooted(dist, t, s) && s < |dist| && dist[s] < 0 && |dist| <= MAX_TOKENS
    requires Reached(dist, v) && NoSelfEdges(edges)
    ensures pred[v].node != NO_NODE && Reached(dist, pred[v].node) && pred[v].node != v
  {
    assert NodeOk(edges, dist, pred, t, v);
    var e := t.rec[v];
    assert t.has[v];
    var i :| 0 <= i < |edges| && edges[i] == e;
  }

  lemma {:induction false} BackContinues(edges: seq<PriceEdge>, dist: seq<int>, pred: seq<Pred>, t: Trace, s: nat, v: nat, k: nat)
    requires TraceOk(edges, dist, pred, t) && Rooted(dist, t, s) && s < |dist| && dist[s] < 0 && |dist| <= MAX_TOKENS
    requires Reached(dist, v) && NoSelfEdges(edges)
    ensures Back(pred, v, k).Some? && Reached(dist, Back(pred, v, k).value)
  {
    if k > 0 {
      BackContinues(edges, dist, pred, t, s, v, k - 1);
      HasPredecessor(edges, dist, pred, t, s, Back(pred, v, k - 1).value);
    }
  }

  lemma {:induction false} BackAdds(pred: seq<Pred>, v: nat, a: nat, b: nat)
    requires Back(pred, v, a).Some?
    ensures Back(pred, v, a + b) == Back(pred, Back(pred, v, a).value, b)
    decreases b
  {
    if b > 0 { BackAdds(pred, v, a, b - 1); }
  }

  /** and n steps back have entered a cycle of at least 2 and at most n nodes. */
  lemma BackEntersCycle(edges: seq<PriceEdge>, dist: seq<int>, pred: seq<Pred>, t: Trace, s: nat, v: nat, maxHops: nat)
    requires TraceOk(edges, dist, pred, t) && Rooted(dist, t, s) && s < |dist| && dist[s] < 0 && |dist| <= MAX_TOKENS
    requires Reached(dist, v) && NoSelfEdges(edges) && |dist| <= maxHops + 1
    ensures Traceable(pred, v, |dist|, maxHops)
  {
    var n := |dist|;
    forall k: nat ensures Back(pred, v, k).Some? && Reached(dist, Back(pred, v, k).value) {
      BackContinues(edges, dist, pred, t, s, v, k);
    }
    var nodes := seq(n + 1, k requires 0 <= k <= n => Back(pred, v, k).value);
    var i, j := Pigeonhole(nodes, n);
    var c, l := Back(pred, v, n).value, j - i;
    assert nodes[i] == Back(pred, v, i).value && nodes[j] == Back(pred, v, j).value;
    // from position i on the nodes repeat with period l
    BackAdds(pred, v, i, n - i);
    BackAdds(pred, v, j, n - i);
    BackAdds(pred, v, n, l);
    assert Back(pred, c, l) == Some(c);
    HasPredecessor(edges, dist, pred, t, s, c);
    assert Back(pred, c, 0) == Some(c);
    assert Back(pred, c, 1) == Some(pred[c].node);
    assert l != 1;
  }

  // ── The theorem ──────────────────────────────────────────────────

  /** From a good start the run reports an edge of the loop. */
  lemma LoopIsReported(edges: seq<PriceEdge>, n: nat, maxHops: nat, c: seq<PriceEdge>, js: seq<nat>, y: nat)
    returns (i: nat)
    requires WellFormed(edges, n) && n <= MAX_TOKENS && n <= maxHops + 1 && TameFor(edges, n) && NoSelfEdges(edges)
    requires y < n && NegativeLoop(edges, c, y) && |c| <= n && Placed(edges, c, js) && Rounds(js) <= n - 1
    ensures y < MAX_TOKENS && Reports(edges, n, maxHops, y, i)
  {
    hide Invariant, Covered, Sound, Traceable, RunOf, TameFor, Walk, WalkSum, Placed, NodeAt;
    var t, steps := RunFacts(edges, n, y, maxHops, c);
    var r := RunOf(edges, n, y, maxHops);
    forall k | 0 <= k <= |c| ensures NodeAt(c, y, k) < n && r.dist[NodeAt(c, y, k)] < INFINITE {
      LoopIsCovered(edges, r.dist, n, c, js, y, k);
    }
    LoopIsCovered(edges, r.dist, n, c, js, y, |c|);
    LoopEnds(edges, c, y);
    var k := RelaxableOnLoop(edges, r.dist, t.walks, steps, c, js, y, |c|);
    assert k < |c|;
    BackEntersCycle(edges, r.dist, r.pred, t, y, edges[js[k]].dst, maxHops);
    i := js[k];
  }

  lemma LoopEnds(edges: seq<PriceEdge>, c: seq<PriceEdge>, y: nat)
    requires Walk(edges, c, y, y)
    ensures NodeAt(c, y, |c|) == y && c[..|c|] == c
  {}

  lemma RunFacts(edges: seq<PriceEdge>, n: nat, s: nat, maxHops: nat, c: seq<PriceEdge>) returns (t: Trace, steps: nat)
    requires WellFormed(edges, n) && s < n <= maxHops + 1 && TameFor(edges, n) && NegativeLoop(edges, c, s)
    ensures var r := RunOf(edges, n, s, maxHops);
            && TraceOk(edges, r.dist, r.pred, t) && Rooted(r.dist, t, s) && Covered(edges, r.dist, s, n, n - 1, 0)
            && Witnessed(edges, r.dist, t.walks, s, steps) && Tame(edges, steps) && Tame(edges, n)
  {
    hide Covered, Sound, Passes;
    t := RunInvariant(edges, n, s, n - 1);
    assert Walk(edges, [], s, s);
    assert NegativeCycleAt(edges, s, [], c, s);
    PassCountBelow(n, |edges|);
    var r := RunOf(edges, n, s, maxHops);
    SoundIsWitnessed(edges, r.dist, t.walks, s, (n - 1) * |edges|, n);
    steps := Steps(edges, n, s, (n - 1) * |edges|);
  }

  /** Up to 512 tokens, with enough hops, weights that cannot saturate and no edge from a token to itself, the
      search returns something if and only if the graph has a negative cycle. */
  lemma FindsExactly(edges: seq<PriceEdge>, n: nat, cycles: seq<ArbCycle>, maxHops: nat)
    requires Detected(edges, n, cycles, maxHops)
    requires n <= MAX_TOKENS && n <= maxHops + 1 && TameFor(edges, n) && NoSelfEdges(edges)
    ensures cycles != [] <==> exists c, x :: NegativeLoop(edges, c, x)
  {
    if cycles != [] {
      DetectedParts(edges, n, cycles, maxHops);
      assert IsGood(edges, cycles[0], maxHops);
      var hops :| GoodCycle(edges, cycles[0], hops, maxHops);
      GoodCycleIsWalk(edges, cycles[0], hops, maxHops);
      assert NegativeLoop(edges, hops, cycles[0].path[0]);
    }
    if c, x :| NegativeLoop(edges, c, x) {
      LoopInRange(edges, n, c, x);
      var c', x' := ShortLoop(edges, n, c, x);
      var c'', js, y := GoodStart(edges, n, c', x');
      var i := LoopIsReported(edges, n, maxHops, c'', js, y);
      var d, a := ReportIsReturned(edges, n, cycles, maxHops, Origin(y, i));
    }
  }

  lemma LoopInRange(edges: seq<PriceEdge>, n: nat, c: seq<PriceEdge>, x: nat)
    requires WellFormed(edges, n) && NegativeLoop(edges, c, x)
    ensures x < n
  {
    var e := c[|c| - 1];
    var i :| 0 <= i < |edges| && edges[i] == e;
  }

  /** A self-edge is a negative cycle of its own, and a graph that has no other node reports none. */
  lemma SelfEdgeIsMissed(e: PriceEdge, cycles: seq<ArbCycle>, maxHops: nat)
    requires e.src == e.dst == 0 && e.weight < 0 && Detected([e], 1, cycles, maxHops)
    ensures cycles == [] && NegativeLoop([e], [e], 0)
  {
    forall s: nat, i: nat ensures !Reports([e], 1, maxHops, s, i) {
      if s < 1 {
        var pred := RunOf([e], 1, s, maxHops).pred;
        assert Back(pred, 0, 0) == Some(0);
        assert Back(pred, 0, 1) == None;
      }
    }
    NothingReported([e], 1, cycles, maxHops);
    assert [e][..0] == [];
  }
}
