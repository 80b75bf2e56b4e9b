/** Bounded Bellman-Ford as a function of the graph, and what every run of it keeps. */
module Relaxation {
  import opened Arith
  import opened GraphTheory

  const NO_NODE: nat := 65535           // u16::MAX

  datatype Pred = Pred(node: nat, pool: nat, xToY: bool)

  const NO_PRED := Pred(NO_NODE, NO_NODE, false)

  /** Distances and predecessors. */
  datatype Run = Run(dist: seq<int>, pred: seq<Pred>)

  ghost predicate Shaped(edges: seq<PriceEdge>, r: Run)
  {
    |r.pred| == |r.dist| && WellFormed(edges, |r.dist|)
  }

  // ── The run from one source ──────────────────────────────────────

  function Start(n: nat, s: nat): (r: Run)
    ensures |r.dist| == |r.pred| == n
  {
    Run(seq(n, v => if v == s then 0 else INFINITE), seq(n, _ => NO_PRED))
  }

  function Relaxed(r: Run, e: PriceEdge): (r': Run)
    requires e.src < |r.dist| == |r.pred| && e.dst < |r.dist|
    ensures |r'.dist| == |r'.pred| == |r.dist|
  {
    if Relaxable(r.dist, e) then
      Run(r.dist[e.dst := SaturatingAdd(r.dist[e.src], e.weight)], r.pred[e.dst := Pred(e.src, e.poolIdx, e.xToY)])
    else r
  }

  /** After the first j edges of a pass. */
  ghost function PassTo(edges: seq<PriceEdge>, r: Run, j: nat): (r': Run)
    requires Shaped(edges, r) && j <= |edges|
    ensures Shaped(edges, r') && |r'.dist| == |r.dist|
  {
    if j == 0 then r else Relaxed(PassTo(edges, r, j - 1), edges[j - 1])
  }

  ghost function Passes(edges: seq<PriceEdge>, r: Run, k: nat): (r': Run)
    requires Shaped(edges, r)
    ensures Shaped(edges, r') && |r'.dist| == |r.dist|
  {
    if k == 0 then r else PassTo(edges, Passes(edges, r, k - 1), |edges|)
  }

  /** k passes are all that a limit of maxHops allows, or all that n nodes need, or the last of them changed nothing. */
  ghost predicate Enough(edges: seq<PriceEdge>, r: Run, k: nat, n: nat, maxHops: nat)
    requires Shaped(edges, r)
  {
    k == maxHops || k == n - 1 || (k > 0 && Passes(edges, r, k) == Passes(edges, r, k - 1))
  }

  ghost function RunOf(edges: seq<PriceEdge>, n: nat, s: nat, maxHops: nat): (r: Run)
    requires s < n && WellFormed(edges, n)
    ensures Shaped(edges, r) && |r.dist| == n
  {
    Passes(edges, Start(n, s), if n - 1 < maxHops then n - 1 else maxHops)
  }

  /** However many passes are made, within both limits and enough, they leave the same tables. */
  lemma EnoughIsAll(edges: seq<PriceEdge>, n: nat, s: nat, maxHops: nat, k: nat)
    requires s < n && WellFormed(edges, n) && k <= maxHops && k <= n - 1 && Enough(edges, Start(n, s), k, n, maxHops)
    ensures Passes(edges, Start(n, s), k) == RunOf(edges, n, s, maxHops)
  {
    hide PassTo;
    if k != maxHops && k != n - 1 {
      PassesFixed(edges, Start(n, s), k - 1, if n - 1 < maxHops then n - 1 else maxHops);
    }
  }

  /** A pass that changes nothing ends the search: no later pass changes anything. */
  lemma {:induction false} PassesFixed(edges: seq<PriceEdge>, r: Run, i: nat, k: nat)
    requires Shaped(edges, r) && i <= k && Passes(edges, r, i + 1) == Passes(edges, r, i)
    ensures Passes(edges, r, k) == Passes(edges, r, i)
    decreases k
  {
    if i < k { PassesFixed(edges, r, i, k - 1); }
  }

  lemma {:induction false} PassLowers(edges: seq<PriceEdge>, r: Run, j: nat, v: nat)
    requires Shaped(edges, r) && j <= |edges| && v < |r.dist|
    ensures PassTo(edges, r, j).dist[v] <= r.dist[v]
  {
    if j > 0 { PassLowers(edges, r, j - 1, v); }
  }

  // ── How far the passes reach ─────────────────────────────────────

  /** The path 0, 1, ..., n - 1, its edges listed from the far end, none of positive weight. */
  ghost predicate PathFromFarEnd(edges: seq<PriceEdge>, n: nat)
  {
    && |edges| + 1 == n
    && forall j: nat :: j < |edges| ==> edges[j].src + j + 2 == n && edges[j].dst == edges[j].src + 1 && edges[j].weight <= 0
  }

  /** Nodes up to k are reached, and node k + 1 too when its edge is among the first j. */
  ghost predicate ReachedTo(dist: seq<int>, k: nat, j: nat)
  {
    forall v: nat :: v < |dist| ==>
      dist[v] <= INFINITE && (dist[v] < INFINITE <==> v <= k || (v == k + 1 && v + j >= |dist|))
  }

  lemma {:induction false} PassReaches(edges: seq<PriceEdge>, n: nat, r: Run, k: nat, j: nat)
    requires PathFromFarEnd(edges, n) && Shaped(edges, r) && |r.dist| == n && ReachedTo(r.dist, k, 0) && j <= |edges|
    ensures ReachedTo(PassTo(edges, r, j).dist, k, j)
  {
    if j > 0 {
      PassReaches(edges, n, r, k, j - 1);
      EdgeReaches(PassTo(edges, r, j - 1), edges[j - 1], k, j - 1);
    }
  }

  lemma EdgeReaches(r: Run, e: PriceEdge, k: nat, j: nat)
    requires |r.pred| == |r.dist| && e.src + j + 2 == |r.dist| && e.dst == e.src + 1 && e.weight <= 0
    requires ReachedTo(r.dist, k, j)
    ensures ReachedTo(Relaxed(r, e).dist, k, j + 1)
  {}

  lemma {:induction false} PassesReach(edges: seq<PriceEdge>, n: nat, k: nat)
    requires PathFromFarEnd(edges, n) && WellFormed(edges, n) && n > 0
    ensures ReachedTo(Passes(edges, Start(n, 0), k).dist, k, 0)
  {
    hide PassTo;
    if k > 0 {
      PassesReach(edges, n, k - 1);
      PassReaches(edges, n, Passes(edges, Start(n, 0), k - 1), k - 1, |edges|);
    }
  }

  /** One edge a pass: on such a path exactly the nodes within maxHops edges of the source are reached. */
  lemma ReachesMaxHops(edges: seq<PriceEdge>, n: nat, maxHops: nat, v: nat)
    requires PathFromFarEnd(edges, n) && WellFormed(edges, n) && v < n
    ensures RunOf(edges, n, 0, maxHops).dist[v] < INFINITE <==> v <= maxHops
  {
    hide Passes;
    PassesReach(edges, n, if n - 1 < maxHops then n - 1 else maxHops);
  }

  /** The same path, its edges listed from the near end. */
  ghost predicate PathFromNearEnd(edges: seq<PriceEdge>, n: nat)
  {
    && |edges| + 1 == n
    && forall j: nat :: j < |edges| ==> edges[j].src == j && edges[j].dst == j + 1 && edges[j].weight <= 0
  }

  lemma {:induction false} PassRunsAhead(edges: seq<PriceEdge>, n: nat, r: Run, j: nat)
    requires PathFromNearEnd(edges, n) && Shaped(edges, r) && |r.dist| == n && j <= |edges|
    requires r.dist[0] < INFINITE && forall v :: 0 <= v < n ==> r.dist[v] <= INFINITE
    ensures forall v :: 0 <= v <= j ==> PassTo(edges, r, j).dist[v] < INFINITE
    ensures forall v :: 0 <= v < n ==> PassTo(edges, r, j).dist[v] <= INFINITE
  {
    if j > 0 { PassRunsAhead(edges, n, r, j - 1); }
  }

  /** There a single pass reaches every node: each edge sees what the ones before it did in the same pass. */
  lemma OnePassReachesAll(edges: seq<PriceEdge>, n: nat, maxHops: nat, v: nat)
    requires PathFromNearEnd(edges, n) && WellFormed(edges, n) && v < n && maxHops > 0
    ensures RunOf(edges, n, 0, maxHops).dist[v] < INFINITE
  {
    var k := if n - 1 < maxHops then n - 1 else maxHops;
    PassRunsAhead(edges, n, Start(n, 0), |edges|);
    if k > 0 { PassesLower(edges, Start(n, 0), 1, k, v); }
  }

  lemma {:induction false} PassesLower(edges: seq<PriceEdge>, r: Run, i: nat, k: nat, v: nat)
    requires Shaped(edges, r) && i <= k && v < |r.dist|
    ensures Passes(edges, r, k).dist[v] <= Passes(edges, r, i).dist[v]
    decreases k
  {
    hide PassTo;
    if i < k {
      PassesLower(edges, r, i, k - 1, v);
      PassLowers(edges, Passes(edges, r, k - 1), |edges|, v);
    }
  }

  // ── What relaxation keeps ────────────────────────────────────────

  /** Ghost history of the relaxations: the edge that last set each distance, when it did, and a walk
      of that weight from the source node. */
  datatype Trace = Trace(has: seq<bool>, rec: seq<PriceEdge>, time: seq<nat>, clock: nat, walks: seq<seq<PriceEdge>>)

  /** The recorded edge of v still bounds its distance; strictly, once the edge's tail was set later than v. */
  ghost predicate NodeOk(edges: seq<PriceEdge>, dist: seq<int>, pred: seq<Pred>, t: Trace, v: nat)
    requires v < |dist| == |pred| == |t.has| == |t.rec| == |t.time|
  {
    var e := t.rec[v];
    && t.time[v] <= t.clock && dist[v] <= INFINITE
    && if t.has[v] then
         && e in edges && e.dst == v && e.src < |dist| && pred[v] == Pred(e.src, e.poolIdx, e.xToY)
         && dist[v] >= dist[e.src] + e.weight && dist[e.src] < INFINITE
         && (t.time[e.src] >= t.time[v] ==> dist[v] > dist[e.src] + e.weight)
       else pred[v] == NO_PRED
  }

  ghost predicate TraceOk(edges: seq<PriceEdge>, dist: seq<int>, pred: seq<Pred>, t: Trace)
  {
    && |dist| == |pred| == |t.has| == |t.rec| == |t.time|
    && forall v :: 0 <= v < |dist| ==> NodeOk(edges, dist, pred, t, v)
  }

  /** A distance without a recorded edge is the initial one. */
  ghost predicate Rooted(dist: seq<int>, t: Trace, s: nat)
  {
    |t.has| == |dist| && forall v :: 0 <= v < |dist| && !t.has[v] ==> dist[v] == if v == s then 0 else INFINITE
  }

  ghost function AfterRelax(t: Trace, e: PriceEdge): (t': Trace)
    requires e.dst < |t.has| == |t.rec| == |t.time| == |t.walks| && e.src < |t.walks|
  {
    Trace(t.has[e.dst := true], t.rec[e.dst := e], t.time[e.dst := t.clock + 1], t.clock + 1,
          t.walks[e.dst := t.walks[e.src] + [e]])
  }

  /** One relaxation keeps the history consistent, saturation included. */
  lemma RelaxKeepsTrace(edges: seq<PriceEdge>, dist: seq<int>, pred: seq<Pred>, t: Trace, e: PriceEdge, s: nat)
    requires TraceOk(edges, dist, pred, t) && Rooted(dist, t, s) && |t.walks| == |dist|
    requires e in edges && e.src < |dist| && e.dst < |dist| && Relaxable(dist, e)
    ensures TraceOk(edges, dist[e.dst := SaturatingAdd(dist[e.src], e.weight)],
                    pred[e.dst := Pred(e.src, e.poolIdx, e.xToY)], AfterRelax(t, e))
    ensures Rooted(dist[e.dst := SaturatingAdd(dist[e.src], e.weight)], AfterRelax(t, e), s)
  {
    hide Pow;
    var u, v := e.src, e.dst;
    var d', p', t' := dist[v := SaturatingAdd(dist[u], e.weight)], pred[v := Pred(u, e.poolIdx, e.xToY)], AfterRelax(t, e);
    assert NodeOk(edges, dist, pred, t, v) && NodeOk(edges, dist, pred, t, u);
    forall x | 0 <= x < |dist| ensures NodeOk(edges, d', p', t', x) {
      assert NodeOk(edges, dist, pred, t, x);
    }
  }

  /** Without saturation: every finite distance is the weight of a walk of at most `steps` edges. */
  lemma RelaxKeepsWitness(edges: seq<PriceEdge>, dist: seq<int>, walks: seq<seq<PriceEdge>>, s: nat, steps: nat, e: PriceEdge)
    requires Witnessed(edges, dist, walks, s, steps) && Tame(edges, steps) && e in edges
    requires e.src < |dist| && e.dst < |dist| && Relaxable(dist, e)
    ensures Witnessed(edges, dist[e.dst := SaturatingAdd(dist[e.src], e.weight)],
                      walks[e.dst := walks[e.src] + [e]], s, steps + 1)
  {
    var d', w' := dist[e.dst := SaturatingAdd(dist[e.src], e.weight)], walks[e.dst := walks[e.src] + [e]];
    ExactAdd(edges, dist, walks, s, steps, e);
    forall v | 0 <= v < |dist| ensures WitnessedAt(edges, d'[v], w'[v], s, v, steps + 1) {
      assert WitnessedAt(edges, dist[v], walks[v], s, v, steps);
      assert WitnessedAt(edges, dist[e.src], walks[e.src], s, e.src, steps);
      if v == e.dst { assert w'[v][..|w'[v]| - 1] == walks[e.src]; }
    }
  }

  // ── The invariant of a run ───────────────────────────────────────

  /** `passes` passes of relaxations stay clear of saturation. */
  ghost predicate TameFor(edges: seq<PriceEdge>, passes: nat)
  {
    passes * |edges| >= 0 && Tame(edges, passes * |edges|) && Tame(edges, passes)
  }

  /** No addition saturates: weights of n edges are enough, unless a negative cycle keeps lowering distances. */
  ghost predicate Unsaturated(edges: seq<PriceEdge>, n: nat, s: nat)
  {
    if NegativeCycleReachable(edges, s) then TameFor(edges, n) else Tame(edges, n)
  }

  /** Distances are weights of walks: after c relaxations of at most c edges; without a reachable negative
      cycle the walks are simple. */
  ghost predicate Sound(edges: seq<PriceEdge>, dist: seq<int>, walks: seq<seq<PriceEdge>>, s: nat, c: nat)
  {
    if NegativeCycleReachable(edges, s) then Witnessed(edges, dist, walks, s, c)
    else |dist| > 0 && Witnessed(edges, dist, walks, s, |dist| - 1) && Kept(dist, walks, s)
  }

  /** After k passes and j edges, c edges in all. */
  ghost predicate Invariant(edges: seq<PriceEdge>, n: nat, s: nat, r: Run, t: Trace, c: nat, k: nat, j: nat)
  {
    && s < n == |r.dist| == |t.walks| && Shaped(edges, r) && TraceOk(edges, r.dist, r.pred, t) && Rooted(r.dist, t, s)
    && r.dist[s] <= 0
    && (Unsaturated(edges, n, s) ==> Sound(edges, r.dist, t.walks, s, c) && Covered(edges, r.dist, s, n, k, j))
  }

  lemma SoundStep(edges: seq<PriceEdge>, dist: seq<int>, walks: seq<seq<PriceEdge>>, s: nat, c: nat, e: PriceEdge)
    requires Sound(edges, dist, walks, s, c) && WellFormed(edges, |dist|) && e in edges && s < |dist| == |walks|
    requires if NegativeCycleReachable(edges, s) then Tame(edges, c) else Tame(edges, |dist| - 1)
    requires e.src < |dist| && e.dst < |dist| && Relaxable(dist, e)
    ensures Sound(edges, dist[e.dst := SaturatingAdd(dist[e.src], e.weight)],
                  walks[e.dst := walks[e.src] + [e]], s, c + 1)
  {
    var u, v, n := e.src, e.dst, |dist|;
    var d', w' := dist[v := SaturatingAdd(dist[u], e.weight)], walks[v := walks[u] + [e]];
    if NegativeCycleReachable(edges, s) {
      RelaxKeepsWitness(edges, dist, walks, s, c, e);
    } else {
      RelaxKeepsWitness(edges, dist, walks, s, n - 1, e);
      KeptStep(edges, dist, walks, s, n - 1, e);
      SimpleIsShort(d', walks[u] + [e], s);
      StillWitnessed(edges, dist, d', walks, w', s, n - 1, v);
    }
  }

  lemma StillWitnessed(edges: seq<PriceEdge>, dist: seq<int>, dist': seq<int>, walks: seq<seq<PriceEdge>>,
                       walks': seq<seq<PriceEdge>>, s: nat, steps: nat, v: nat)
    requires Witnessed(edges, dist, walks, s, steps) && Witnessed(edges, dist', walks', s, steps + 1)
    requires v < |dist| == |dist'| && dist' == dist[v := dist'[v]] && walks' == walks[v := walks'[v]]
    requires |walks'[v]| <= steps
    ensures Witnessed(edges, dist', walks', s, steps)
  {
    forall x | 0 <= x < |dist| ensures WitnessedAt(edges, dist'[x], walks'[x], s, x, steps) {
      assert WitnessedAt(edges, dist[x], walks[x], s, x, steps) && WitnessedAt(edges, dist'[x], walks'[x], s, x, steps + 1);
    }
  }

  lemma SoundMore(edges: seq<PriceEdge>, dist: seq<int>, walks: seq<seq<PriceEdge>>, s: nat, c: nat)
    requires Sound(edges, dist, walks, s, c)
    ensures Sound(edges, dist, walks, s, c + 1)
  {
    if NegativeCycleReachable(edges, s) {
      forall v | 0 <= v < |dist| ensures WitnessedAt(edges, dist[v], walks[v], s, v, c + 1) {
        assert WitnessedAt(edges, dist[v], walks[v], s, v, c);
      }
    }
  }

  /** What bound on the walks is in force. */
  ghost function Steps(edges: seq<PriceEdge>, n: nat, s: nat, c: nat): nat
    requires n > 0
  {
    if NegativeCycleReachable(edges, s) then c else n - 1
  }

  lemma SoundIsWitnessed(edges: seq<PriceEdge>, dist: seq<int>, walks: seq<seq<PriceEdge>>, s: nat, c: nat, n: nat)
    requires Sound(edges, dist, walks, s, c) && Unsaturated(edges, n, s) && |dist| == n > 0 && c <= n * |edges|
    ensures Witnessed(edges, dist, walks, s, Steps(edges, n, s, c))
    ensures Tame(edges, Steps(edges, n, s, c)) && Tame(edges, n)
  {
    if NegativeCycleReachable(edges, s) {
      TameLess(edges, c, n * |edges|);
    } else {
      TameLess(edges, n - 1, n);
    }
  }

  lemma InvariantStep(edges: seq<PriceEdge>, n: nat, s: nat, r: Run, t: Trace, c: nat, k: nat, j: nat) returns (t': Trace)
    requires Invariant(edges, n, s, r, t, c, k, j) && j < |edges| && c <= n * |edges|
    ensures edges[j].src < n && edges[j].dst < n
    ensures Invariant(edges, n, s, Relaxed(r, edges[j]), t', c + 1, k, j + 1)
  {
    hide Sound, Covered, NodeOk, Unsaturated, Tame;
    var e := edges[j];
    t' := if Relaxable(r.dist, e) then AfterRelax(t, e) else t;
    if Relaxable(r.dist, e) { RelaxKeepsTrace(edges, r.dist, r.pred, t, e, s); }
    if Unsaturated(edges, n, s) {
      SoundIsWitnessed(edges, r.dist, t.walks, s, c, n);
      CoverStep(edges, r.dist, Relaxed(r, e).dist, t.walks, s, Steps(edges, n, s, c), n, k, j);
      if Relaxable(r.dist, e) { SoundStep(edges, r.dist, t.walks, s, c, e); } else { SoundMore(edges, r.dist, t.walks, s, c); }
    }
  }

  lemma {:induction false} PassInvariant(edges: seq<PriceEdge>, n: nat, s: nat, r: Run, t: Trace, c: nat, k: nat, j: nat)
    returns (t': Trace)
    requires Invariant(edges, n, s, r, t, c, k, 0) && j <= |edges| && c + j <= n * |edges|
    ensures Invariant(edges, n, s, PassTo(edges, r, j), t', c + j, k, j)
  {
    hide Invariant;
    InvariantShape(edges, n, s, r, t, c, k, 0);
    if j == 0 {
      t' := t;
    } else {
      t' := PassInvariant(edges, n, s, r, t, c, k, j - 1);
      t' := InvariantStep(edges, n, s, PassTo(edges, r, j - 1), t', c + j - 1, k, j - 1);
    }
  }

  lemma InvariantShape(edges: seq<PriceEdge>, n: nat, s: nat, r: Run, t: Trace, c: nat, k: nat, j: nat)
    requires Invariant(edges, n, s, r, t, c, k, j)
    ensures s < n == |r.dist| && Shaped(edges, r) && WellFormed(edges, n)
  {}

  /** A whole pass met: every position is below the length of the list. */
  lemma PassDone(edges: seq<PriceEdge>, n: nat, s: nat, r: Run, t: Trace, c: nat, k: nat)
    requires Invariant(edges, n, s, r, t, c, k, |edges|)
    ensures Invariant(edges, n, s, r, t, c, k + 1, 0)
  {
    if Unsaturated(edges, n, s) {
      forall es: seq<PriceEdge>, js: seq<nat>, v: nat
        | v < |r.dist| && |es| <= n && Walk(edges, es, s, v) && Placed(edges, es, js) && InTime(js, k + 1, 0)
        ensures r.dist[v] <= WalkSum(es)
      {
        assert InTime(js, k, |edges|);
      }
    }
  }

  /** What holds after k passes, whether or not anything saturates. */
  lemma {:induction false} RunInvariant(edges: seq<PriceEdge>, n: nat, s: nat, k: nat) returns (t: Trace)
    requires WellFormed(edges, n) && s < n && k <= n
    ensures k * |edges| >= 0 && Invariant(edges, n, s, Passes(edges, Start(n, s), k), t, k * |edges|, k, 0)
  {
    hide Invariant;
    if k == 0 {
      t := StartInvariant(edges, n, s);
    } else {
      t := RunInvariant(edges, n, s, k - 1);
      PassCount(k, n, |edges|);
      t := PassInvariant(edges, n, s, Passes(edges, Start(n, s), k - 1), t, (k - 1) * |edges|, k - 1, |edges|);
      PassDone(edges, n, s, Passes(edges, Start(n, s), k), t, k * |edges|, k - 1);
    }
  }

  lemma PassCount(k: nat, n: nat, m: nat)
    requires 0 < k <= n
    ensures 0 <= (k - 1) * m && (k - 1) * m + m == k * m <= n * m
  {
    MulMonotone(k, n, m);
    MulMonotone(0, k - 1, m);
  }

  lemma StartInvariant(edges: seq<PriceEdge>, n: nat, s: nat) returns (t: Trace)
    requires WellFormed(edges, n) && s < n
    ensures Invariant(edges, n, s, Start(n, s), t, 0, 0, 0)
  {
    hide Sound, Covered, NodeOk, Unsaturated;
    t := Trace(seq(n, _ => false), seq(n, _ => PriceEdge(0, 0, 0, 0, false)), seq(n, _ => 0), 0, seq(n, _ => []));
    var r := Start(n, s);
    forall v | 0 <= v < n ensures NodeOk(edges, r.dist, r.pred, t, v) { StartNode(edges, r, t, n, s, v); }
    StartSound(edges, r.dist, t.walks, n, s);
    StartCovered(edges, r.dist, n, s);
  }

  lemma StartNode(edges: seq<PriceEdge>, r: Run, t: Trace, n: nat, s: nat, v: nat)
    requires r == Start(n, s) && v < n == |t.has| == |t.rec| == |t.time| && !t.has[v] && t.time[v] == 0
    ensures NodeOk(edges, r.dist, r.pred, t, v)
  {}

  lemma StartSound(edges: seq<PriceEdge>, dist: seq<int>, walks: seq<seq<PriceEdge>>, n: nat, s: nat)
    requires s < n == |walks| && dist == Start(n, s).dist && forall v :: 0 <= v < n ==> walks[v] == []
    ensures Sound(edges, dist, walks, s, 0)
  {
    forall v | 0 <= v < n
      ensures WitnessedAt(edges, dist[v], walks[v], s, v, 0) && WitnessedAt(edges, dist[v], walks[v], s, v, n - 1)
      ensures KeptAt(dist, walks[v], s)
    {}
  }

  lemma StartCovered(edges: seq<PriceEdge>, dist: seq<int>, n: nat, s: nat)
    requires s < n && dist == Start(n, s).dist
    ensures Covered(edges, dist, s, n, 0, 0)
  {
    forall es: seq<PriceEdge>, js: seq<nat>, v: nat
      | v < |dist| && |es| <= n && Walk(edges, es, s, v) && Placed(edges, es, js) && InTime(js, 0, 0)
      ensures dist[v] <= WalkSum(es)
    {
      NoRounds(js);
    }
  }

  lemma {:induction false} NoRounds(js: seq<nat>)
    requires Rounds(js) == 0
    ensures js == []
  {
    if |js| > 1 { NoRounds(js[..|js| - 1]); }
  }

  // ── What a finished run says ─────────────────────────────────────

  /** With enough hops and weights that cannot saturate, something is still relaxable exactly when a
      negative cycle is reachable from the source node. */
  lemma RunDetects(edges: seq<PriceEdge>, n: nat, s: nat, maxHops: nat)
    requires WellFormed(edges, n) && s < n <= maxHops + 1 && Unsaturated(edges, n, s)
    ensures AnyRelaxable(edges, RunOf(edges, n, s, maxHops).dist) <==> NegativeCycleReachable(edges, s)
  {
    hide Sound, Covered, Unsaturated, Passes;
    var t := RunInvariant(edges, n, s, n - 1);
    var r := RunOf(edges, n, s, maxHops);
    PassCountBelow(n, |edges|);
    SoundIsWitnessed(edges, r.dist, t.walks, s, (n - 1) * |edges|, n);
    CoveredWalks(edges, r.dist, s, n, n - 1);
    DetectionExact(edges, r.dist, t.walks, s, Steps(edges, n, s, (n - 1) * |edges|));
  }

  lemma PassCountBelow(n: nat, m: nat)
    requires n > 0
    ensures 0 <= (n - 1) * m <= n * m
  {
    MulMonotone(n - 1, n, m);
    MulMonotone(0, n - 1, m);
  }

  /** Soundness alone asks for much less: n edges that do not saturate. */
  lemma QuietWithoutCycle(edges: seq<PriceEdge>, n: nat, s: nat, maxHops: nat)
    requires WellFormed(edges, n) && s < n <= maxHops + 1 && Tame(edges, n) && !NegativeCycleReachable(edges, s)
    ensures !AnyRelaxable(edges, RunOf(edges, n, s, maxHops).dist)
  {
    RunDetects(edges, n, s, maxHops);
  }

  /** and finding a cycle for weights that n passes cannot saturate. */
  lemma NoisyWithCycle(edges: seq<PriceEdge>, n: nat, s: nat, maxHops: nat)
    requires WellFormed(edges, n) && s < n <= maxHops + 1 && TameFor(edges, n) && NegativeCycleReachable(edges, s)
    ensures AnyRelaxable(edges, RunOf(edges, n, s, maxHops).dist)
  {
    RunDetects(edges, n, s, maxHops);
  }
}
