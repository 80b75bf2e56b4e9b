/** The price graph: token nodes, bounded Bellman-Ford from every source, and reconstruction of
    negative cycles from the predecessor table. */
module Graph {
  import opened Arith
  import opened GraphTheory
  import opened Wrappers

  import opened Relaxation

  const MAX_TOKENS: nat := 512

  datatype ArbCycle = ArbCycle(path: seq<nat>, poolIndices: seq<nat>, directions: seq<bool>, totalWeight: int)

  // ── Passes over the edges ────────────────────────────────────────

  method RelaxPass(edges: seq<PriceEdge>, dist: array<int>, pred: array<Pred>) returns (updated: bool)
    requires WellFormed(edges, dist.Length) && pred.Length == dist.Length
    modifies dist, pred
    ensures Run(dist[..], pred[..]) == PassTo(edges, Run(old(dist[..]), old(pred[..])), |edges|)
    ensures if updated then dist[..] != old(dist[..]) else dist[..] == old(dist[..]) && pred[..] == old(pred[..])
  {
    updated := false;
    ghost var r := Run(dist[..], pred[..]);
    ghost var lowered := 0;
    for j := 0 to |edges|
      invariant Run(dist[..], pred[..]) == PassTo(edges, r, j)
      invariant if updated then lowered < dist.Length && dist[lowered] < r.dist[lowered]
                else dist[..] == r.dist && pred[..] == r.pred
    {
      var edge := edges[j];
      var u, v := edge.src, edge.dst;
      ghost var before := Run(dist[..], pred[..]);
      if dist[u] < INFINITE {
        var newDist := SaturatingAdd(dist[u], edge.weight);
        if newDist < dist[v] {
          dist[v] := newDist;
          pred[v] := Pred(edge.src, edge.poolIdx, edge.xToY);
          updated, lowered := true, v;
          PassLowers(edges, r, j, v);
          assert dist[..] == before.dist[v := newDist];
          assert pred[..] == before.pred[v := Pred(edge.src, edge.poolIdx, edge.xToY)];
        }
      }
      assert Run(dist[..], pred[..]) == Relaxed(before, edge);
    }
  }

  /** At most n - 1 and at most maxHops passes, fewer only when the last of them changed nothing. */
  method BellmanFord(edges: seq<PriceEdge>, n: nat, source: nat, maxHops: nat)
    returns (dist: array<int>, pred: array<Pred>, ghost k: nat)
    requires source < n && WellFormed(edges, n)
    ensures fresh(dist) && fresh(pred) && dist.Length == pred.Length == n
    ensures Run(dist[..], pred[..]) == Passes(edges, Start(n, source), k)
    ensures k <= maxHops && k <= n - 1 && Enough(edges, Start(n, source), k, n, maxHops)
    ensures Run(dist[..], pred[..]) == RunOf(edges, n, source, maxHops)
  {
    hide PassTo;
    dist := new int[n](_ => INFINITE);
    pred := new Pred[n](_ => NO_PRED);
    dist[source] := 0;
    ghost var start := Start(n, source);
    assert dist[..] == start.dist && pred[..] == start.pred;
    k := 0;
    var iterations := if n - 1 < maxHops then n - 1 else maxHops;
    for i := 0 to iterations
      invariant dist.Length == pred.Length == n && k == i
      invariant Run(dist[..], pred[..]) == Passes(edges, start, k)
    {
      var updated := RelaxPass(edges, dist, pred);
      k := k + 1;
      if !updated { break; }
    }
    EnoughIsAll(edges, n, source, maxHops, k);
  }

  // ── Cycles ───────────────────────────────────────────────────────

  /** The running i32 total, saturating at every addition. */
  function SaturatedSum(hops: seq<PriceEdge>): int
  {
    if |hops| == 0 then 0 else SaturatingAdd(SaturatedSum(hops[..|hops| - 1]), hops[|hops| - 1].weight)
  }

  /** hops is the cheapest edge for each step of a simple closed cycle of negative total weight, and c reports it. */
  ghost predicate GoodCycle(edges: seq<PriceEdge>, c: ArbCycle, hops: seq<PriceEdge>, maxHops: nat)
  {
    && 2 <= |hops| <= maxHops + 1
    && |c.path| == |c.poolIndices| == |c.directions| == |hops|
    && (forall i, j :: 0 <= i < j < |c.path| ==> c.path[i] != c.path[j])
    && (forall i :: 0 <= i < |hops| ==> HopOk(edges, c, hops, i))
    && WalkSum(hops) < 0
    && c.totalWeight == SaturatedSum(hops)
  }

  ghost predicate HopOk(edges: seq<PriceEdge>, c: ArbCycle, hops: seq<PriceEdge>, i: nat)
    requires i < |c.path| == |c.poolIndices| == |c.directions| == |hops|
  {
    var next := if i + 1 < |c.path| then i + 1 else 0;
    && Cheapest(edges, hops[i]) && hops[i].src == c.path[i] && hops[i].dst == c.path[next]
    && c.poolIndices[i] == hops[i].poolIdx && c.directions[i] == hops[i].xToY
  }

  /** Edge j is no dearer than any edge between the same ends, and cheaper than those before it. */
  ghost predicate FirstCheapest(edges: seq<PriceEdge>, j: nat)
  {
    && j < |edges|
    && forall i :: 0 <= i < |edges| && edges[i].src == edges[j].src && edges[i].dst == edges[j].dst ==>
         edges[j].weight <= edges[i].weight && (i < j ==> edges[j].weight < edges[i].weight)
  }

  ghost predicate Cheapest(edges: seq<PriceEdge>, e: PriceEdge)
  {
    exists j: nat :: FirstCheapest(edges, j) && edges[j] == e
  }

  /** Such a cycle is a negative closed walk of the graph. */
  lemma GoodCycleIsWalk(edges: seq<PriceEdge>, c: ArbCycle, hops: seq<PriceEdge>, maxHops: nat)
    requires GoodCycle(edges, c, hops, maxHops)
    ensures Walk(edges, hops, c.path[0], c.path[0]) && |hops| > 0 && WalkSum(hops) < 0
  {
    HopsWalk(edges, c, hops, maxHops, |hops|);
    assert hops[..|hops|] == hops;
  }

  lemma {:induction false} HopsWalk(edges: seq<PriceEdge>, c: ArbCycle, hops: seq<PriceEdge>, maxHops: nat, k: nat)
    requires GoodCycle(edges, c, hops, maxHops) && k <= |hops|
    ensures Walk(edges, hops[..k], c.path[0], c.path[if k < |hops| then k else 0])
  {
    if k > 0 {
      HopsWalk(edges, c, hops, maxHops, k - 1);
      assert HopOk(edges, c, hops, k - 1);
      assert hops[..k][..k - 1] == hops[..k - 1];
    }
  }

  /** The reported total is the exact one when the hop weights together fit in 32 bits. */
  lemma {:induction false} TotalIsExact(edges: seq<PriceEdge>, hops: seq<PriceEdge>)
    requires forall i :: 0 <= i < |hops| ==> hops[i] in edges
    requires Times(MaxWeight(edges), |hops|) <= I32_MAX
    ensures SaturatedSum(hops) == WalkSum(hops)
    ensures 0 - Times(MaxWeight(edges), |hops|) <= WalkSum(hops) <= Times(MaxWeight(edges), |hops|)
  {
    if |hops| > 0 {
      var m, h := MaxWeight(edges), hops[..|hops| - 1];
      TimesStep(m, |h|);
      TotalIsExact(edges, h);
      var e := hops[|hops| - 1];
      assert hops[|hops| - 1] in edges;
      var i :| 0 <= i < |edges| && edges[i] == e;
      WeightBound(edges, i);
    }
  }

  // ── The predecessor walk ─────────────────────────────────────────

  ghost predicate Table(edges: seq<PriceEdge>, pred: seq<Pred>, n: nat)
  {
    |pred| == n && forall v :: 0 <= v < n && pred[v].node != NO_NODE ==> pred[v].node < n
  }

  lemma TableOk(edges: seq<PriceEdge>, dist: seq<int>, pred: seq<Pred>, t: Trace)
    requires TraceOk(edges, dist, pred, t)
    ensures Table(edges, pred, |pred|)
  {
    forall v | 0 <= v < |pred| && pred[v].node != NO_NODE ensures pred[v].node < |pred| {
      assert NodeOk(edges, dist, pred, t, v);
    }
  }

  /** walk follows predecessors, all of them present. */
  ghost predicate Chain(pred: seq<Pred>, walk: seq<nat>)
  {
    && (forall k :: 0 <= k < |walk| ==> walk[k] < |pred|)
    && forall k :: 0 <= k < |walk| - 1 ==> pred[walk[k]].node != NO_NODE && walk[k + 1] == pred[walk[k]].node
  }

  /** The node k predecessors back from v, if they all exist. */
  ghost function Back(pred: seq<Pred>, v: nat, k: nat): Option<nat>
  {
    if k == 0 then Some(v)
    else
      var u := Back(pred, v, k - 1);
      if u.None? || u.value >= |pred| || pred[u.value].node == NO_NODE then None else Some(pred[u.value].node)
  }

  lemma {:induction false} BackStops(pred: seq<Pred>, v: nat, k: nat, m: nat)
    requires k <= m && Back(pred, v, k).None?
    ensures Back(pred, v, m).None?
    decreases m
  {
    if k < m { BackStops(pred, v, k, m - 1); }
  }

  /** n steps back from start lie on a cycle of at least 2 and at most maxHops + 1 nodes. */
  ghost predicate Traceable(pred: seq<Pred>, start: nat, n: nat, maxHops: nat)
  {
    var c := Back(pred, start, n);
    c.Some? && Back(pred, c.value, 1) != c && exists l :: 2 <= l <= maxHops + 1 && Back(pred, c.value, l) == c
  }

  /** path runs, predecessors last to first, once around the cycle that n steps back from start have reached. */
  ghost predicate Follows(pred: seq<Pred>, start: nat, n: nat, path: seq<nat>)
  {
    var c := Back(pred, start, n);
    && c.Some? && |path| > 0 && Back(pred, c.value, |path|) == c
    && forall k: nat :: k < |path| ==> Back(pred, c.value, k) == Some(path[|path| - 1 - k])
  }

  /** v lies between positions i and j of the walk, where it repeats a node: a set closed under predecessors. */
  ghost predicate InLoop(pred: seq<Pred>, walk: seq<nat>, i: nat, j: nat, v: nat)
    requires i < j < |walk| && Chain(pred, walk) && walk[i] == walk[j]
  {
    exists k :: i <= k < j && walk[k] == v
  }

  lemma LoopClosed(pred: seq<Pred>, walk: seq<nat>, i: nat, j: nat, v: nat)
    requires i < j < |walk| && Chain(pred, walk) && walk[i] == walk[j] && InLoop(pred, walk, i, j, v)
    ensures v < |pred| && pred[v].node != NO_NODE && InLoop(pred, walk, i, j, pred[v].node)
  {
    var k :| i <= k < j && walk[k] == v;
    assert walk[k + 1] == pred[walk[k]].node;
    if k + 1 == j { assert walk[i] == pred[v].node; } else { assert walk[k + 1] == pred[v].node; }
  }

  lemma {:induction false} WalkStaysInLoop(pred: seq<Pred>, walk: seq<nat>, i: nat, j: nat, k: nat)
    requires i < j < |walk| && Chain(pred, walk) && walk[i] == walk[j] && i <= k < |walk|
    ensures InLoop(pred, walk, i, j, walk[k])
    decreases k
  {
    if k > i {
      WalkStaysInLoop(pred, walk, i, j, k - 1);
      LoopClosed(pred, walk, i, j, walk[k - 1]);
    }
  }

  /** raw follows predecessors from its first node, never meeting that node again, and closes after the last. */
  ghost predicate ClosedChain(pred: seq<Pred>, raw: seq<nat>)
  {
    && |raw| > 0 && Chain(pred, raw) && pred[raw[|raw| - 1]].node == raw[0] && pred[raw[|raw| - 1]].node != NO_NODE
    && forall k :: 1 <= k < |raw| ==> raw[k] != raw[0]
  }

  lemma {:induction false} FirstReturnIsSimple(pred: seq<Pred>, raw: seq<nat>, a: nat, b: nat)
    requires ClosedChain(pred, raw) && a < b < |raw|
    ensures raw[a] != raw[b]
    decreases |raw| - b
  {
    if raw[a] == raw[b] {
      NextNode(pred, raw, a);
      if b < |raw| - 1 {
        NextNode(pred, raw, b);
        FirstReturnIsSimple(pred, raw, a + 1, b + 1);
      }
    }
  }

  lemma NextNode(pred: seq<Pred>, raw: seq<nat>, k: nat)
    requires Chain(pred, raw) && k + 1 < |raw|
    ensures raw[k + 1] == pred[raw[k]].node
  {}

  /** Sum of recorded weights along the first k nodes of a predecessor chain. */
  ghost function RecordedSum(t: Trace, raw: seq<nat>, k: nat): int
    requires k <= |raw| && forall i :: 0 <= i < |raw| ==> raw[i] < |t.rec|
  {
    if k == 0 then 0 else RecordedSum(t, raw, k - 1) + t.rec[raw[k - 1]].weight
  }

  ghost function After(raw: seq<nat>, k: nat): nat
    requires 0 < |raw| && k <= |raw|
  {
    if k < |raw| then raw[k] else raw[0]
  }

  /** Distances telescope along the chain; equality all the way would make the set times decrease all the way. */
  lemma {:induction false} ChainTelescopes(edges: seq<PriceEdge>, dist: seq<int>, pred: seq<Pred>, t: Trace, raw: seq<nat>, k: nat)
    requires TraceOk(edges, dist, pred, t) && ClosedChain(pred, raw) && k <= |raw|
    ensures RecordedSum(t, raw, k) <= dist[raw[0]] - dist[After(raw, k)]
    ensures RecordedSum(t, raw, k) < dist[raw[0]] - dist[After(raw, k)]
         || k == 0 || t.time[After(raw, k)] < t.time[raw[0]]
  {
    if k > 0 {
      ChainTelescopes(edges, dist, pred, t, raw, k - 1);
      var v := raw[k - 1];
      assert NodeOk(edges, dist, pred, t, v);
      if k < |raw| { assert raw[k - 1 + 1] == pred[raw[k - 1]].node; }
      assert pred[v].node == After(raw, k);
    }
  }

  /** Every cycle of the predecessor table has negative recorded weight. */
  lemma PredecessorCycleIsNegative(edges: seq<PriceEdge>, dist: seq<int>, pred: seq<Pred>, t: Trace, raw: seq<nat>)
    requires TraceOk(edges, dist, pred, t) && ClosedChain(pred, raw)
    ensures RecordedSum(t, raw, |raw|) < 0
  {
    ChainTelescopes(edges, dist, pred, t, raw, |raw|);
  }

  // ── Reconstruction ───────────────────────────────────────────────

  /** The first cheapest edge from src to dst. */
  method BestEdge(edges: seq<PriceEdge>, src: nat, dst: nat) returns (best: Option<PriceEdge>)
    ensures IsBest(edges, best, src, dst)
  {
    best := None;
    ghost var at := 0;
    for j := 0 to |edges|
      invariant best.None? <==> forall i :: 0 <= i < j ==> !(edges[i].src == src && edges[i].dst == dst)
      invariant best.Some? ==> at < j && best.value == edges[at] && edges[at].src == src && edges[at].dst == dst
      invariant best.Some? ==> forall i :: 0 <= i < j && edges[i].src == src && edges[i].dst == dst ==>
        edges[at].weight <= edges[i].weight && (i < at ==> edges[at].weight < edges[i].weight)
    {
      if edges[j].src == src && edges[j].dst == dst {
        if best.None? || edges[j].weight < best.value.weight {
          best, at := Some(edges[j]), j;
        }
      }
    }
    assert best.Some? ==> FirstCheapest(edges, at);
  }

  function Reversed(raw: seq<nat>): (path: seq<nat>)
    ensures |path| == |raw| && forall i :: 0 <= i < |raw| ==> path[i] == raw[|raw| - 1 - i]
  {
    seq(|raw|, i requires 0 <= i < |raw| => raw[|raw| - 1 - i])
  }

  /** The chain position whose recorded edge makes forward hop i. */
  function HopIndex(l: nat, i: nat): nat
    requires i < l
  {
    if i + 1 < l then l - 2 - i else l - 1
  }

  /** The recorded edge for forward hop i exists in the graph, so the cheapest edge is at most as heavy. */
  lemma RecordedHop(edges: seq<PriceEdge>, dist: seq<int>, pred: seq<Pred>, t: Trace, raw: seq<nat>, i: nat)
    requires TraceOk(edges, dist, pred, t) && ClosedChain(pred, raw) && i < |raw|
    ensures var path := Reversed(raw);
            var e := t.rec[raw[HopIndex(|raw|, i)]];
            e in edges && e.src == path[i] && e.dst == path[if i + 1 < |raw| then i + 1 else 0]
  {
    var k := HopIndex(|raw|, i);
    assert NodeOk(edges, dist, pred, t, raw[k]);
    if i + 1 < |raw| { assert raw[k + 1] == pred[raw[k]].node; }
  }

  lemma {:induction false} HopSum(edges: seq<PriceEdge>, t: Trace, raw: seq<nat>, hops: seq<PriceEdge>, i: nat)
    requires forall k :: 0 <= k < |raw| ==> raw[k] < |t.rec|
    requires |hops| == |raw| && i < |raw|
    requires forall k :: 0 <= k < |hops| ==> NoDearer(hops[k], t, raw, k)
    ensures WalkSum(hops[..i]) <= RecordedSum(t, raw, |raw| - 1) - RecordedSum(t, raw, |raw| - 1 - i)
  {
    if i > 0 {
      HopSum(edges, t, raw, hops, i - 1);
      assert NoDearer(hops[i - 1], t, raw, i - 1);
      assert hops[..i][..i - 1] == hops[..i - 1];
      assert HopIndex(|raw|, i - 1) == |raw| - 1 - i;
    }
  }

  lemma HopsNegative(edges: seq<PriceEdge>, dist: seq<int>, pred: seq<Pred>, t: Trace, raw: seq<nat>, hops: seq<PriceEdge>)
    requires TraceOk(edges, dist, pred, t) && ClosedChain(pred, raw) && |hops| == |raw|
    requires forall k :: 0 <= k < |hops| ==> NoDearer(hops[k], t, raw, k)
    ensures WalkSum(hops) < 0
  {
    PredecessorCycleIsNegative(edges, dist, pred, t, raw);
    HopSum(edges, t, raw, hops, |raw| - 1);
    assert NoDearer(hops[|raw| - 1], t, raw, |raw| - 1);
    assert HopIndex(|raw|, |raw| - 1) == |raw| - 1;
  }

  /** Walks back n steps, so that the walk has entered a cycle of the predecessor table. */
  method WalkBack(edges: seq<PriceEdge>, n: nat, start: nat, pred: seq<Pred>)
    returns (node: Option<nat>, ghost walk: seq<nat>, ghost i: nat, ghost j: nat)
    requires Table(edges, pred, n) && start < n
    ensures node == Back(pred, start, n)
    ensures node.Some? ==> i < j < |walk| && Chain(pred, walk) && walk[i] == walk[j] && InLoop(pred, walk, i, j, node.value)
  {
    var v := start;
    walk := [start];
    i, j := 0, 0;
    for k := 0 to n
      invariant |walk| == k + 1 && walk[k] == v && v < n && Chain(pred, walk) && Back(pred, start, k) == Some(v)
    {
      if pred[v].node == NO_NODE {
        BackStops(pred, start, k + 1, n);
        return None, walk, i, j;
      }
      v := pred[v].node;
      walk := walk + [v];
    }
    i, j := Pigeonhole(walk, n);
    WalkStaysInLoop(pred, walk, i, j, n);
    node := Some(v);
  }

  /** Collects the cycle through cycleStart, giving up after maxHops + 1 nodes. */
  method CollectCycle(pred: seq<Pred>, cycleStart: nat, maxHops: nat, ghost walk: seq<nat>, ghost i: nat, ghost j: nat)
    returns (raw: Option<seq<nat>>)
    requires i < j < |walk| && Chain(pred, walk) && walk[i] == walk[j] && InLoop(pred, walk, i, j, cycleStart)
    ensures raw.Some? ==> ClosedChain(pred, raw.value) && |raw.value| <= maxHops + 1
    ensures raw.Some? ==> Back(pred, cycleStart, |raw.value|) == Some(cycleStart)
    ensures raw.Some? ==> forall k: nat :: k < |raw.value| ==> Back(pred, cycleStart, k) == Some(raw.value[k])
    ensures raw.Some? ==> (|raw.value| == 1 <==> Back(pred, cycleStart, 1) == Some(cycleStart))
    ensures raw.None? ==> forall l :: 1 <= l <= maxHops + 1 ==> Back(pred, cycleStart, l) != Some(cycleStart)
  {
    hide *;
    var node := cycleStart;
    var path: seq<nat> := [];
    NothingCollected(pred, cycleStart);
    while true
      invariant |path| <= maxHops + 1 && Collecting(pred, cycleStart, path, node) && InLoop(pred, walk, i, j, node)
      decreases maxHops + 1 - |path|
    {
      if |path| > maxHops {
        NotYetBack(pred, cycleStart, path, node);
        return None;
      }
      LoopClosed(pred, walk, i, j, node);
      CollectNext(pred, cycleStart, path, node);
      path := path + [node];
      node := pred[node].node;
      if node == cycleStart {
        break;
      }
    }
    raw := Some(path);
  }

  /** path is the start and its predecessors, node the next of them; none has led back to the start. */
  ghost predicate Collecting(pred: seq<Pred>, start: nat, path: seq<nat>, node: nat)
  {
    && Chain(pred, path) && Back(pred, start, |path|) == Some(node)
    && (forall k: nat :: k < |path| ==> Back(pred, start, k) == Some(path[k]))
    && (forall l :: 1 <= l <= |path| ==> Back(pred, start, l) != Some(start))
    && (if |path| == 0 then node == start else path[0] == start && pred[path[|path| - 1]].node == node != NO_NODE)
  }

  lemma NothingCollected(pred: seq<Pred>, start: nat)
    ensures Collecting(pred, start, [], start)
  {}

  lemma NotYetBack(pred: seq<Pred>, start: nat, path: seq<nat>, node: nat)
    requires Collecting(pred, start, path, node)
    ensures forall l :: 1 <= l <= |path| ==> Back(pred, start, l) != Some(start)
  {}

  lemma CollectNext(pred: seq<Pred>, start: nat, path: seq<nat>, node: nat)
    requires Collecting(pred, start, path, node) && node < |pred| && pred[node].node != NO_NODE
    ensures var p, next := path + [node], pred[node].node;
            if next != start then Collecting(pred, start, p, next)
            else && ClosedChain(pred, p) && Back(pred, start, |p|) == Some(start)
                 && (forall k: nat :: k < |p| ==> Back(pred, start, k) == Some(p[k]))
                 && (|p| == 1 <==> Back(pred, start, 1) == Some(start))
  {
    var p := path + [node];
    assert forall k: nat :: k < |p| ==> Back(pred, start, k) == Some(p[k]);
    assert Back(pred, start, |p|) == Some(pred[node].node);
    forall k | 1 <= k < |p| ensures p[k] != p[0] { assert Back(pred, start, k) != Some(start); }
  }

  /** The cycle through the predecessors of start, forward, with the cheapest edge for every hop. */
  method ReconstructCycle(edges: seq<PriceEdge>, n: nat, start: nat, pred: seq<Pred>, maxHops: nat,
                          ghost dist: seq<int>, ghost t: Trace)
    returns (r: Option<ArbCycle>)
    requires TraceOk(edges, dist, pred, t) && |pred| == n && start < n
    ensures r.Some? ==> IsGood(edges, r.value, maxHops) && Follows(pred, start, n, r.value.path)
    ensures r.Some? <==> Traceable(pred, start, n, maxHops)
  {
    TableOk(edges, dist, pred, t);
    var node, walk, i0, j0 := WalkBack(edges, n, start, pred);
    if node.None? { return None; }
    var collected := CollectCycle(pred, node.value, maxHops, walk, i0, j0);
    if collected.None? { return None; }
    var raw := collected.value;
    if |raw| < 2 { return None; }
    var path := Reversed(raw);
    var poolIndices, directions, total, hops := SelectHops(edges, dist, pred, t, raw, path);
    r := Some(ArbCycle(path, poolIndices, directions, total));
    HopsNegative(edges, dist, pred, t, raw, hops);
    SimplePath(pred, raw);
    CycleIsGood(edges, r.value, hops, maxHops);
  }

  /** For every hop of the path, the cheapest edge between its ends: no dearer than the one recorded there. */
  method SelectHops(edges: seq<PriceEdge>, ghost dist: seq<int>, pred: seq<Pred>, ghost t: Trace,
                    ghost raw: seq<nat>, path: seq<nat>)
    returns (poolIndices: seq<nat>, directions: seq<bool>, total: int, ghost hops: seq<PriceEdge>)
    requires TraceOk(edges, dist, pred, t) && ClosedChain(pred, raw) && path == Reversed(raw) && |raw| >= 2
    ensures |poolIndices| == |directions| == |hops| == |path| == |raw|
    ensures forall k :: 0 <= k < |hops| ==> HopSelected(edges, path, poolIndices, directions, hops, k)
    ensures forall k :: 0 <= k < |hops| ==> NoDearer(hops[k], t, raw, k)
    ensures total == SaturatedSum(hops)
  {
    hide *;
    poolIndices, directions, total, hops := [], [], 0, [];
    EmptySum();
    for i := 0 to |path|
      invariant |poolIndices| == |directions| == |hops| == i
      invariant forall k :: 0 <= k < i ==> HopSelected(edges, path, poolIndices, directions, hops, k)
      invariant forall k :: 0 <= k < i ==> NoDearer(hops[k], t, raw, k)
      invariant total == SaturatedSum(hops)
    {
      var src, dst := path[i], path[(i + 1) % |path|];
      NextIndex(i, |path|);
      var best := BestEdge(edges, src, dst);
      BestBeatsRecorded(edges, dist, pred, t, raw, best, i);
      var edge := best.value;
      ExtendSelection(edges, path, poolIndices, directions, hops, edge);
      poolIndices := poolIndices + [edge.poolIdx];
      directions := directions + [edge.xToY];
      total := SaturatingAdd(total, edge.weight);
      SumNext(hops, edge);
      hops := hops + [edge];
    }
  }

  ghost predicate HopSelected(edges: seq<PriceEdge>, path: seq<nat>, pools: seq<nat>, dirs: seq<bool>, hops: seq<PriceEdge>, k: nat)
    requires k < |path| && k < |pools| == |dirs| == |hops|
  {
    && Cheapest(edges, hops[k]) && hops[k].src == path[k] && hops[k].dst == path[if k + 1 < |path| then k + 1 else 0]
    && pools[k] == hops[k].poolIdx && dirs[k] == hops[k].xToY
  }

  lemma ExtendSelection(edges: seq<PriceEdge>, path: seq<nat>, pools: seq<nat>, dirs: seq<bool>, hops: seq<PriceEdge>, e: PriceEdge)
    requires |pools| == |dirs| == |hops| < |path|
    requires forall k :: 0 <= k < |hops| ==> HopSelected(edges, path, pools, dirs, hops, k)
    requires Cheapest(edges, e) && e.src == path[|hops|]
    requires e.dst == path[if |hops| + 1 < |path| then |hops| + 1 else 0]
    ensures forall k :: 0 <= k < |hops| + 1 ==>
      HopSelected(edges, path, pools + [e.poolIdx], dirs + [e.xToY], hops + [e], k)
  {
    forall k | 0 <= k < |hops| + 1
      ensures HopSelected(edges, path, pools + [e.poolIdx], dirs + [e.xToY], hops + [e], k)
    {
      if k < |hops| { assert HopSelected(edges, path, pools, dirs, hops, k); }
    }
  }

  lemma NextIndex(i: nat, l: nat)
    requires i < l
    ensures (i + 1) % l == if i + 1 < l then i + 1 else 0
  {
    if i + 1 == l { CongIntro(l, 0, 1, l); CongToMod(l, 0, l); }
  }

  /** So the program's branch for a broken path is never taken. */
  lemma BestBeatsRecorded(edges: seq<PriceEdge>, dist: seq<int>, pred: seq<Pred>, t: Trace, raw: seq<nat>,
                          best: Option<PriceEdge>, i: nat)
    requires TraceOk(edges, dist, pred, t) && ClosedChain(pred, raw) && i < |raw|
    requires IsBest(edges, best, Reversed(raw)[i], Reversed(raw)[if i + 1 < |raw| then i + 1 else 0])
    ensures best.Some? && NoDearer(best.value, t, raw, i) && Cheapest(edges, best.value)
    ensures best.value.src == Reversed(raw)[i] && best.value.dst == Reversed(raw)[if i + 1 < |raw| then i + 1 else 0]
  {
    RecordedHop(edges, dist, pred, t, raw, i);
    var e := t.rec[raw[HopIndex(|raw|, i)]];
    var j :| 0 <= j < |edges| && edges[j] == e;
    assert edges[j].src == e.src;
  }

  ghost predicate IsBest(edges: seq<PriceEdge>, best: Option<PriceEdge>, src: nat, dst: nat)
  {
    && (best.None? <==> forall i :: 0 <= i < |edges| ==> !(edges[i].src == src && edges[i].dst == dst))
    && (best.Some? ==> best.value.src == src && best.value.dst == dst && Cheapest(edges, best.value))
  }

  ghost predicate NoDearer(e: PriceEdge, t: Trace, raw: seq<nat>, i: nat)
  {
    i < |raw| && raw[HopIndex(|raw|, i)] < |t.rec| && e.weight <= t.rec[raw[HopIndex(|raw|, i)]].weight
  }

  lemma EmptySum()
    ensures SaturatedSum([]) == 0
  {}

  lemma SumNext(hops: seq<PriceEdge>, e: PriceEdge)
    ensures SaturatedSum(hops + [e]) == SaturatingAdd(SaturatedSum(hops), e.weight)
  {
    assert (hops + [e])[..|hops|] == hops;
  }

  lemma SimplePath(pred: seq<Pred>, raw: seq<nat>)
    requires ClosedChain(pred, raw)
    ensures var path := Reversed(raw); forall i, j :: 0 <= i < j < |path| ==> path[i] != path[j]
  {
    var path := Reversed(raw);
    forall i, j | 0 <= i < j < |path| ensures path[i] != path[j] {
      FirstReturnIsSimple(pred, raw, |raw| - 1 - j, |raw| - 1 - i);
    }
  }

  lemma CycleIsGood(edges: seq<PriceEdge>, c: ArbCycle, hops: seq<PriceEdge>, maxHops: nat)
    requires |c.path| == |c.poolIndices| == |c.directions| == |hops| && 2 <= |hops| <= maxHops + 1
    requires forall i, j :: 0 <= i < j < |c.path| ==> c.path[i] != c.path[j]
    requires forall k :: 0 <= k < |hops| ==> HopSelected(edges, c.path, c.poolIndices, c.directions, hops, k)
    requires WalkSum(hops) < 0 && c.totalWeight == SaturatedSum(hops)
    ensures IsGood(edges, c, maxHops)
  {
    forall i | 0 <= i < |hops| ensures HopOk(edges, c, hops, i) {
      assert HopSelected(edges, c.path, c.poolIndices, c.directions, hops, i);
    }
    assert GoodCycle(edges, c, hops, maxHops);
  }

  // ── The graph object ─────────────────────────────────────────────

  ghost predicate IsGood(edges: seq<PriceEdge>, c: ArbCycle, maxHops: nat)
  {
    exists hops :: GoodCycle(edges, c, hops, maxHops)
  }

  ghost predicate AllGood(edges: seq<PriceEdge>, cycles: seq<ArbCycle>, maxHops: nat)
  {
    forall i :: 0 <= i < |cycles| ==> IsGood(edges, cycles[i], maxHops)
  }

  predicate SameCycle(a: ArbCycle, b: ArbCycle)
  {
    |a.path| == |b.path| && a.poolIndices == b.poolIndices
  }

  /** No two cycles of the same length through the same pools. */
  ghost predicate NoRepeats(cycles: seq<ArbCycle>)
  {
    forall i, j :: 0 <= i < j < |cycles| ==> !SameCycle(cycles[i], cycles[j])
  }

  // ── Where the cycles come from ───────────────────────────────────

  /** An edge, in the order in which the runs are examined: by source, then by position in the list. */
  datatype Origin = Origin(source: nat, edge: nat)
  {
    predicate Before(o: Origin)
    {
      source < o.source || (source == o.source && edge < o.edge)
    }
  }

  /** In the run from s edge i is still relaxable, and its head leads back into a cycle that can be reported. */
  ghost predicate Reports(edges: seq<PriceEdge>, n: nat, maxHops: nat, s: nat, i: nat)
  {
    && WellFormed(edges, n) && s < n && i < |edges|
    && var r := RunOf(edges, n, s, maxHops);
       Relaxable(r.dist, edges[i]) && Traceable(r.pred, edges[i].dst, n, maxHops)
  }

  /** The edge at o reports c: the predecessor cycle its head leads back into, with the first cheapest edge a hop. */
  ghost predicate FoundAt(edges: seq<PriceEdge>, n: nat, maxHops: nat, o: Origin, c: ArbCycle)
  {
    && Reports(edges, n, maxHops, o.source, o.edge) && IsGood(edges, c, maxHops)
    && Follows(RunOf(edges, n, o.source, maxHops).pred, edges[o.edge].dst, n, c.path)
  }

  /** No edge reports two different cycles. */
  lemma FoundOnce(edges: seq<PriceEdge>, n: nat, maxHops: nat, o: Origin, c: ArbCycle, d: ArbCycle)
    requires FoundAt(edges, n, maxHops, o, c) && FoundAt(edges, n, maxHops, o, d)
    ensures c == d
  {
    hide RunOf, Back;
    var hops :| GoodCycle(edges, c, hops, maxHops);
    var hops' :| GoodCycle(edges, d, hops', maxHops);
    var pred, start := RunOf(edges, n, o.source, maxHops).pred, edges[o.edge].dst;
    ClosesEarly(pred, start, n, c.path, d.path);
    ClosesEarly(pred, start, n, d.path, c.path);
    SamePath(pred, start, n, c.path, d.path);
    SameHops(edges, c, d, hops, hops', maxHops);
  }

  /** The shorter path would close the longer one early. */
  lemma ClosesEarly(pred: seq<Pred>, start: nat, n: nat, p: seq<nat>, q: seq<nat>)
    requires Follows(pred, start, n, p) && Follows(pred, start, n, q)
    ensures |p| < |q| ==> q[|q| - 1] == q[|q| - 1 - |p|]
  {
    if |p| < |q| {
      var c := Back(pred, start, n).value;
      assert Back(pred, c, 0) == Some(q[|q| - 1 - 0]);
      assert Back(pred, c, |p|) == Some(q[|q| - 1 - |p|]);
    }
  }

  lemma SamePath(pred: seq<Pred>, start: nat, n: nat, p: seq<nat>, q: seq<nat>)
    requires Follows(pred, start, n, p) && Follows(pred, start, n, q) && |p| == |q|
    ensures p == q
  {
    var c := Back(pred, start, n).value;
    forall i | 0 <= i < |p| ensures p[i] == q[i] {
      var k: nat := |p| - 1 - i;
      assert Back(pred, c, k) == Some(p[|p| - 1 - k]) == Some(q[|q| - 1 - k]);
    }
  }

  /** The path determines the hops, and they the rest of the cycle. */
  lemma SameHops(edges: seq<PriceEdge>, c: ArbCycle, d: ArbCycle, hops: seq<PriceEdge>, hops': seq<PriceEdge>, maxHops: nat)
    requires GoodCycle(edges, c, hops, maxHops) && GoodCycle(edges, d, hops', maxHops) && c.path == d.path
    ensures c == d
  {
    forall i | 0 <= i < |hops| ensures hops[i] == hops'[i] {
      assert HopOk(edges, c, hops, i) && HopOk(edges, d, hops', i);
      var j: nat :| FirstCheapest(edges, j) && edges[j] == hops[i];
      var k: nat :| FirstCheapest(edges, k) && edges[k] == hops'[i];
    }
    assert hops == hops';
    forall i | 0 <= i < |hops| ensures c.poolIndices[i] == d.poolIndices[i] && c.directions[i] == d.directions[i] {
      assert HopOk(edges, c, hops, i) && HopOk(edges, d, hops', i);
    }
  }

  /** Every cycle was found where its origin says. */
  ghost predicate AllFound(edges: seq<PriceEdge>, n: nat, maxHops: nat, cycles: seq<ArbCycle>, origins: seq<Origin>)
  {
    |origins| == |cycles| && forall a :: 0 <= a < |cycles| ==> FoundAt(edges, n, maxHops, origins[a], cycles[a])
  }

  /** c is among the cycles, up to SameCycle, and was found at o or earlier. */
  ghost predicate Kept(cycles: seq<ArbCycle>, origins: seq<Origin>, o: Origin, c: ArbCycle)
  {
    exists a :: 0 <= a < |cycles| == |origins| && !o.Before(origins[a]) && SameCycle(cycles[a], c)
  }

  /** What the edge at o reports is kept. */
  ghost predicate KeptFrom(edges: seq<PriceEdge>, n: nat, maxHops: nat, cycles: seq<ArbCycle>, origins: seq<Origin>, o: Origin)
  {
    exists c :: FoundAt(edges, n, maxHops, o, c) && Kept(cycles, origins, o, c)
  }

  /** Every report before `end` is kept. */
  ghost predicate AllKept(edges: seq<PriceEdge>, n: nat, maxHops: nat, cycles: seq<ArbCycle>, origins: seq<Origin>, end: Origin)
  {
    forall o: Origin :: o.Before(end) && Reports(edges, n, maxHops, o.source, o.edge) ==>
      KeptFrom(edges, n, maxHops, cycles, origins, o)
  }

  /** In order of discovery. */
  ghost predicate InOrder(origins: seq<Origin>)
  {
    forall a, b :: 0 <= a < b < |origins| ==> origins[a].Before(origins[b])
  }

  /** The most negative total first, those of the same total in order of discovery. */
  ghost predicate Ranked(cycles: seq<ArbCycle>, origins: seq<Origin>)
  {
    && |origins| == |cycles|
    && forall a, b :: 0 <= a < b < |cycles| ==>
         cycles[a].totalWeight < cycles[b].totalWeight
         || (cycles[a].totalWeight == cycles[b].totalWeight && origins[a].Before(origins[b]))
  }

  /** The state of the search when everything before `end` has been examined. */
  ghost predicate Searched(edges: seq<PriceEdge>, n: nat, maxHops: nat, cycles: seq<ArbCycle>, origins: seq<Origin>, end: Origin)
  {
    && AllFound(edges, n, maxHops, cycles, origins) && AllKept(edges, n, maxHops, cycles, origins, end)
    && NoRepeats(cycles) && InOrder(origins) && forall a :: 0 <= a < |origins| ==> origins[a].Before(end)
  }

  lemma NothingSearched(edges: seq<PriceEdge>, n: nat, maxHops: nat)
    ensures Searched(edges, n, maxHops, [], [], Origin(0, 0))
  {}

  /** An edge that reports nothing. */
  lemma SearchedSilent(edges: seq<PriceEdge>, n: nat, maxHops: nat, cycles: seq<ArbCycle>, origins: seq<Origin>, s: nat, i: nat)
    requires Searched(edges, n, maxHops, cycles, origins, Origin(s, i)) && !Reports(edges, n, maxHops, s, i)
    ensures Searched(edges, n, maxHops, cycles, origins, Origin(s, i + 1))
  {
    hide FoundAt, KeptFrom, Reports;
    forall o: Origin | o.Before(Origin(s, i + 1)) && Reports(edges, n, maxHops, o.source, o.edge)
      ensures KeptFrom(edges, n, maxHops, cycles, origins, o)
    {
      assert o.Before(Origin(s, i)) || o == Origin(s, i);
    }
  }

  /** An edge that reports a cycle found before. */
  lemma SearchedKnown(edges: seq<PriceEdge>, n: nat, maxHops: nat, cycles: seq<ArbCycle>, origins: seq<Origin>, s: nat, i: nat, c: ArbCycle)
    requires Searched(edges, n, maxHops, cycles, origins, Origin(s, i)) && FoundAt(edges, n, maxHops, Origin(s, i), c)
    requires exists x :: x in cycles && SameCycle(x, c)
    ensures Searched(edges, n, maxHops, cycles, origins, Origin(s, i + 1))
  {
    hide FoundAt, Reports;
    var x :| x in cycles && SameCycle(x, c);
    var a :| 0 <= a < |cycles| && cycles[a] == x;
    assert Kept(cycles, origins, Origin(s, i), c);
    forall o: Origin | o.Before(Origin(s, i + 1)) && Reports(edges, n, maxHops, o.source, o.edge)
      ensures KeptFrom(edges, n, maxHops, cycles, origins, o)
    {
      assert o.Before(Origin(s, i)) || o == Origin(s, i);
    }
  }

  /** An edge that reports a new one. */
  lemma SearchedNew(edges: seq<PriceEdge>, n: nat, maxHops: nat, cycles: seq<ArbCycle>, origins: seq<Origin>, s: nat, i: nat, c: ArbCycle)
    requires Searched(edges, n, maxHops, cycles, origins, Origin(s, i)) && FoundAt(edges, n, maxHops, Origin(s, i), c)
    requires !(exists x :: x in cycles && SameCycle(x, c))
    ensures Searched(edges, n, maxHops, cycles + [c], origins + [Origin(s, i)], Origin(s, i + 1))
  {
    hide FoundAt, Reports, SameCycle;
    var cs, os := cycles + [c], origins + [Origin(s, i)];
    forall a | 0 <= a < |cycles| ensures !SameCycle(cycles[a], c) { assert cycles[a] in cycles; }
    forall o: Origin | o.Before(Origin(s, i + 1)) && Reports(edges, n, maxHops, o.source, o.edge)
      ensures KeptFrom(edges, n, maxHops, cs, os, o)
    {
      if o.Before(Origin(s, i)) {
        var d :| FoundAt(edges, n, maxHops, o, d) && Kept(cycles, origins, o, d);
        var a :| 0 <= a < |cycles| == |origins| && !o.Before(origins[a]) && SameCycle(cycles[a], d);
        assert cs[a] == cycles[a] && os[a] == origins[a];
        assert Kept(cs, os, o, d);
      } else {
        assert o == Origin(s, i);
        SameAsItself(c);
        assert cs[|cycles|] == c && os[|cycles|] == o;
        assert Kept(cs, os, o, c);
      }
    }
  }

  lemma SameAsItself(c: ArbCycle)
    ensures SameCycle(c, c)
  {}

  /** The edges of one source are through. */
  lemma SearchedSource(edges: seq<PriceEdge>, n: nat, maxHops: nat, cycles: seq<ArbCycle>, origins: seq<Origin>, s: nat)
    requires Searched(edges, n, maxHops, cycles, origins, Origin(s, |edges|))
    ensures Searched(edges, n, maxHops, cycles, origins, Origin(s + 1, 0))
  {
    hide FoundAt, KeptFrom;
    forall o: Origin | o.Before(Origin(s + 1, 0)) && Reports(edges, n, maxHops, o.source, o.edge)
      ensures KeptFrom(edges, n, maxHops, cycles, origins, o)
    {
      assert o.Before(Origin(s, |edges|));
    }
  }

  // ── Sorting ──────────────────────────────────────────────────────

  /** c, found at o, is one of the cycles. */
  ghost predicate Lists(cycles: seq<ArbCycle>, origins: seq<Origin>, c: ArbCycle, o: Origin)
  {
    exists a :: 0 <= a < |cycles| == |origins| && cycles[a] == c && origins[a] == o
  }

  /** One more cycle, found after all others, before the first that weighs more. */
  method InsertByWeight(cycles: seq<ArbCycle>, ghost origins: seq<Origin>, c: ArbCycle, ghost o: Origin)
    returns (r: seq<ArbCycle>, ghost os: seq<Origin>)
    requires Ranked(cycles, origins) && forall a :: 0 <= a < |origins| ==> origins[a].Before(o)
    ensures Ranked(r, os) && |r| == |cycles| + 1
    ensures forall x, p :: Lists(r, os, x, p) <==> Lists(cycles, origins, x, p) || (x == c && p == o)
  {
    hide Lists;
    var k := |cycles|;
    while k > 0 && cycles[k - 1].totalWeight > c.totalWeight
      invariant 0 <= k <= |cycles|
      invariant k < |cycles| ==> cycles[k].totalWeight > c.totalWeight
    {
      k := k - 1;
    }
    r, os := cycles[..k] + [c] + cycles[k..], origins[..k] + [o] + origins[k..];
    forall x, p ensures Lists(r, os, x, p) <==> Lists(cycles, origins, x, p) || (x == c && p == o) {
      ListsInserted(cycles, origins, c, o, k, x, p);
    }
  }

  lemma ListsInserted(cycles: seq<ArbCycle>, origins: seq<Origin>, c: ArbCycle, o: Origin, k: nat, x: ArbCycle, p: Origin)
    requires k <= |cycles| == |origins|
    ensures Lists(cycles[..k] + [c] + cycles[k..], origins[..k] + [o] + origins[k..], x, p)
      <==> Lists(cycles, origins, x, p) || (x == c && p == o)
  {
    var r, os := cycles[..k] + [c] + cycles[k..], origins[..k] + [o] + origins[k..];
    if Lists(cycles, origins, x, p) {
      var a :| 0 <= a < |cycles| && cycles[a] == x && origins[a] == p;
      var b := if a < k then a else a + 1;
      assert r[b] == x && os[b] == p;
    }
    assert r[k] == c && os[k] == o;
    if Lists(r, os, x, p) {
      var b :| 0 <= b < |r| && r[b] == x && os[b] == p;
      if b != k {
        var a := if b < k then b else b - 1;
        assert cycles[a] == x && origins[a] == p;
      }
    }
  }

  /** sort_by_key on the total weight: stable. */
  method SortByWeight(cycles: seq<ArbCycle>, ghost origins: seq<Origin>) returns (sorted: seq<ArbCycle>, ghost os: seq<Origin>)
    requires |origins| == |cycles| && InOrder(origins)
    ensures Ranked(sorted, os) && |sorted| == |cycles|
    ensures forall x, p :: Lists(sorted, os, x, p) <==> Lists(cycles, origins, x, p)
  {
    sorted, os := [], [];
    for i := 0 to |cycles|
      invariant Ranked(sorted, os) && |sorted| == i
      invariant forall x, p :: Lists(sorted, os, x, p) <==> Lists(cycles[..i], origins[..i], x, p)
    {
      forall a | 0 <= a < |os| ensures os[a].Before(origins[i]) {
        assert Lists(sorted, os, sorted[a], os[a]);
      }
      forall x, p
        ensures Lists(cycles[..i + 1], origins[..i + 1], x, p)
          <==> Lists(cycles[..i], origins[..i], x, p) || (x == cycles[i] && p == origins[i])
      {
        ListsInserted(cycles[..i], origins[..i], cycles[i], origins[i], i, x, p);
        assert cycles[..i][..i] + [cycles[i]] + cycles[..i][i..] == cycles[..i + 1];
        assert origins[..i][..i] + [origins[i]] + origins[..i][i..] == origins[..i + 1];
      }
      sorted, os := InsertByWeight(sorted, os, cycles[i], origins[i]);
    }
    assert cycles[..|cycles|] == cycles && origins[..|cycles|] == origins;
  }

  // ── What detection establishes ───────────────────────────────────

  /** Each cycle was reported by its origin, each report of any of the sources is kept, nothing is kept twice, and
      the cycles are ranked. */
  ghost predicate DetectedAt(edges: seq<PriceEdge>, n: nat, cycles: seq<ArbCycle>, maxHops: nat, origins: seq<Origin>)
  {
    && AllFound(edges, n, maxHops, cycles, origins) && AllKept(edges, n, maxHops, cycles, origins, Origin(Sources(n), 0))
    && NoRepeats(cycles) && Ranked(cycles, origins) && forall a :: 0 <= a < |origins| ==> origins[a].source < Sources(n)
  }

  ghost predicate Detected(edges: seq<PriceEdge>, n: nat, cycles: seq<ArbCycle>, maxHops: nat)
  {
    WellFormed(edges, n) && exists origins :: DetectedAt(edges, n, cycles, maxHops, origins)
  }

  lemma SortedIsDetected(edges: seq<PriceEdge>, n: nat, maxHops: nat, found: seq<ArbCycle>, at: seq<Origin>,
                         cycles: seq<ArbCycle>, origins: seq<Origin>)
    requires Searched(edges, n, maxHops, found, at, Origin(Sources(n), 0)) && Ranked(cycles, origins)
    requires forall x, p :: Lists(cycles, origins, x, p) <==> Lists(found, at, x, p)
    requires WellFormed(edges, n)
    ensures Detected(edges, n, cycles, maxHops)
  {
    hide FoundAt, Reports;
    forall a | 0 <= a < |cycles|
      ensures FoundAt(edges, n, maxHops, origins[a], cycles[a]) && origins[a].source < Sources(n)
    {
      assert Lists(cycles, origins, cycles[a], origins[a]);
      var b :| 0 <= b < |found| && found[b] == cycles[a] && at[b] == origins[a];
      assert at[b].Before(Origin(Sources(n), 0));
    }
    forall o: Origin | o.Before(Origin(Sources(n), 0)) && Reports(edges, n, maxHops, o.source, o.edge)
      ensures KeptFrom(edges, n, maxHops, cycles, origins, o)
    {
      var c :| FoundAt(edges, n, maxHops, o, c) && Kept(found, at, o, c);
      var b :| 0 <= b < |found| == |at| && !o.Before(at[b]) && SameCycle(found[b], c);
      assert Lists(found, at, found[b], at[b]);
      var a :| 0 <= a < |cycles| && cycles[a] == found[b] && origins[a] == at[b];
      assert Kept(cycles, origins, o, c);
    }
    SortedHasNoRepeats(found, at, cycles, origins);
    assert DetectedAt(edges, n, cycles, maxHops, origins);
  }

  lemma SortedHasNoRepeats(found: seq<ArbCycle>, at: seq<Origin>, cycles: seq<ArbCycle>, origins: seq<Origin>)
    requires NoRepeats(found) && Ranked(cycles, origins)
    requires forall x, p :: Lists(cycles, origins, x, p) <==> Lists(found, at, x, p)
    ensures NoRepeats(cycles)
  {
    forall i, j | 0 <= i < j < |cycles| ensures !SameCycle(cycles[i], cycles[j]) {
      assert Lists(cycles, origins, cycles[i], origins[i]) && Lists(cycles, origins, cycles[j], origins[j]);
      var a :| 0 <= a < |found| && found[a] == cycles[i] && at[a] == origins[i];
      var b :| 0 <= b < |found| && found[b] == cycles[j] && at[b] == origins[j];
      assert a != b;
      if b < a { assert !SameCycle(found[b], found[a]); }
    }
  }

  lemma DetectedParts(edges: seq<PriceEdge>, n: nat, cycles: seq<ArbCycle>, maxHops: nat)
    requires Detected(edges, n, cycles, maxHops)
    ensures AllGood(edges, cycles, maxHops) && NoRepeats(cycles)
    ensures forall i, j :: 0 <= i < j < |cycles| ==> cycles[i].totalWeight <= cycles[j].totalWeight
  {
    var origins :| DetectedAt(edges, n, cycles, maxHops, origins);
    forall i | 0 <= i < |cycles| ensures IsGood(edges, cycles[i], maxHops) {
      assert FoundAt(edges, n, maxHops, origins[i], cycles[i]);
    }
  }

  /** Whatever an edge of any run reports is returned, up to SameCycle. */
  lemma ReportIsReturned(edges: seq<PriceEdge>, n: nat, cycles: seq<ArbCycle>, maxHops: nat, o: Origin)
    returns (c: ArbCycle, a: nat)
    requires Detected(edges, n, cycles, maxHops) && o.source < MAX_TOKENS && Reports(edges, n, maxHops, o.source, o.edge)
    ensures FoundAt(edges, n, maxHops, o, c) && a < |cycles| && SameCycle(cycles[a], c)
    ensures forall d :: FoundAt(edges, n, maxHops, o, d) ==> d == c
  {
    hide FoundAt, Reports;
    var origins :| DetectedAt(edges, n, cycles, maxHops, origins);
    ReportInRange(edges, n, maxHops, o.source, o.edge);
    assert o.Before(Origin(Sources(n), 0));
    c :| FoundAt(edges, n, maxHops, o, c) && Kept(cycles, origins, o, c);
    a :| 0 <= a < |cycles| == |origins| && !o.Before(origins[a]) && SameCycle(cycles[a], c);
    forall d | FoundAt(edges, n, maxHops, o, d) ensures d == c { FoundOnce(edges, n, maxHops, o, c, d); }
  }

  /** Whatever is returned was reported, and nothing before it reported the same. */
  lemma ReturnedIsFirstReport(edges: seq<PriceEdge>, n: nat, cycles: seq<ArbCycle>, maxHops: nat, a: nat) returns (o: Origin)
    requires Detected(edges, n, cycles, maxHops) && a < |cycles|
    ensures o.source < MAX_TOKENS && FoundAt(edges, n, maxHops, o, cycles[a])
    ensures forall p: Origin, c :: p.Before(o) && FoundAt(edges, n, maxHops, p, c) ==> !SameCycle(c, cycles[a])
  {
    hide FoundAt, Reports;
    var origins :| DetectedAt(edges, n, cycles, maxHops, origins);
    o := origins[a];
    forall p: Origin, c | p.Before(o) && FoundAt(edges, n, maxHops, p, c) ensures !SameCycle(c, cycles[a]) {
      FoundReports(edges, n, maxHops, p, c);
      assert p.Before(Origin(Sources(n), 0));
      var d :| FoundAt(edges, n, maxHops, p, d) && Kept(cycles, origins, p, d);
      FoundOnce(edges, n, maxHops, p, c, d);
      var b :| 0 <= b < |cycles| == |origins| && !p.Before(origins[b]) && SameCycle(cycles[b], d);
      if SameCycle(c, cycles[a]) { OnlyOnce(cycles, a, b, c); }
    }
  }

  lemma ReportInRange(edges: seq<PriceEdge>, n: nat, maxHops: nat, s: nat, i: nat)
    requires Reports(edges, n, maxHops, s, i)
    ensures s < n && i < |edges|
  {}

  lemma NothingReported(edges: seq<PriceEdge>, n: nat, cycles: seq<ArbCycle>, maxHops: nat)
    requires Detected(edges, n, cycles, maxHops)
    requires forall s: nat, i: nat :: s < MAX_TOKENS ==> !Reports(edges, n, maxHops, s, i)
    ensures cycles == []
  {
    hide FoundAt, Reports;
    if cycles != [] {
      var o := ReturnedIsFirstReport(edges, n, cycles, maxHops, 0);
      FoundReports(edges, n, maxHops, o, cycles[0]);
    }
  }

  lemma OnlyOnce(cycles: seq<ArbCycle>, a: nat, b: nat, c: ArbCycle)
    requires NoRepeats(cycles) && a < |cycles| && b < |cycles| && SameCycle(c, cycles[a]) && SameCycle(cycles[b], c)
    ensures a == b
  {
    assert SameCycle(cycles[a], cycles[b]) && SameCycle(cycles[b], cycles[a]);
  }

  lemma FoundReports(edges: seq<PriceEdge>, n: nat, maxHops: nat, o: Origin, c: ArbCycle)
    requires FoundAt(edges, n, maxHops, o, c)
    ensures Reports(edges, n, maxHops, o.source, o.edge)
  {}

  /** Nodes are numbered in order of arrival, as 16-bit numbers, and no token is listed twice. */
  ghost predicate NodesOk(nodes: seq<(nat, nat)>)
  {
    && (forall i :: 0 <= i < |nodes| ==> nodes[i].1 == i % 65536)
    && (forall i, j :: 0 <= i < j < |nodes| ==> nodes[i].0 != nodes[j].0)
  }

  ghost predicate Listed(nodes: seq<(nat, nat)>, tokenId: nat)
  {
    exists i :: 0 <= i < |nodes| && nodes[i].0 == tokenId
  }

  ghost function WithToken(nodes: seq<(nat, nat)>, tokenId: nat): (r: seq<(nat, nat)>)
  {
    if Listed(nodes, tokenId) then nodes else nodes + [(tokenId, |nodes| % 65536)]
  }

  lemma WithTokenOk(nodes: seq<(nat, nat)>, tokenId: nat)
    requires NodesOk(nodes)
    ensures var r := WithToken(nodes, tokenId);
            NodesOk(r) && nodes <= r && Listed(r, tokenId) && forall e :: e in nodes ==> e in r
  {
    var r := WithToken(nodes, tokenId);
    if !Listed(nodes, tokenId) { assert r[|nodes|].0 == tokenId; }
  }

  lemma WellFormedExtends(edges: seq<PriceEdge>, n: nat, n': nat, e: PriceEdge)
    requires WellFormed(edges, n) && n <= n' && e.src < n' && e.dst < n'
    ensures WellFormed(edges + [e], n')
  {}

  /** An exchange rate as the floating-point division yields it. */
  datatype Rate = Finite(value: real) | MinusInfinity | NotANumber
  {
    /** Comparing with what is no number is always false. */
    predicate AtMostZero()
    {
      MinusInfinity? || (Finite? && value <= 0.0)
    }
  }

  /** -log2 of a rate in Q16.16, truncated, taken as given. */
  type LogWeight = Rate -> Weight

  class PriceGraph {
    var edges: seq<PriceEdge>
    var numTokens: nat
    var tokenToNode: seq<(nat, nat)>

    /** Every token has one node and every edge joins known nodes. */
    ghost predicate Valid()
      reads this
    {
      |tokenToNode| == numTokens && NodesOk(tokenToNode) && WellFormed(edges, numTokens)
    }

    constructor ()
      ensures Valid() && edges == [] && tokenToNode == []
    {
      edges, numTokens, tokenToNode := [], 0, [];
    }

    method GetOrCreateNode(tokenId: nat) returns (idx: nat)
      requires Valid()
      modifies this
      ensures Valid() && edges == old(edges)
      ensures tokenToNode == WithToken(old(tokenToNode), tokenId)
      ensures idx < numTokens && (tokenId, idx) in tokenToNode
    {
      for i := 0 to |tokenToNode|
        invariant forall j :: 0 <= j < i ==> tokenToNode[j].0 != tokenId
      {
        if tokenToNode[i].0 == tokenId {
          assert tokenToNode[i] == (tokenId, tokenToNode[i].1);
          return tokenToNode[i].1;
        }
      }
      WithTokenOk(tokenToNode, tokenId);
      idx := numTokens % 65536;
      tokenToNode := tokenToNode + [(tokenId, idx)];
      numTokens := numTokens + 1;
      assert tokenToNode[numTokens - 1] == (tokenId, idx);
    }

    method AddEdge(srcToken: nat, dstToken: nat, poolIdx: nat, rate: Rate, w: LogWeight, xToY: bool)
      requires Valid()
      modifies this
      ensures Valid()
      ensures rate.AtMostZero() ==> edges == old(edges) && tokenToNode == old(tokenToNode)
      ensures !rate.AtMostZero() ==> tokenToNode == WithToken(WithToken(old(tokenToNode), srcToken), dstToken)
      ensures !rate.AtMostZero() ==> |edges| == |old(edges)| + 1 && edges[..|old(edges)|] == old(edges)
      ensures !rate.AtMostZero() ==>
        var e := edges[|edges| - 1];
        && e.poolIdx == poolIdx && e.weight == w(rate) && e.xToY == xToY
        && (srcToken, e.src) in tokenToNode && (dstToken, e.dst) in tokenToNode
    {
      hide NodesOk, WellFormed, WithToken;
      if rate.AtMostZero() {
        return;
      }
      var src := GetOrCreateNode(srcToken);
      WithTokenOk(tokenToNode, dstToken);
      ghost var n := numTokens;
      var dst := GetOrCreateNode(dstToken);
      WellFormedExtends(edges, n, numTokens, PriceEdge(src, dst, poolIdx, w(rate), xToY));
      edges := edges + [PriceEdge(src, dst, poolIdx, w(rate), xToY)];
    }

    method Clear()
      modifies this
      ensures Valid() && edges == [] && tokenToNode == []
    {
      edges, numTokens, tokenToNode := [], 0, [];
    }

    /** What every edge of every run reports, each cycle once: simple closed paths of real edges, each the first
        cheapest between its ends, of 2 to maxHops + 1 hops and strictly negative total weight; most negative
        total first, and in order of discovery among equals. */
    method FindArbitrageCycles(maxHops: nat) returns (cycles: seq<ArbCycle>)
      requires Valid()
      ensures Detected(edges, numTokens, cycles, maxHops)
    {
      hide *;
      var n := numTokens;
      IsWellFormed();
      NothingSearched(edges, n, maxHops);
      if n == 0 || |edges| == 0 {
        NoEdgesNoReports(edges, n, maxHops);
        return [];
      }
      var found: seq<ArbCycle> := [];
      ghost var at: seq<Origin> := [];
      var sources := Sources(n);
      for source := 0 to sources
        invariant Searched(edges, n, maxHops, found, at, Origin(source, 0))
      {
        found, at := SearchFrom(source, maxHops, found, at);
      }
      ghost var origins;
      SearchedInOrder(edges, n, maxHops, found, at, Origin(sources, 0));
      cycles, origins := SortByWeight(found, at);
      SortedIsDetected(edges, n, maxHops, found, at, cycles, origins);
    }

    /** The run from one source, and what its edges report. */
    method SearchFrom(source: nat, maxHops: nat, found: seq<ArbCycle>, ghost at: seq<Origin>)
      returns (r: seq<ArbCycle>, ghost rs: seq<Origin>)
      requires Valid() && source < numTokens && Searched(edges, numTokens, maxHops, found, at, Origin(source, 0))
      ensures Searched(edges, numTokens, maxHops, r, rs, Origin(source + 1, 0))
    {
      hide *;
      var n := numTokens;
      IsWellFormed();
      var dist, pred, passes := BellmanFord(edges, n, source, maxHops);
      var d, p := dist[..], pred[..];
      ghost var t := RunTrace(edges, n, source, maxHops);
      r, rs := found, at;
      for i := 0 to |edges|
        invariant Searched(edges, n, maxHops, r, rs, Origin(source, i))
      {
        r, rs := SearchEdge(edges, n, source, maxHops, i, d, p, t, r, rs);
      }
      SearchedSource(edges, n, maxHops, r, rs, source);
    }

    lemma IsWellFormed()
      requires Valid()
      ensures WellFormed(edges, numTokens)
    {}
  }

  /** One edge of the detection pass. */
  method SearchEdge(edges: seq<PriceEdge>, n: nat, source: nat, maxHops: nat, i: nat, dist: seq<int>, pred: seq<Pred>,
                    ghost t: Trace, found: seq<ArbCycle>, ghost at: seq<Origin>)
    returns (r: seq<ArbCycle>, ghost rs: seq<Origin>)
    requires WellFormed(edges, n) && source < n && i < |edges| && Run(dist, pred) == RunOf(edges, n, source, maxHops)
    requires TraceOk(edges, dist, pred, t) && Searched(edges, n, maxHops, found, at, Origin(source, i))
    ensures Searched(edges, n, maxHops, r, rs, Origin(source, i + 1))
  {
    hide Searched, Traceable, RunOf, TraceOk, Follows, IsGood;
    r, rs := found, at;
    if Relaxable(dist, edges[i]) {
      var cycle := ReconstructCycle(edges, n, edges[i].dst, pred, maxHops, dist, t);
      if cycle.Some? {
        if exists c :: c in found && SameCycle(c, cycle.value) {
          SearchedKnown(edges, n, maxHops, found, at, source, i, cycle.value);
        } else {
          SearchedNew(edges, n, maxHops, found, at, source, i, cycle.value);
          r, rs := found + [cycle.value], at + [Origin(source, i)];
        }
        return;
      }
    }
    SearchedSilent(edges, n, maxHops, found, at, source, i);
  }

  function Sources(n: nat): (r: nat)
    ensures r <= n
  {
    if n < MAX_TOKENS then n else MAX_TOKENS
  }

  /** The history of a finished run. */
  lemma RunTrace(edges: seq<PriceEdge>, n: nat, s: nat, maxHops: nat) returns (t: Trace)
    requires WellFormed(edges, n) && s < n
    ensures TraceOk(edges, RunOf(edges, n, s, maxHops).dist, RunOf(edges, n, s, maxHops).pred, t)
  {
    t := RunInvariant(edges, n, s, if n - 1 < maxHops then n - 1 else maxHops);
  }

  lemma NoEdgesNoReports(edges: seq<PriceEdge>, n: nat, maxHops: nat)
    requires WellFormed(edges, n) && (n == 0 || |edges| == 0)
    ensures Detected(edges, n, [], maxHops)
  {
    assert DetectedAt(edges, n, [], maxHops, []);
  }

  lemma SearchedInOrder(edges: seq<PriceEdge>, n: nat, maxHops: nat, found: seq<ArbCycle>, at: seq<Origin>, end: Origin)
    requires Searched(edges, n, maxHops, found, at, end)
    ensures |at| == |found| && InOrder(at)
  {}
}
