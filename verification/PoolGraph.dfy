/** The price graph built from the shadow, and why no pool occurs twice on a cycle it yields. */
module PoolGraph {
  import opened Arith
  import opened GraphTheory
  import opened Graph
  import opened Amm
  import opened Shadow
  import opened Solver
  import opened ExactOutput

  /** All that is asked of the logarithm: rates whose product is at most 1 have weights whose sum is not negative,
      and so has what is no number. */
  ghost predicate LikeMinusLog(w: LogWeight)
  {
    && (forall r: real, s: real :: r > 0.0 && s > 0.0 && r * s <= 1.0 ==> w(Finite(r)) + w(Finite(s)) >= 0)
    && w(NotANumber) >= 0
  }

  /** A pool given a fee of 0 / 0. */
  predicate FeeUndefined(p: Pool)
  {
    p.feeNum == 0 && p.feeDen == 0
  }

  /** Active, funded, and charging less than everything. A fee of 0 / 0 makes the rate no number, and that
      passes the test for a positive rate. */
  predicate Tradable(p: Pool)
  {
    p.active && p.specX > 0 && p.specY > 0 && (p.feeNum < p.feeDen || FeeUndefined(p))
  }

  /** out / in times what the fee leaves, as floating point has it without its rounding: with a zero
      denominator the fee is infinite, or no number at all. */
  function EffectiveRate(rIn: nat, rOut: nat, num: nat, den: nat): (r: Rate)
    requires rIn > 0
  {
    if den > 0 then Finite(rOut as real / rIn as real * (1.0 - num as real / den as real))
    else if num > 0 then MinusInfinity
    else NotANumber
  }

  function RateXToY(p: Pool): Rate
    requires p.specX > 0
  {
    EffectiveRate(p.specX, p.specY, p.feeNum, p.feeDen)
  }

  function RateYToX(p: Pool): Rate
    requires p.specY > 0
  {
    EffectiveRate(p.specY, p.specX, p.feeNum, p.feeDen)
  }

  /** Swapping forth and back through one pool never gains. */
  lemma NoFreeRoundTrip(p: Pool, w: LogWeight)
    requires Tradable(p) && LikeMinusLog(w)
    ensures w(RateXToY(p)) + w(RateYToX(p)) >= 0
  {
    if p.feeDen > 0 {
      var x, y, k := p.specX as real, p.specY as real, 1.0 - p.feeNum as real / p.feeDen as real;
      ShareKept(p.feeNum as real, p.feeDen as real);
      RatesCancel(x, y, k);
    }
  }

  lemma ShareKept(n: real, d: real)
    requires 0.0 <= n < d
    ensures 0.0 < 1.0 - n / d <= 1.0
  {
    QuotientTimes(n, d);
    QuotientNonNegative(n, d);
    BelowOne(n / d, n, d);
  }

  lemma RatesCancel(x: real, y: real, k: real)
    requires x > 0.0 && y > 0.0 && 0.0 < k <= 1.0
    ensures y / x * k > 0.0 && x / y * k > 0.0 && (y / x * k) * (x / y * k) <= 1.0
  {
    var r, s := y / x, x / y;
    Reciprocal(x, y, r, s);
    SignOfProduct(r, k);
    SignOfProduct(s, k);
    Rearranged(r, k, s);
    SmallSquare(k);
  }

  lemma Rearranged(r: real, k: real, s: real)
    requires r * s == 1.0
    ensures (r * k) * (s * k) == k * k
  {
    assert (r * k) * (s * k) == r * s * (k * k);
  }

  lemma Reciprocal(x: real, y: real, r: real, s: real)
    requires x > 0.0 && y > 0.0 && r == y / x && s == x / y
    ensures r > 0.0 && s > 0.0 && r * s == 1.0
  {
    QuotientTimes(y, x);
    QuotientTimes(x, y);
    CancelLast(r, s, x, y);
  }

  lemma CancelLast(r: real, s: real, x: real, y: real)
    requires x > 0.0 && y > 0.0 && r * x == y && s * y == x
    ensures r * s == 1.0
  {
    assert r * s * y == r * (s * y);
    assert (r * s - 1.0) * y == 0.0;
    if r * s > 1.0 { SignOfProduct(y, r * s - 1.0); }
    if r * s < 1.0 { SignOfProduct(y, 1.0 - r * s); }
  }

  lemma SmallSquare(k: real)
    requires 0.0 < k <= 1.0
    ensures k * k <= 1.0
  {
    var gap := 1.0 - k;
    NonNegative(k, gap);
    assert k * gap == k - k * k;
  }

  /** Paying out h for x at the rate v, less by the factor rin / (rin + f x) for the price it moves. */
  predicate PaidAtRate(v: real, rin: real, f: real, x: real, h: real)
  {
    v * x * rin == h * (rin + f * x)
  }

  /** What the rate means: it is what an infinitesimal swap pays per unit, f being the share the fee leaves. */
  lemma RateIsMarginal(p: Pool, d: bool, x: real)
    requires p.specX > 0 && p.specY > 0 && FeeOk(p) && x >= 0.0
    ensures var rate := if d then RateXToY(p) else RateYToX(p);
            rate.Finite? && PaidAtRate(rate.value, ReserveIn(p, d) as real, FeeKept(p), x, ExactHop(p, d, x))
  {
    hide EffectiveRate, ExactHop, FeeKept, PaidAtRate;
    RateValue(p, d);
    HopTimes(p, d, x);
    var rate := if d then RateXToY(p) else RateYToX(p);
    RateTimes(rate.value, ReserveIn(p, d) as real, ReserveOut(p, d) as real, FeeKept(p), x, ExactHop(p, d, x));
  }

  lemma RateValue(p: Pool, d: bool)
    requires p.specX > 0 && p.specY > 0 && FeeOk(p)
    ensures (if d then RateXToY(p) else RateYToX(p)) == Finite(ReserveOut(p, d) as real / ReserveIn(p, d) as real * FeeKept(p))
  {
    Complement(p.feeNum as real, p.feeDen as real);
  }

  lemma HopTimes(p: Pool, d: bool, x: real)
    requires FeeOk(p) && ReserveIn(p, d) > 0 && x >= 0.0
    ensures ExactHop(p, d, x) * (ReserveIn(p, d) as real + FeeKept(p) * x) == ReserveOut(p, d) as real * (FeeKept(p) * x)
  {
    hide FeeKept, ExactHop;
    NonNegative(FeeKept(p), x);
    HopFormula(p, d, x, FeeKept(p) * x);
    QuotientTimes(ReserveOut(p, d) as real * (FeeKept(p) * x), ReserveIn(p, d) as real + FeeKept(p) * x);
  }

  lemma Complement(n: real, d: real)
    requires d > 0.0
    ensures (d - n) / d == 1.0 - n / d
  {
    QuotientTimes(n, d);
    assert (1.0 - n / d) * d == d - n;
    QuotientUnique(1.0 - n / d, d - n, d);
  }

  lemma RateTimes(v: real, rin: real, rout: real, f: real, x: real, h: real)
    requires rin > 0.0 && v == rout / rin * f && h * (rin + f * x) == rout * (f * x)
    ensures PaidAtRate(v, rin, f, x, h)
  {
    QuotientTimes(rout, rin);
    TimesShuffled(rout / rin, f, x, rin);
  }

  lemma TimesShuffled(q: real, f: real, x: real, r: real)
    ensures q * f * x * r == q * r * (f * x)
  {}

  /** e is one of the two directions of the pool it names. */
  ghost predicate EdgeOf(e: PriceEdge, nodes: seq<(nat, nat)>, pools: seq<Pool>, w: LogWeight)
  {
    && e.poolIdx < |pools| && Tradable(pools[e.poolIdx])
    && var p := pools[e.poolIdx];
       if e.xToY then (p.tokenX, e.src) in nodes && (p.tokenY, e.dst) in nodes && e.weight == w(RateXToY(p))
       else (p.tokenY, e.src) in nodes && (p.tokenX, e.dst) in nodes && e.weight == w(RateYToX(p))
  }

  ghost predicate FromPools(edges: seq<PriceEdge>, nodes: seq<(nat, nat)>, pools: seq<Pool>, w: LogWeight)
  {
    && NodesOk(nodes) && (forall i :: 0 <= i < |edges| ==> EdgeOf(edges[i], nodes, pools, w))
    && forall i :: 0 <= i < |nodes| ==> Traded(nodes[i].0, pools)
  }

  /** Some tradable pool holds the token. */
  ghost predicate Traded(token: nat, pools: seq<Pool>)
  {
    exists i :: 0 <= i < |pools| && Tradable(pools[i]) && (pools[i].tokenX == token || pools[i].tokenY == token)
  }

  lemma FromPoolsExtends(edges: seq<PriceEdge>, nodes: seq<(nat, nat)>, edges': seq<PriceEdge>, nodes': seq<(nat, nat)>,
                         pools: seq<Pool>, w: LogWeight)
    requires FromPools(edges, nodes, pools, w) && NodesOk(nodes')
    requires forall x :: x in nodes ==> x in nodes'
    requires forall i :: 0 <= i < |nodes'| ==> nodes'[i] in nodes || Traded(nodes'[i].0, pools)
    requires |edges'| == |edges| + 1 && edges'[..|edges|] == edges && EdgeOf(edges'[|edges|], nodes', pools, w)
    ensures FromPools(edges', nodes', pools, w)
  {
    forall i | 0 <= i < |edges'| ensures EdgeOf(edges'[i], nodes', pools, w) {
      if i < |edges| { assert edges'[..|edges|][i] == edges'[i]; assert EdgeOf(edges[i], nodes, pools, w); }
    }
    forall i | 0 <= i < |nodes'| ensures Traded(nodes'[i].0, pools) {
      if nodes'[i] in nodes { var j :| 0 <= j < |nodes| && nodes[j] == nodes'[i]; }
    }
  }

  /** A token has one node. */
  lemma OneNode(nodes: seq<(nat, nat)>, token: nat, a: nat, b: nat)
    requires NodesOk(nodes) && (token, a) in nodes && (token, b) in nodes
    ensures a == b
  {
    var i :| 0 <= i < |nodes| && nodes[i] == (token, a);
    var j :| 0 <= j < |nodes| && nodes[j] == (token, b);
    assert nodes[i].0 == nodes[j].0;
  }

  /** Two edges of one pool run alongside each other, or against each other without gain. */
  lemma SamePool(e: PriceEdge, f: PriceEdge, nodes: seq<(nat, nat)>, pools: seq<Pool>, w: LogWeight)
    requires NodesOk(nodes) && EdgeOf(e, nodes, pools, w) && EdgeOf(f, nodes, pools, w) && LikeMinusLog(w)
    requires e.poolIdx == f.poolIdx
    ensures if e.xToY == f.xToY then e.src == f.src && e.dst == f.dst
            else e.src == f.dst && e.dst == f.src && e.weight + f.weight >= 0
  {
    hide EffectiveRate, LikeMinusLog;
    var p := pools[e.poolIdx];
    NoFreeRoundTrip(p, w);
    if e.xToY == f.xToY {
      OneNode(nodes, if e.xToY then p.tokenX else p.tokenY, e.src, f.src);
      OneNode(nodes, if e.xToY then p.tokenY else p.tokenX, e.dst, f.dst);
    } else {
      OneNode(nodes, if e.xToY then p.tokenX else p.tokenY, e.src, f.dst);
      OneNode(nodes, if e.xToY then p.tokenY else p.tokenX, e.dst, f.src);
    }
  }

  lemma HopEdge(edges: seq<PriceEdge>, nodes: seq<(nat, nat)>, pools: seq<Pool>, w: LogWeight,
                c: ArbCycle, hops: seq<PriceEdge>, maxHops: nat, i: nat)
    requires FromPools(edges, nodes, pools, w) && GoodCycle(edges, c, hops, maxHops) && i < |hops|
    ensures EdgeOf(hops[i], nodes, pools, w) && hops[i].poolIdx == c.poolIndices[i] < |pools|
    ensures hops[i].src == c.path[i] && hops[i].dst == c.path[if i + 1 < |c.path| then i + 1 else 0]
  {
    assert HopOk(edges, c, hops, i);
    var j :| 0 <= j < |edges| && edges[j] == hops[i];
    assert EdgeOf(edges[j], nodes, pools, w);
  }

  /** No pool is used twice on a cycle the graph returns: two uses in the same direction would repeat a node,
      two in opposite directions close a cycle of two hops, and that cannot have negative weight. */
  lemma PoolsAreDistinct(edges: seq<PriceEdge>, nodes: seq<(nat, nat)>, pools: seq<Pool>, w: LogWeight,
                         c: ArbCycle, maxHops: nat)
    requires FromPools(edges, nodes, pools, w) && LikeMinusLog(w) && IsGood(edges, c, maxHops)
    ensures Distinct(c.poolIndices)
    ensures |c.poolIndices| == |c.directions|
    ensures forall i :: 0 <= i < |c.poolIndices| ==> c.poolIndices[i] < |pools| && Tradable(pools[c.poolIndices[i]])
  {
    var hops :| GoodCycle(edges, c, hops, maxHops);
    forall i | 0 <= i < |c.poolIndices|
      ensures c.poolIndices[i] < |pools| && Tradable(pools[c.poolIndices[i]])
    {
      HopEdge(edges, nodes, pools, w, c, hops, maxHops, i);
    }
    forall i, j | 0 <= i < j < |c.poolIndices| ensures c.poolIndices[i] != c.poolIndices[j] {
      UsesDiffer(edges, nodes, pools, w, c, hops, maxHops, i, j);
    }
  }

  lemma UsesDiffer(edges: seq<PriceEdge>, nodes: seq<(nat, nat)>, pools: seq<Pool>, w: LogWeight,
                   c: ArbCycle, hops: seq<PriceEdge>, maxHops: nat, i: nat, j: nat)
    requires FromPools(edges, nodes, pools, w) && LikeMinusLog(w) && GoodCycle(edges, c, hops, maxHops)
    requires i < j < |hops|
    ensures |c.poolIndices| == |hops| && c.poolIndices[i] != c.poolIndices[j]
  {
    hide *;
    GoodParts(edges, c, hops, maxHops);
    FromPoolsNodes(edges, nodes, pools, w);
    HopEdge(edges, nodes, pools, w, c, hops, maxHops, i);
    HopEdge(edges, nodes, pools, w, c, hops, maxHops, j);
    if c.poolIndices[i] == c.poolIndices[j] {
      SamePool(hops[i], hops[j], nodes, pools, w);
      // against each other, so that j follows i and i follows j
      if |hops| == 2 { TwoHops(hops); }
    }
  }

  lemma GoodParts(edges: seq<PriceEdge>, c: ArbCycle, hops: seq<PriceEdge>, maxHops: nat)
    requires GoodCycle(edges, c, hops, maxHops)
    ensures |c.path| == |c.poolIndices| == |c.directions| == |hops| && WalkSum(hops) < 0
    ensures forall i, j :: 0 <= i < j < |c.path| ==> c.path[i] != c.path[j]
  {}

  lemma FromPoolsNodes(edges: seq<PriceEdge>, nodes: seq<(nat, nat)>, pools: seq<Pool>, w: LogWeight)
    requires FromPools(edges, nodes, pools, w)
    ensures NodesOk(nodes)
  {}

  lemma TwoHops(hops: seq<PriceEdge>)
    requires |hops| == 2
    ensures WalkSum(hops) == hops[0].weight + hops[1].weight
  {
    assert hops[..1][..0] == [];
    assert WalkSum(hops[..1]) == hops[0].weight;
  }

  // ── Building ─────────────────────────────────────────────────────

  ghost predicate HasEdge(edges: seq<PriceEdge>, i: nat, xToY: bool)
  {
    exists k :: 0 <= k < |edges| && edges[k].poolIdx == i && edges[k].xToY == xToY
  }

  /** Pool by pool, x to y first. */
  ghost predicate InPoolOrder(edges: seq<PriceEdge>)
  {
    forall a, b :: 0 <= a < b < |edges| ==>
      edges[a].poolIdx < edges[b].poolIdx || (edges[a].poolIdx == edges[b].poolIdx && edges[a].xToY && !edges[b].xToY)
  }

  /** Both directions of every tradable pool among the first k, each once, in order. */
  ghost predicate Complete(edges: seq<PriceEdge>, pools: seq<Pool>, k: nat)
  {
    && k <= |pools| && InPoolOrder(edges) && (forall a :: 0 <= a < |edges| ==> edges[a].poolIdx < k)
    && forall i :: 0 <= i < k && Tradable(pools[i]) ==> HasEdge(edges, i, true) && HasEdge(edges, i, false)
  }

  lemma StillHas(edges: seq<PriceEdge>, edges': seq<PriceEdge>, i: nat, xToY: bool)
    requires HasEdge(edges, i, xToY) && edges <= edges'
    ensures HasEdge(edges', i, xToY)
  {
    var k :| 0 <= k < |edges| && edges[k].poolIdx == i && edges[k].xToY == xToY;
    assert edges'[k] == edges[k];
  }

  /** What pool k adds: both its directions if it is tradable. */
  ghost predicate Adds(edges: seq<PriceEdge>, edges': seq<PriceEdge>, p: Pool, k: nat)
  {
    if Tradable(p) then
      exists e: PriceEdge, f: PriceEdge :: edges' == edges + [e, f] && e.poolIdx == f.poolIdx == k && e.xToY && !f.xToY
    else edges' == edges
  }

  lemma CompleteNext(edges: seq<PriceEdge>, edges': seq<PriceEdge>, pools: seq<Pool>, k: nat)
    requires Complete(edges, pools, k) && k < |pools| && Adds(edges, edges', pools[k], k)
    ensures Complete(edges', pools, k + 1)
  {
    var n := |edges|;
    forall i | 0 <= i < k + 1 && Tradable(pools[i]) ensures HasEdge(edges', i, true) && HasEdge(edges', i, false) {
      if i < k {
        StillHas(edges, edges', i, true);
        StillHas(edges, edges', i, false);
      } else {
        assert edges'[n].poolIdx == k && edges'[n + 1].poolIdx == k;
      }
    }
  }

  /** Clears the graph and adds both directions of every tradable pool, whatever the fees registered. */
  method BuildFromShadow(graph: PriceGraph, shadow: StateShadow, ghost s: State, w: LogWeight)
    requires graph.Valid() && shadow.Valid() && s == shadow.View()
    modifies graph
    ensures graph.Valid() && FromPools(graph.edges, graph.tokenToNode, s.pools, w)
    ensures Complete(graph.edges, s.pools, |s.pools|)
  {
    graph.Clear();
    for i := 0 to shadow.poolCount
      invariant graph.Valid() && shadow.Valid() && s == shadow.View()
      invariant FromPools(graph.edges, graph.tokenToNode, s.pools, w)
      invariant Complete(graph.edges, s.pools, i)
    {
      hide FromPools, HasEdge, NodesOk, WellFormed, Complete, LikeMinusLog;
      ghost var before := graph.edges;
      assert s.pools[i] == shadow.Row(i);
      if shadow.active[i] && shadow.specX[i] != 0 && shadow.specY[i] != 0 {
        var p := Pool(shadow.tokenX[i], shadow.tokenY[i], shadow.reserveX[i], shadow.reserveY[i], shadow.feeNum[i],
                      shadow.feeDen[i], shadow.specX[i], shadow.specY[i], shadow.specDirty[i], true, shadow.lastSlot[i]);
        AddPool(graph, p, i, s.pools, w);
      }
      CompleteNext(before, graph.edges, s.pools, i);
    }
  }

  lemma RateSign(rIn: nat, rOut: nat, num: nat, den: nat)
    requires rIn > 0 && rOut > 0
    ensures EffectiveRate(rIn, rOut, num, den).AtMostZero() <==> !(num < den || (num == 0 && den == 0))
  {
    if den > 0 {
      var r, f := rOut as real / rIn as real, num as real / den as real;
      assert r > 0.0;
      BelowOne(f, num as real, den as real);
      SignOfProduct(r, 1.0 - f);
    }
  }

  lemma BelowOne(f: real, n: real, d: real)
    requires d > 0.0 && f * d == n
    ensures f < 1.0 <==> n < d
  {
    assert (1.0 - f) * d == d - n;
  }

  lemma SignOfProduct(r: real, k: real)
    requires r > 0.0
    ensures r * k > 0.0 <==> k > 0.0
  {}

  method AddPool(graph: PriceGraph, p: Pool, i: nat, ghost pools: seq<Pool>, w: LogWeight)
    requires graph.Valid() && i < |pools| && pools[i] == p && p.active && p.specX > 0 && p.specY > 0
    requires FromPools(graph.edges, graph.tokenToNode, pools, w)
    modifies graph
    ensures graph.Valid() && FromPools(graph.edges, graph.tokenToNode, pools, w)
    ensures Adds(old(graph.edges), graph.edges, p, i)
  {
    hide FromPools, NodesOk, WellFormed;
    ghost var before := graph.edges;
    RateSign(p.specX, p.specY, p.feeNum, p.feeDen);
    RateSign(p.specY, p.specX, p.feeNum, p.feeDen);
    AddDirection(graph, p.tokenX, p.tokenY, i, RateXToY(p), true, pools, w);
    ghost var half := graph.edges;
    AddDirection(graph, p.tokenY, p.tokenX, i, RateYToX(p), false, pools, w);
    if Tradable(p) {
      var e, f := half[|before|], graph.edges[|half|];
      assert graph.edges == before + [e, f];
    }
  }

  /** One call of add_edge, keeping the correspondence with the pools. */
  method AddDirection(graph: PriceGraph, src: nat, dst: nat, i: nat, rate: Rate, xToY: bool,
                      ghost pools: seq<Pool>, w: LogWeight)
    requires graph.Valid() && i < |pools| && FromPools(graph.edges, graph.tokenToNode, pools, w)
    requires var p := pools[i];
             p.specX > 0 && p.specY > 0
             && if xToY then src == p.tokenX && dst == p.tokenY && rate == RateXToY(p)
                else src == p.tokenY && dst == p.tokenX && rate == RateYToX(p)
    requires !rate.AtMostZero() ==> Tradable(pools[i])
    modifies graph
    ensures graph.Valid() && FromPools(graph.edges, graph.tokenToNode, pools, w)
    ensures if rate.AtMostZero() then graph.edges == old(graph.edges)
            else && |graph.edges| == |old(graph.edges)| + 1 && graph.edges[..|old(graph.edges)|] == old(graph.edges)
                 && var e := graph.edges[|old(graph.edges)|]; e.poolIdx == i && e.xToY == xToY
  {
    ghost var edges, nodes := graph.edges, graph.tokenToNode;
    WithTokenOk(nodes, src);
    WithTokenOk(WithToken(nodes, src), dst);
    graph.AddEdge(src, dst, i, rate, w, xToY);
    if !rate.AtMostZero() {
      NodesTraded(nodes, src, dst, pools, i);
      FromPoolsExtends(edges, nodes, graph.edges, graph.tokenToNode, pools, w);
    }
  }

  lemma NodesTraded(nodes: seq<(nat, nat)>, src: nat, dst: nat, pools: seq<Pool>, i: nat)
    requires i < |pools| && Tradable(pools[i])
    requires (src == pools[i].tokenX && dst == pools[i].tokenY) || (src == pools[i].tokenY && dst == pools[i].tokenX)
    ensures var r := WithToken(WithToken(nodes, src), dst);
            forall k :: 0 <= k < |r| ==> r[k] in nodes || Traded(r[k].0, pools)
  {
    assert Traded(src, pools) && Traded(dst, pools);
  }
}
