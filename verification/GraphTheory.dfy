/** Walks in a weighted graph, and what bounded relaxation says about negative cycles. */
module GraphTheory {
  import opened Arith

  const I32_MAX: int := 0x7fff_ffff
  const I32_MIN: int := -0x8000_0000
  const INFINITE: int := 0x3fff_ffff          // i32::MAX / 2

  type Weight = w: int | I32_MIN <= w <= I32_MAX

  datatype PriceEdge = PriceEdge(src: nat, dst: nat, poolIdx: nat, weight: Weight, xToY: bool)

  function SaturatingAdd(a: int, b: int): (r: int)
    ensures I32_MIN <= r <= I32_MAX
    ensures I32_MIN <= a + b <= I32_MAX ==> r == a + b
  {
    if a + b > I32_MAX then I32_MAX else if a + b < I32_MIN then I32_MIN else a + b
  }

  /** No 32-bit number is nearer to the sum. */
  lemma SaturatesToNearest(a: int, b: int, x: int)
    requires I32_MIN <= x <= I32_MAX
    ensures Distance(SaturatingAdd(a, b), a + b) <= Distance(x, a + b)
  {}

  function Distance(x: int, y: int): nat { if x < y then y - x else x - y }

  ghost predicate WellFormed(edges: seq<PriceEdge>, n: nat)
  {
    forall i :: 0 <= i < |edges| ==> edges[i].src < n && edges[i].dst < n
  }

  // ── Walks ────────────────────────────────────────────────────────

  /** es leads from s to v along edges of the graph. */
  ghost predicate Walk(edges: seq<PriceEdge>, es: seq<PriceEdge>, s: nat, v: nat)
    decreases |es|
  {
    if |es| == 0 then s == v
    else
      var e := es[|es| - 1];
      e in edges && e.dst == v && Walk(edges, es[..|es| - 1], s, e.src)
  }

  function WalkSum(es: seq<PriceEdge>): int
  {
    if |es| == 0 then 0 else WalkSum(es[..|es| - 1]) + es[|es| - 1].weight
  }

  /** The node reached after k edges. */
  ghost function NodeAt(es: seq<PriceEdge>, s: nat, k: nat): nat
    requires k <= |es|
  {
    if k == 0 then s else es[k - 1].dst
  }

  lemma {:induction false} WalkSplit(edges: seq<PriceEdge>, es: seq<PriceEdge>, s: nat, v: nat, k: nat)
    requires Walk(edges, es, s, v) && k <= |es|
    ensures Walk(edges, es[..k], s, NodeAt(es, s, k)) && Walk(edges, es[k..], NodeAt(es, s, k), v)
    ensures WalkSum(es) == WalkSum(es[..k]) + WalkSum(es[k..])
    decreases |es|
  {
    if k == |es| {
      assert es[..k] == es && es[k..] == [];
    } else {
      var es' := es[..|es| - 1];
      WalkSplit(edges, es', s, es[|es| - 1].src, k);
      assert es'[..k] == es[..k] && es[k..][..|es| - k - 1] == es'[k..];
      assert NodeAt(es', s, k) == NodeAt(es, s, k);
    }
  }

  lemma {:induction false} WalkJoin(edges: seq<PriceEdge>, a: seq<PriceEdge>, b: seq<PriceEdge>, s: nat, u: nat, v: nat)
    requires Walk(edges, a, s, u) && Walk(edges, b, u, v)
    ensures Walk(edges, a + b, s, v) && WalkSum(a + b) == WalkSum(a) + WalkSum(b)
    decreases |b|
  {
    if |b| == 0 {
      assert a + b == a;
    } else {
      var b' := b[..|b| - 1];
      WalkJoin(edges, a, b', s, u, b[|b| - 1].src);
      assert (a + b)[..|a + b| - 1] == a + b';
    }
  }

  lemma {:induction false} NodesInRange(edges: seq<PriceEdge>, es: seq<PriceEdge>, s: nat, v: nat, n: nat, k: nat)
    requires WellFormed(edges, n) && s < n && Walk(edges, es, s, v) && k <= |es|
    ensures NodeAt(es, s, k) < n
  {
    WalkSplit(edges, es, s, v, k);
  }

  // ── Pigeonhole ───────────────────────────────────────────────────

  lemma {:induction false} Pigeonhole(s: seq<nat>, n: nat) returns (i: nat, j: nat)
    requires |s| > n && forall k :: 0 <= k < |s| ==> s[k] < n
    ensures i < j < |s| && s[i] == s[j]
    decreases n
  {
    if n == 0 {
      i, j := 0, s[0];          // no natural number is below zero
    } else {
      i := FindLast(s, n - 1);
      if i == |s| {
        i, j := Pigeonhole(s, n - 1);
      } else {
        j := FindLast(s[..i], n - 1);
        if j < i {
          i, j := j, i;
        } else {
          var a, b := Pigeonhole(s[..i] + s[i + 1..], n - 1);
          i, j := if a < i then a else a + 1, if b < i then b else b + 1;
        }
      }
    }
  }

  /** The last position of x in s, or |s|. */
  lemma {:induction false} FindLast(s: seq<nat>, x: nat) returns (i: nat)
    ensures i <= |s| && (i < |s| ==> s[i] == x)
    ensures forall k :: (if i == |s| then 0 else i + 1) <= k < |s| ==> s[k] != x
    ensures i < |s| ==> x !in s[i + 1..]
  {
    if |s| == 0 {
      i := 0;
    } else if s[|s| - 1] == x {
      i := |s| - 1;
    } else {
      i := FindLast(s[..|s| - 1], x);
      if i == |s| - 1 { i := |s|; }
    }
  }

  // ── Negative cycles and short walks ──────────────────────────────

  /** p leads from s to x, and c is a negative closed walk at x. */
  ghost predicate NegativeCycleAt(edges: seq<PriceEdge>, s: nat, p: seq<PriceEdge>, c: seq<PriceEdge>, x: nat)
  {
    Walk(edges, p, s, x) && |c| > 0 && Walk(edges, c, x, x) && WalkSum(c) < 0
  }

  ghost predicate NegativeCycleReachable(edges: seq<PriceEdge>, s: nat)
  {
    exists p, c, x :: NegativeCycleAt(edges, s, p, c, x)
  }

  /** Without reachable negative cycles every walk can be cut down to fewer than n edges without gaining weight. */
  lemma {:induction false} Shorten(edges: seq<PriceEdge>, n: nat, s: nat, es: seq<PriceEdge>, v: nat)
    returns (short: seq<PriceEdge>)
    requires WellFormed(edges, n) && s < n && Walk(edges, es, s, v) && !NegativeCycleReachable(edges, s)
    ensures Walk(edges, short, s, v) && |short| < n && WalkSum(short) <= WalkSum(es)
    decreases |es|
  {
    if |es| < n {
      short := es;
    } else {
      var nodes := seq(|es| + 1, k requires 0 <= k <= |es| => NodeAt(es, s, k));
      forall k | 0 <= k < |nodes| ensures nodes[k] < n { NodesInRange(edges, es, s, v, n, k); }
      var i, j := Pigeonhole(nodes, n);
      var cut := CutLoop(edges, s, es, v, i, j);
      short := Shorten(edges, n, s, cut, v);
    }
  }

  lemma CutLoop(edges: seq<PriceEdge>, s: nat, es: seq<PriceEdge>, v: nat, i: nat, j: nat)
    returns (cut: seq<PriceEdge>)
    requires Walk(edges, es, s, v) && !NegativeCycleReachable(edges, s)
    requires i < j <= |es| && NodeAt(es, s, i) == NodeAt(es, s, j)
    ensures Walk(edges, cut, s, v) && |cut| < |es| && WalkSum(cut) <= WalkSum(es)
  {
    var x := NodeAt(es, s, i);
    WalkSplit(edges, es, s, v, j);
    WalkSplit(edges, es[..j], s, x, i);
    assert es[..j][..i] == es[..i] && es[..j][i..] == es[i..j] && NodeAt(es[..j], s, i) == x;
    assert !NegativeCycleAt(edges, s, es[..i], es[i..j], x);
    cut := es[..i] + es[j..];
    WalkJoin(edges, es[..i], es[j..], s, x, v);
  }

  // ── Distances ────────────────────────────────────────────────────

  /** The test both the relaxation and the detection pass make. */
  predicate Relaxable(dist: seq<int>, e: PriceEdge)
    requires e.src < |dist| && e.dst < |dist|
  {
    dist[e.src] < INFINITE && SaturatingAdd(dist[e.src], e.weight) < dist[e.dst]
  }

  ghost predicate AnyRelaxable(edges: seq<PriceEdge>, dist: seq<int>)
    requires WellFormed(edges, |dist|)
  {
    exists i :: 0 <= i < |edges| && Relaxable(dist, edges[i])
  }

  function MaxWeight(edges: seq<PriceEdge>): nat
  {
    if |edges| == 0 then 0
    else
      var m: int, w: int := MaxWeight(edges[..|edges| - 1]), edges[|edges| - 1].weight;
      if w > m then w else if -w > m then -w else m
  }

  lemma {:induction false} WeightBound(edges: seq<PriceEdge>, i: nat)
    requires i < |edges|
    ensures 0 - MaxWeight(edges) <= edges[i].weight <= MaxWeight(edges)
    decreases |edges|
  {
    if i < |edges| - 1 {
      WeightBound(edges[..|edges| - 1], i);
    }
  }

  /** `steps` edges of the graph, and one more, stay clear of saturation and of the infinite mark. */
  ghost predicate Tame(edges: seq<PriceEdge>, steps: nat)
  {
    Times(MaxWeight(edges), steps + 1) < INFINITE
  }

  lemma TameLess(edges: seq<PriceEdge>, a: nat, b: nat)
    requires Tame(edges, b) && a <= b
    ensures Tame(edges, a)
  {
    MulMonotone(a + 1, b + 1, MaxWeight(edges));
  }

  lemma {:induction false} WalkSumBound(edges: seq<PriceEdge>, es: seq<PriceEdge>, s: nat, v: nat)
    requires Walk(edges, es, s, v)
    ensures -Times(MaxWeight(edges), |es|) <= WalkSum(es) <= Times(MaxWeight(edges), |es|)
    decreases |es|
  {
    if |es| > 0 {
      var e := es[|es| - 1];
      WalkSumBound(edges, es[..|es| - 1], s, e.src);
      var i :| 0 <= i < |edges| && edges[i] == e;
      WeightBound(edges, i);
      assert Times(MaxWeight(edges), |es|) == Times(MaxWeight(edges), |es| - 1) + MaxWeight(edges) by {
        TimesStep(MaxWeight(edges), |es| - 1);
      }
    }
  }

  lemma TimesStep(k: int, m: int)
    ensures Times(k, m + 1) == Times(k, m) + k
  {}

  /** Every finite distance is the weight of a walk of at most `steps` edges. */
  ghost predicate Witnessed(edges: seq<PriceEdge>, dist: seq<int>, walks: seq<seq<PriceEdge>>, s: nat, steps: nat)
  {
    && |walks| == |dist|
    && forall v :: 0 <= v < |dist| ==> WitnessedAt(edges, dist[v], walks[v], s, v, steps)
  }

  ghost predicate WitnessedAt(edges: seq<PriceEdge>, d: int, w: seq<PriceEdge>, s: nat, v: nat, steps: nat)
  {
    d <= INFINITE && (d < INFINITE ==> |w| <= steps && Walk(edges, w, s, v) && WalkSum(w) == d)
  }

  /** No walk of at most k edges is shorter than the distance. */
  ghost predicate AtMostWalks(edges: seq<PriceEdge>, dist: seq<int>, s: nat, k: nat)
  {
    forall es: seq<PriceEdge>, v: nat {:trigger Walk(edges, es, s, v)} ::
      v < |dist| && |es| <= k && Walk(edges, es, s, v) ==> dist[v] <= WalkSum(es)
  }

  /** Adding one edge to a witnessed finite distance does not saturate. */
  lemma ExactAdd(edges: seq<PriceEdge>, dist: seq<int>, walks: seq<seq<PriceEdge>>, s: nat, steps: nat, e: PriceEdge)
    requires Witnessed(edges, dist, walks, s, steps) && Tame(edges, steps) && e in edges
    requires e.src < |dist| && dist[e.src] < INFINITE
    ensures SaturatingAdd(dist[e.src], e.weight) == dist[e.src] + e.weight < INFINITE
  {
    var m := MaxWeight(edges);
    assert WitnessedAt(edges, dist[e.src], walks[e.src], s, e.src, steps);
    WalkSumBound(edges, walks[e.src], s, e.src);
    MulMonotone(|walks[e.src]|, steps, m);
    TimesStep(m, steps);
    var i :| 0 <= i < |edges| && edges[i] == e;
    WeightBound(edges, i);
  }

  /** Where nothing can be relaxed, finiteness follows edges and no closed walk is negative. */
  lemma {:induction false} StableDistances(edges: seq<PriceEdge>, dist: seq<int>, walks: seq<seq<PriceEdge>>,
                                          s: nat, steps: nat, es: seq<PriceEdge>, u: nat, v: nat)
    requires WellFormed(edges, |dist|) && Witnessed(edges, dist, walks, s, steps) && Tame(edges, steps)
    requires !AnyRelaxable(edges, dist) && u < |dist| && dist[u] < INFINITE && Walk(edges, es, u, v)
    ensures v < |dist| && dist[v] < INFINITE && dist[v] <= dist[u] + WalkSum(es)
    decreases |es|
  {
    if |es| > 0 {
      var e := es[|es| - 1];
      StableDistances(edges, dist, walks, s, steps, es[..|es| - 1], u, e.src);
      ExactAdd(edges, dist, walks, s, steps, e);
      var i :| 0 <= i < |edges| && edges[i] == e;
      assert !Relaxable(dist, edges[i]);
    }
  }

  lemma StableMeansNone(edges: seq<PriceEdge>, dist: seq<int>, walks: seq<seq<PriceEdge>>, s: nat, steps: nat)
    requires WellFormed(edges, |dist|) && Witnessed(edges, dist, walks, s, steps) && Tame(edges, steps)
    requires s < |dist| && dist[s] < INFINITE && !AnyRelaxable(edges, dist)
    ensures !NegativeCycleReachable(edges, s)
  {
    forall p, c, x | NegativeCycleAt(edges, s, p, c, x) ensures false {
      StableDistances(edges, dist, walks, s, steps, p, s, x);
      StableDistances(edges, dist, walks, s, steps, c, x, x);
    }
  }

  lemma RelaxableMeansNegative(edges: seq<PriceEdge>, dist: seq<int>, walks: seq<seq<PriceEdge>>, s: nat, steps: nat)
    requires WellFormed(edges, |dist|) && Witnessed(edges, dist, walks, s, steps) && Tame(edges, steps)
    requires s < |dist| && AtMostWalks(edges, dist, s, |dist| - 1) && AnyRelaxable(edges, dist)
    ensures NegativeCycleReachable(edges, s)
  {
    if !NegativeCycleReachable(edges, s) {
      var i :| 0 <= i < |edges| && Relaxable(dist, edges[i]);
      var e := edges[i];
      ExactAdd(edges, dist, walks, s, steps, e);
      assert WitnessedAt(edges, dist[e.src], walks[e.src], s, e.src, steps);
      var es := walks[e.src] + [e];
      assert es[..|es| - 1] == walks[e.src];
      assert Walk(edges, es, s, e.dst) && WalkSum(es) == dist[e.src] + e.weight;
      var short := Shorten(edges, |dist|, s, es, e.dst);
    }
  }

  /** With distances no larger than every walk of n - 1 edges, the detection pass finds a relaxable edge
      exactly when a negative cycle is reachable. */
  lemma DetectionExact(edges: seq<PriceEdge>, dist: seq<int>, walks: seq<seq<PriceEdge>>, s: nat, steps: nat)
    requires WellFormed(edges, |dist|) && Witnessed(edges, dist, walks, s, steps) && Tame(edges, steps)
    requires s < |dist| && dist[s] < INFINITE && AtMostWalks(edges, dist, s, |dist| - 1)
    ensures AnyRelaxable(edges, dist) <==> NegativeCycleReachable(edges, s)
  {
    if AnyRelaxable(edges, dist) {
      RelaxableMeansNegative(edges, dist, walks, s, steps);
    } else {
      StableMeansNone(edges, dist, walks, s, steps);
    }
  }

  // ── Walks covered in a number of passes ──────────────────────────

  /** es uses the edges at the positions js of the list. */
  ghost predicate Placed(edges: seq<PriceEdge>, es: seq<PriceEdge>, js: seq<nat>)
  {
    |js| == |es| && forall i :: 0 <= i < |js| ==> js[i] < |edges| && edges[js[i]] == es[i]
  }

  /** The number of maximal increasing runs in js: passes over the list that meet its positions in order. */
  function Rounds(js: seq<nat>): nat
  {
    if |js| <= 1 then |js| else Rounds(js[..|js| - 1]) + if js[|js| - 2] < js[|js| - 1] then 0 else 1
  }

  /** k whole passes and the first j edges of the next meet the positions js in order. */
  ghost predicate InTime(js: seq<nat>, k: nat, j: nat)
  {
    Rounds(js) <= k || (|js| > 0 && Rounds(js) <= k + 1 && js[|js| - 1] < j)
  }

  /** No distance exceeds a walk from s of at most n edges that the passes so far have met in order. */
  ghost predicate Covered(edges: seq<PriceEdge>, dist: seq<int>, s: nat, n: nat, k: nat, j: nat)
  {
    forall es: seq<PriceEdge>, js: seq<nat>, v: nat {:trigger Walk(edges, es, s, v), Placed(edges, es, js)} ::
      v < |dist| && |es| <= n && Walk(edges, es, s, v) && Placed(edges, es, js) && InTime(js, k, j) ==>
        dist[v] <= WalkSum(es)
  }

  lemma InTimeLess(js: seq<nat>, k: nat, j: nat)
    requires |js| > 0 && InTime(js, k, j + 1) && !InTime(js, k, j)
    ensures js[|js| - 1] == j && InTime(js[..|js| - 1], k, j)
  {}

  /** Relaxing the edge at position j covers the walks that end with it. */
  lemma CoverStep(edges: seq<PriceEdge>, dist: seq<int>, dist': seq<int>, walks: seq<seq<PriceEdge>>, s: nat, steps: nat,
                  n: nat, k: nat, j: nat)
    requires WellFormed(edges, |dist|) && j < |edges| && Witnessed(edges, dist, walks, s, steps)
    requires Tame(edges, steps) && Tame(edges, n) && Covered(edges, dist, s, n, k, j) && s < |dist|
    requires dist' == if Relaxable(dist, edges[j])
                      then dist[edges[j].dst := SaturatingAdd(dist[edges[j].src], edges[j].weight)] else dist
    ensures Covered(edges, dist', s, n, k, j + 1)
  {
    forall es: seq<PriceEdge>, js: seq<nat>, v: nat
      | v < |dist| && |es| <= n && Walk(edges, es, s, v) && Placed(edges, es, js) && InTime(js, k, j + 1)
      ensures dist'[v] <= WalkSum(es)
    {
      if InTime(js, k, j) {
        assert dist[v] <= WalkSum(es);
      } else {
        InTimeLess(js, k, j);
        LastEdge(edges, dist, walks, s, steps, n, k, j, es, js, v);
      }
    }
  }

  lemma LastEdge(edges: seq<PriceEdge>, dist: seq<int>, walks: seq<seq<PriceEdge>>, s: nat, steps: nat,
                 n: nat, k: nat, j: nat, es: seq<PriceEdge>, js: seq<nat>, v: nat)
    requires WellFormed(edges, |dist|) && j < |edges| && Witnessed(edges, dist, walks, s, steps)
    requires Tame(edges, steps) && Tame(edges, n) && Covered(edges, dist, s, n, k, j) && s < |dist|
    requires 0 < |es| <= n && Walk(edges, es, s, v) && Placed(edges, es, js)
    requires js[|js| - 1] == j && InTime(js[..|js| - 1], k, j)
    ensures v == edges[j].dst
    ensures SaturatingAdd(dist[edges[j].src], edges[j].weight) <= WalkSum(es)
    ensures Relaxable(dist, edges[j]) || dist[v] <= WalkSum(es)
  {
    hide MaxWeight;
    var e, es', js' := edges[j], es[..|es| - 1], js[..|js| - 1];
    assert es[|es| - 1] == edges[js[|js| - 1]] == e;
    assert Placed(edges, es', js') && Walk(edges, es', s, e.src);
    assert dist[e.src] <= WalkSum(es');
    WalkSumBound(edges, es', s, e.src);
    MulMonotone(|es'|, n + 1, MaxWeight(edges));
    ExactAdd(edges, dist, walks, s, steps, e);
  }

  lemma {:induction false} RoundsAtMost(js: seq<nat>)
    ensures Rounds(js) <= |js|
    ensures |js| >= 2 && js[0] < js[1] ==> Rounds(js) <= |js| - 1
  {
    if |js| >= 2 {
      RoundsAtMost(js[..|js| - 1]);
      if |js| == 2 { assert js[..1] == [js[0]]; }
    }
  }

  lemma {:induction false} RoundsOfPrefix(js: seq<nat>, i: nat)
    requires i <= |js|
    ensures Rounds(js[..i]) <= Rounds(js)
    decreases |js|
  {
    if i < |js| {
      RoundsOfPrefix(js[..|js| - 1], i);
      assert js[..|js| - 1][..i] == js[..i];
    } else {
      assert js[..i] == js;
    }
  }

  lemma {:induction false} Place(edges: seq<PriceEdge>, es: seq<PriceEdge>, s: nat, v: nat) returns (js: seq<nat>)
    requires Walk(edges, es, s, v)
    ensures Placed(edges, es, js)
    decreases |es|
  {
    if |es| == 0 {
      js := [];
    } else {
      var e := es[|es| - 1];
      js := Place(edges, es[..|es| - 1], s, e.src);
      var i :| 0 <= i < |edges| && edges[i] == e;
      js := js + [i];
    }
  }

  /** In particular k passes cover every walk of k edges. */
  lemma CoveredWalks(edges: seq<PriceEdge>, dist: seq<int>, s: nat, n: nat, k: nat)
    requires Covered(edges, dist, s, n, k, 0) && k <= n
    ensures AtMostWalks(edges, dist, s, k)
  {
    forall es: seq<PriceEdge>, v: nat | v < |dist| && |es| <= k && Walk(edges, es, s, v) ensures dist[v] <= WalkSum(es) {
      var js := Place(edges, es, s, v);
      RoundsAtMost(js);
      assert InTime(js, k, 0);
    }
  }

  // ── Without a negative cycle distances are weights of simple walks ──

  /** The walk behind a distance: simple, and no node on it is farther than along it. */
  ghost predicate KeptAt(dist: seq<int>, w: seq<PriceEdge>, s: nat)
  {
    && (forall i :: 0 <= i <= |w| ==> NodeAt(w, s, i) < |dist| && dist[NodeAt(w, s, i)] <= WalkSum(w[..i]))
    && (forall i, j :: 0 <= i < j <= |w| ==> NodeAt(w, s, i) != NodeAt(w, s, j))
  }

  ghost predicate Kept(dist: seq<int>, walks: seq<seq<PriceEdge>>, s: nat)
  {
    |walks| == |dist| && forall v :: 0 <= v < |dist| && dist[v] < INFINITE ==> KeptAt(dist, walks[v], s)
  }

  lemma PrefixOfExtended(w: seq<PriceEdge>, e: PriceEdge, s: nat, i: nat)
    requires i <= |w| + 1
    ensures i <= |w| ==> (w + [e])[..i] == w[..i] && NodeAt(w + [e], s, i) == NodeAt(w, s, i)
    ensures i == |w| + 1 ==> NodeAt(w + [e], s, i) == e.dst && WalkSum((w + [e])[..i]) == WalkSum(w) + e.weight
  {
    if i == |w| + 1 {
      assert (w + [e])[..i] == w + [e] && (w + [e])[..|w|] == w;
    }
  }

  /** A relaxable edge cannot lead back to a node of the walk: the loop it closes would be negative. */
  lemma NoReturn(edges: seq<PriceEdge>, dist: seq<int>, w: seq<PriceEdge>, s: nat, e: PriceEdge, i: nat)
    requires !NegativeCycleReachable(edges, s) && Walk(edges, w, s, e.src) && e in edges && KeptAt(dist, w, s)
    requires e.dst < |dist| && WalkSum(w) + e.weight < dist[e.dst] && i <= |w|
    ensures NodeAt(w, s, i) != e.dst
  {
    if NodeAt(w, s, i) == e.dst { ReturnIsNegative(edges, dist, w, s, e, i); }
  }

  lemma ReturnIsNegative(edges: seq<PriceEdge>, dist: seq<int>, w: seq<PriceEdge>, s: nat, e: PriceEdge, i: nat)
    requires Walk(edges, w, s, e.src) && e in edges && KeptAt(dist, w, s)
    requires e.dst < |dist| && WalkSum(w) + e.weight < dist[e.dst] && i <= |w| && NodeAt(w, s, i) == e.dst
    ensures NegativeCycleReachable(edges, s)
  {
    var es := w + [e];
    assert es[..|w|] == w;
    assert Walk(edges, es, s, e.dst);
    PrefixOfExtended(w, e, s, i);
    WalkSplit(edges, es, s, e.dst, i);
    assert dist[e.dst] <= WalkSum(w[..i]);
    assert WalkSum(es) == WalkSum(w) + e.weight;
    var c := es[i..];
    assert WalkSum(c) < 0 && Walk(edges, c, e.dst, e.dst);
    assert NegativeCycleAt(edges, s, es[..i], c, e.dst);
  }

  lemma KeptExtends(edges: seq<PriceEdge>, dist: seq<int>, w: seq<PriceEdge>, s: nat, e: PriceEdge)
    requires !NegativeCycleReachable(edges, s) && Walk(edges, w, s, e.src) && e in edges && KeptAt(dist, w, s)
    requires e.dst < |dist| && WalkSum(w) + e.weight < dist[e.dst]
    ensures KeptAt(dist[e.dst := WalkSum(w) + e.weight], w + [e], s)
  {
    var es, d' := w + [e], dist[e.dst := WalkSum(w) + e.weight];
    forall i | 0 <= i <= |es| ensures NodeAt(es, s, i) < |dist| && d'[NodeAt(es, s, i)] <= WalkSum(es[..i]) {
      PrefixOfExtended(w, e, s, i);
    }
    forall i, j | 0 <= i < j <= |es| ensures NodeAt(es, s, i) != NodeAt(es, s, j) {
      PrefixOfExtended(w, e, s, i);
      PrefixOfExtended(w, e, s, j);
      NoReturn(edges, dist, w, s, e, i);
    }
  }

  lemma KeptStep(edges: seq<PriceEdge>, dist: seq<int>, walks: seq<seq<PriceEdge>>, s: nat, steps: nat, e: PriceEdge)
    requires !NegativeCycleReachable(edges, s) && Kept(dist, walks, s) && Witnessed(edges, dist, walks, s, steps)
    requires Tame(edges, steps) && e in edges && e.src < |dist| && e.dst < |dist| && Relaxable(dist, e)
    ensures Kept(dist[e.dst := SaturatingAdd(dist[e.src], e.weight)], walks[e.dst := walks[e.src] + [e]], s)
    ensures KeptAt(dist[e.dst := SaturatingAdd(dist[e.src], e.weight)], walks[e.src] + [e], s)
  {
    var u, v := e.src, e.dst;
    ExactAdd(edges, dist, walks, s, steps, e);
    assert WitnessedAt(edges, dist[u], walks[u], s, u, steps);
    KeptExtends(edges, dist, walks[u], s, e);
    var d', w' := dist[v := dist[u] + e.weight], walks[v := walks[u] + [e]];
    forall x | 0 <= x < |dist| && d'[x] < INFINITE ensures KeptAt(d', w'[x], s) {
      if x != v { StillKept(dist, d', walks[x], s); }
    }
  }

  lemma StillKept(dist: seq<int>, dist': seq<int>, w: seq<PriceEdge>, s: nat)
    requires KeptAt(dist, w, s) && |dist'| == |dist| && forall v :: 0 <= v < |dist| ==> dist'[v] <= dist[v]
    ensures KeptAt(dist', w, s)
  {
    forall i | 0 <= i <= |w| ensures NodeAt(w, s, i) < |dist| && dist'[NodeAt(w, s, i)] <= WalkSum(w[..i]) {}
  }

  /** A simple walk among n nodes has fewer than n edges. */
  lemma SimpleIsShort(dist: seq<int>, w: seq<PriceEdge>, s: nat)
    requires KeptAt(dist, w, s)
    ensures |w| < |dist|
  {
    var nodes := seq(|w| + 1, k requires 0 <= k <= |w| => NodeAt(w, s, k));
    if |w| >= |dist| {
      var i, j := Pigeonhole(nodes, |dist|);
    }
  }
}
