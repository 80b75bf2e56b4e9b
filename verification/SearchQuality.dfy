/** How far the integer simulation can exceed exact arithmetic, and what that means for both searches. */
module SearchQuality {
  import opened Arith
  import opened Amm
  import opened Shadow
  import opened Solver
  import opened ExactOutput
  import opened Ternary

  // ── Rounding errors of a hop and of a chain ──────────────────────

  /** The marginal price of an empty trade: what one unit of error in the input is worth at most. */
  function Slope(p: Pool, d: bool): (r: real)
    requires ReserveIn(p, d) > 0
    ensures r >= 0.0 && r * ReserveIn(p, d) as real == ReserveOut(p, d) as real
  {
    QuotientTimes(ReserveOut(p, d) as real, ReserveIn(p, d) as real);
    QuotientNonNegative(ReserveOut(p, d) as real, ReserveIn(p, d) as real);
    ReserveOut(p, d) as real / ReserveIn(p, d) as real
  }

  /** Each hop rounds its output up by less than 1 and its fee-adjusted input by less than 1. */
  function Err(h: Hops, k: nat): (r: real)
    requires h.Ok() && Funded(h) && k <= |h.indices|
    ensures r >= 0.0
  {
    if k == 0 then 0.0
    else
      var s := Slope(h.Pool(k - 1), h.directions[k - 1]);
      NonNegative(s, 1.0 + Err(h, k - 1));
      1.0 + s * (1.0 + Err(h, k - 1))
  }

  /** rout e / (rin + e) grows by at most rout/rin per unit. */
  lemma SlopeBound(rin: real, rout: real, s: real, z: real, e: real)
    requires rin > 0.0 && s >= 0.0 && s * rin == rout && 0.0 <= z <= e
    ensures Mobius(rout, rin, 1.0).Ok()
    ensures Mobius(rout, rin, 1.0).At(e) - Mobius(rout, rin, 1.0).At(z) <= s * (e - z)
  {
    hide Mobius.At;
    NonNegative(s, rin);
    var m := Mobius(rout, rin, 1.0);
    Difference(m, e, z);
    SteepestAtZero(m.At(e) - m.At(z), rin, s, e - z, rin + 1.0 * e, rin + 1.0 * z);
  }

  lemma SteepestAtZero(p: real, rin: real, s: real, d: real, u: real, w: real)
    requires rin > 0.0 && s >= 0.0 && d >= 0.0 && u >= rin && w >= rin && p * (u * w) == s * rin * rin * d
    ensures p <= s * d
  {
    NonNegative(s, d);
    Positive(u, w);
    OrderTimes(rin, u, rin);
    OrderTimes(rin, w, u);
    assert u * w >= rin * rin by { assert w * u == u * w && rin * u == u * rin; }
    OrderTimes(rin * rin, u * w, s * d);
    assert s * rin * rin * d == rin * rin * (s * d);
    assert (s * d - p) * (u * w) == u * w * (s * d) - p * (u * w);
    ExactOutput.SignOf(s * d - p, u * w);
  }

  /** out - 1 < rout e / (rin + e), e - 1 < the exact amount after the fee. */
  lemma HopRoundsUp(p: Pool, d: bool, a: nat)
    requires FeeOk(p) && p.specX > 0 && p.specY > 0
    ensures var e := AfterFee(a, p.feeNum, p.feeDen);
            var m := Mobius(ReserveOut(p, d) as real, ReserveIn(p, d) as real, 1.0);
            m.Ok() && SimSwap(p, a, d) as real <= m.At(e as real) + 1.0
    ensures AfterFee(a, p.feeNum, p.feeDen) as real <= FeeKept(p) * a as real + 1.0
  {
    hide FeeKept, AfterFee, Output, Mobius.At;
    var rin, rout, e, out := ReserveIn(p, d), ReserveOut(p, d), AfterFee(a, p.feeNum, p.feeDen), SimSwap(p, a, d);
    assert out == Output(rin, rout, e);
    OutputIsCeiling(rin, rout, e);
    JustAbove(out, rin, rout, e);
    AfterFeeIsCeiling(a, p.feeNum, p.feeDen);
    ExactFee(p, a);
    FeeAbove(e, p.feeDen, a * (p.feeDen - p.feeNum), FeeKept(p) * a as real);
  }

  lemma JustAbove(out: nat, rin: nat, rout: nat, e: nat)
    requires rin > 0 && (out - 1) * (rin + e) < rout * e
    ensures var m := Mobius(rout as real, rin as real, 1.0); m.Ok() && out as real <= m.At(e as real) + 1.0
  {
    hide Mobius.At;
    var m := Mobius(rout as real, rin as real, 1.0);
    AtTimes(m, e as real);
    RealProduct(out - 1, rin + e);
    RealProduct(rout, e);
    FromTimes(out as real - 1.0, m.At(e as real), rin as real + e as real);
  }

  lemma FromTimes(b: real, q: real, d: real)
    requires d > 0.0 && b * d <= q * d
    ensures b <= q
  {
    assert (q - b) * d == q * d - b * d;
    ExactOutput.SignOf(q - b, d);
  }

  lemma RealProduct(x: int, y: int)
    ensures (x * y) as real == x as real * y as real
  {}

  lemma FeeAbove(e: nat, den: nat, n: nat, x: real)
    requires den > 0 && (e - 1) * den < n && x * den as real == n as real
    ensures e as real <= x + 1.0
  {
    RealProduct(e - 1, den);
    FromTimes(e as real - 1.0, x, den as real);
  }

  /** An input at most err above y pays at most 1 + slope (1 + err) more than y does exactly. */
  lemma HopError(p: Pool, d: bool, a: nat, y: real, err: real)
    requires FeeOk(p) && p.specX > 0 && p.specY > 0 && 0.0 <= y <= a as real <= y + err
    ensures SimSwap(p, a, d) as real <= ExactHop(p, d, y) + (1.0 + Slope(p, d) * (1.0 + err))
  {
    hide FeeKept, AfterFee, SimSwap, ExactHop, Mobius.At, Slope;
    var rin, rout, s, e := ReserveIn(p, d) as real, ReserveOut(p, d) as real, Slope(p, d), AfterFee(a, p.feeNum, p.feeDen) as real;
    var m, z := Mobius(rout, rin, 1.0), FeeKept(p) * y;
    HopRoundsUp(p, d, a);
    NonNegative(FeeKept(p), y);
    FormulaAt(p, d, y, z);
    FeeShare(FeeKept(p), a as real, y, err);
    LittleMore(rin, rout, s, z, e, 1.0 + err);
  }

  lemma LittleMore(rin: real, rout: real, s: real, z: real, e: real, more: real)
    requires rin > 0.0 && s >= 0.0 && s * rin == rout && 0.0 <= z && 0.0 <= e <= z + more && more >= 0.0
    ensures var m := Mobius(rout, rin, 1.0); m.Ok() && m.At(e) <= m.At(z) + s * more
  {
    hide Mobius.At;
    NonNegative(s, rin);
    NonNegative(s, more);
    if e <= z {
      MobiusMonotone(Mobius(rout, rin, 1.0), e, z);
    } else {
      SlopeBound(rin, rout, s, z, e);
      OrderTimes(e - z, more, s);
      assert (e - z) * s == s * (e - z) && more * s == s * more;
    }
  }

  lemma FormulaAt(p: Pool, d: bool, y: real, z: real)
    requires FeeOk(p) && ReserveIn(p, d) > 0 && y >= 0.0 && z == FeeKept(p) * y && z >= 0.0
    ensures var m := Mobius(ReserveOut(p, d) as real, ReserveIn(p, d) as real, 1.0);
            m.Ok() && ExactHop(p, d, y) == m.At(z)
  {
    hide FeeKept;
    HopFormula(p, d, y, z);
  }

  lemma FeeShare(f: real, a: real, y: real, err: real)
    requires 0.0 <= f <= 1.0 && y <= a <= y + err
    ensures f * a + 1.0 - f * y <= 1.0 + err
  {
    assert f * a - f * y == f * (a - y);
    OrderTimes(f, 1.0, a - y);
  }

  /** Over any number of hops the simulation exceeds exact arithmetic by at most Err. */
  lemma {:induction false} SimulationNotFarAbove(h: Hops, a: nat, k: nat)
    requires h.Ok() && Funded(h) && k <= |h.indices|
    ensures h.Amount(a, k) as real <= Exact(h, a as real, k) + Err(h, k)
  {
    hide ExactHop, Slope, SimSwap, FeeOk;
    if k > 0 {
      var p, d := h.Pool(k - 1), h.directions[k - 1];
      SimulationNotFarAbove(h, a, k - 1);
      SimulationNotBelowExact(h, a, k - 1);
      HopError(p, d, h.Amount(a, k - 1), Exact(h, a as real, k - 1), Err(h, k - 1));
    }
  }

  // ── A cycle's profit is nearly concave ───────────────────────────

  /** The exact profit on whole inputs; a cycle with an empty reserve pays nothing at all. */
  ghost function ExactNet(h: Hops): nat -> real
    requires h.Ok()
  {
    if Funded(h) then (x: nat) => ExactProfit(h, x as real) else (x: nat) => -(x as real)
  }

  ghost function Delta(h: Hops): real
    requires h.Ok()
  {
    if Funded(h) then Err(h, |h.indices|) else 0.0
  }

  lemma {:induction false} EmptyReservePaysNothing(h: Hops, a: nat, i: nat, k: nat)
    requires h.Ok() && i < k <= |h.indices| && (h.Pool(i).specX == 0 || h.Pool(i).specY == 0)
    ensures h.Amount(a, k) == 0
  {
    if i + 1 < k {
      EmptyReservePaysNothing(h, a, i, k - 1);
      SimSwapMonotone(h.Pool(k - 1), 0, 0, h.directions[k - 1]);
    }
  }

  lemma ProfitIsWithin(h: Hops)
    requires h.Ok()
    ensures Within(Profit(h), ExactNet(h), Delta(h))
  {
    var f, g := Profit(h), ExactNet(h);
    forall x: nat ensures g(x) <= f(x) as real <= g(x) + Delta(h) {
      if Funded(h) {
        SimulationNotBelowExact(h, x, |h.indices|);
        SimulationNotFarAbove(h, x, |h.indices|);
      } else {
        var i :| 0 <= i < |h.indices| && !(h.Pool(i).specX > 0 && h.Pool(i).specY > 0);
        EmptyReservePaysNothing(h, x, i, |h.indices|);
      }
    }
  }

  lemma ExactNetIsConcave(h: Hops)
    requires h.Ok()
    ensures Concave(ExactNet(h))
  {
    var g := ExactNet(h);
    if Funded(h) {
      NothingExactly(h);
      forall x: nat, y: nat, z: nat | x < y < z ensures ThreePoint(g, x, y, z) { ProfitThreePoint(h, x, y, z); }
    } else {
      forall x: nat, y: nat, z: nat | x < y < z ensures ThreePoint(g, x, y, z) {
        LinearThreePoint(x as real, y as real, z as real);
      }
    }
  }

  lemma LinearThreePoint(x: real, y: real, z: real)
    ensures (z - y) * -x + (y - x) * -z == (z - x) * -y
  {}

  lemma NothingExactly(h: Hops)
    requires h.Ok() && Funded(h)
    ensures ExactProfit(h, 0.0) == 0.0
  {
    ExactIsMobius(h, 0.0, |h.indices|);
    AtZero(Coefficients(h, |h.indices|));
  }

  lemma AtZero(m: Mobius)
    requires m.Ok()
    ensures m.At(0.0) == 0.0
  {}

  lemma ProfitThreePoint(h: Hops, x: nat, y: nat, z: nat)
    requires h.Ok() && Funded(h) && x < y < z
    ensures (z - y) as real * ExactProfit(h, x as real) + (y - x) as real * ExactProfit(h, z as real)
         <= (z - x) as real * ExactProfit(h, y as real)
  {
    hide ExactProfit;
    var a, b, c := x as real, y as real, z as real;
    var t := (c - b) / (c - a);
    QuotientTimes(c - b, c - a);
    Share(t, a, c, b);
    ProfitIsConcave(h, a, c, t);
    TimesWidth(t, ExactProfit(h, a), ExactProfit(h, c), ExactProfit(h, b), c - b, c - a);
    assert (z - y) as real == c - b && (y - x) as real == b - a && (z - x) as real == c - a;
  }

  lemma TimesWidth(t: real, p: real, q: real, r: real, d: real, w: real)
    requires w > 0.0 && t * w == d && r >= t * p + (1.0 - t) * q
    ensures d * p + (w - d) * q <= w * r
  {
    OrderTimes(t * p + (1.0 - t) * q, r, w);
    assert (t * p + (1.0 - t) * q) * w == t * w * p + (w - t * w) * q;
    assert r * w == w * r;
  }

  // ── What the solver's search finds ───────────────────────────────

  /** For every cycle, with delta its rounding error: no input outside the final bracket gains more than the one
      found by over 2 delta, and none inside by more than the ratio of its ends and delta. */
  lemma CycleSearchNearBest(h: Hops, maxInput: nat, n: nat)
    requires h.Ok() && 1 <= maxInput
    ensures var f, r := Profit(h), Search(Profit(h), Whole(maxInput), n);
            && (r.bestProfit > 0 ==> Net(h, r.bestInput) == r.bestProfit) && r.bestInput <= maxInput
            && (r.hi - r.lo < 3 || Pow(3, n) * (r.hi - r.lo - 2) <= Pow(2, n) * (maxInput - 3))
            && (forall x: nat :: 1 <= x < r.lo || r.hi < x <= maxInput ==>
                  Gain(h, x) as real <= r.bestProfit as real + 2.0 * Delta(h))
            && (r.lo > 1 ==> forall x: nat :: r.lo <= x <= r.hi ==> InsideBound(f, r, x, Delta(h)))
  {
    hide Search, Concave, Within, ExactNet, Delta;
    ProfitIsWithin(h);
    ExactNetIsConcave(h);
    var f, delta := Profit(h), Delta(h);
    SearchNearBest(f, ExactNet(h), delta, maxInput, n);
    WholeTracks(f, maxInput);
    SearchConverges(f, Whole(maxInput), maxInput, n);
    NoNegativeGap(f, ExactNet(h), delta);
    var r := Search(f, Whole(maxInput), n);
    forall x: nat | 1 <= x < r.lo || r.hi < x <= maxInput
      ensures Gain(h, x) as real <= r.bestProfit as real + 2.0 * delta
    {
      assert f(x) as real <= r.bestProfit as real + 2.0 * delta;
    }
  }
}
