/** Two-pool arbitrage: the ternary search for the input that pays most. */
module Cache {
  import opened Arith
  import opened Amm
  import opened Shadow
  import opened Solver
  import opened Ternary
  import opened SearchQuality

  const STEPS: nat := 60

  datatype AmmPool = AmmPool(reserveX: nat, reserveY: nat, feeNumerator: nat, feeDenominator: nat)
  {
    /** The fee formula neither divides by zero nor underflows. */
    ghost predicate FeeFits()
    {
      0 < feeDenominator && feeNumerator <= feeDenominator
    }

    function SwapXToY(amountIn: nat): nat
      requires FeeFits() && reserveX > 0
    {
      SwapOut(reserveX, reserveY, feeNumerator, feeDenominator, amountIn)
    }

    function SwapYToX(amountIn: nat): nat
      requires FeeFits() && reserveY > 0
    {
      SwapOut(reserveY, reserveX, feeNumerator, feeDenominator, amountIn)
    }
  }

  /** Both pools can be swapped in the direction used, whatever the amount. */
  ghost predicate Usable(p: AmmPool, q: AmmPool)
  {
    p.FeeFits() && p.reserveX > 0 && q.FeeFits() && q.reserveY > 0
  }

  /** Buying on the first pool and selling on the second. */
  function ProfitAt(p: AmmPool, q: AmmPool, input: nat): int
    requires Usable(p, q)
  {
    q.SwapYToX(p.SwapXToY(input)) - input
  }

  function ProfitOf(p: AmmPool, q: AmmPool): (f: nat -> int)
    requires Usable(p, q)
    ensures forall x: nat :: f(x) == ProfitAt(p, q, x)
  {
    (x: nat) => ProfitAt(p, q, x)
  }

  /** The search from 1 to maxInput, and the best of the candidates it leaves. */
  method OptimalArbInput(p: AmmPool, q: AmmPool, maxInput: nat) returns (bestInput: nat, profit: nat)
    requires Usable(p, q)
    ensures (bestInput, profit) == Optimum(ProfitOf(p, q), maxInput, STEPS)
  {
    hide ProfitAt, Shrink, Scan;
    ghost var f := ProfitOf(p, q);
    var lo, hi := Narrowed(p, q, maxInput);
    bestInput, profit := 0, 0;
    NoneScanned(f, lo);
    var last: int := if hi < lo + 2 then hi else lo + 2;
    var x: nat := lo;
    while x <= last
      invariant lo <= x && (x <= last + 1 || x == lo)
      invariant (bestInput, profit) == Scan(f, lo, x - lo)
    {
      OneMore(f, lo, x - lo);
      var gain := ProfitAt(p, q, x);
      if gain > profit { profit, bestInput := gain, x; }
      x := x + 1;
    }
  }

  lemma NoneScanned(f: nat -> int, lo: nat)
    ensures Scan(f, lo, 0) == (0, 0)
  {}

  lemma OneMore(f: nat -> int, lo: nat, k: nat)
    ensures Scan(f, lo, k + 1) == if f(lo + k) > Scan(f, lo, k).1 then (lo + k, f(lo + k)) else Scan(f, lo, k)
  {}

  /** The sixty narrowing steps. */
  method Narrowed(p: AmmPool, q: AmmPool, maxInput: nat) returns (lo: nat, hi: nat)
    requires Usable(p, q)
    ensures Interval(lo, hi) == Shrink(ProfitOf(p, q), Interval(1, maxInput), STEPS)
    ensures lo <= hi || hi == 0
  {
    hide ProfitAt, Shrink;
    ghost var f := ProfitOf(p, q);
    lo, hi := 1, maxInput;
    ghost var left: nat := STEPS;
    for i := 0 to STEPS
      invariant left == STEPS - i && 1 <= lo && (lo <= hi || hi == 0)
      invariant Shrink(f, Interval(lo, hi), left) == Shrink(f, Interval(1, maxInput), STEPS)
    {
      if lo >= hi { break; }
      ghost var n1, n2, next := ShrinkStep(f, Interval(lo, hi), left);
      var m1, m2 := lo + (hi - lo) / 3, hi - (hi - lo) / 3;
      var p1, p2 := ProfitAt(p, q, m1), ProfitAt(p, q, m2);
      ShrinkUnfolds(f, lo, hi, left);
      if p1 < p2 {
        lo := m1 + 1;
      } else {
        if m2 == 0 { break; }
        hi := m2 - 1;
      }
      left := left - 1;
    }
    ShrinkEnds(f, Interval(lo, hi), left);
  }

  lemma ShrinkUnfolds(f: nat -> int, lo: nat, hi: nat, n: nat)
    requires n > 0 && 1 <= lo < hi
    ensures var m1, m2 := lo + (hi - lo) / 3, hi - (hi - lo) / 3;
            && lo <= m1 < m2 <= hi
            && Shrink(f, Interval(lo, hi), n)
            == Shrink(f, if f(m1) < f(m2) then Interval(m1 + 1, hi) else Interval(lo, m2 - 1), n - 1)
  {
    hide Shrink;
    var m1, m2, next := ShrinkStep(f, Interval(lo, hi), n);
  }

  // ── How good the answer is ───────────────────────────────────────

  function Row(p: AmmPool): Pool
  {
    Pool(0, 0, p.reserveX, p.reserveY, p.feeNumerator, p.feeDenominator, p.reserveX, p.reserveY, false, true, 0)
  }

  /** The same two swaps as a cycle of two hops. */
  function AsCycle(p: AmmPool, q: AmmPool): Hops
  {
    Hops([Row(p), Row(q)], [0, 1], [true, false])
  }

  lemma SameProfit(p: AmmPool, q: AmmPool, x: nat)
    requires Usable(p, q)
    ensures AsCycle(p, q).Ok() && Net(AsCycle(p, q), x) == ProfitAt(p, q, x)
  {
    var h := AsCycle(p, q);
    assert h.Pool(0) == Row(p) && h.Pool(1) == Row(q);
    var out := p.SwapXToY(x);
    NoMoreThanReserve(p.reserveX, p.reserveY, p.feeNumerator, p.feeDenominator, x);
    NoMoreThanReserve(q.reserveY, q.reserveX, q.feeNumerator, q.feeDenominator, out);
    NoMoreThanReserve(q.reserveY, q.reserveX, q.feeNumerator, q.feeDenominator, 0);
    assert h.Amount(x, 0) == x;
    assert h.Amount(x, 1) == out;
    assert h.Amount(x, 2) == SimSwap(Row(q), out, false);
  }

  lemma NoMoreThanReserve(rin: nat, rout: nat, num: nat, den: nat, a: nat)
    requires 0 < den && num <= den && rin > 0
    ensures SwapOut(rin, rout, num, den, a) <= rout
  {
    SwapMonotone(rin, rout, num, den, a, a);
  }

  /** The rounding error of the two hops together. */
  ghost function Rounding(p: AmmPool, q: AmmPool): real
    requires Usable(p, q)
  {
    SameProfit(p, q, 0);
    Delta(AsCycle(p, q))
  }

  /** No input in range pays more than the answer by over 2 Rounding a step, whatever the shape of the profit. */
  lemma OptimalNearBest(p: AmmPool, q: AmmPool, maxInput: nat, x: nat)
    requires Usable(p, q) && InReach(maxInput, STEPS) && 1 <= x <= maxInput
    ensures ProfitAt(p, q, x) as real <= Optimum(ProfitOf(p, q), maxInput, STEPS).1 as real + 120.0 * Rounding(p, q)
  {
    hide Optimum, InReach, ProfitAt, Delta, ExactNet, Within, Concave;
    SameProfit(p, q, 0);
    var h := AsCycle(p, q);
    ProfitIsWithin(h);
    ExactNetIsConcave(h);
    SameWithin(p, q);
    OptimumNearBest(ProfitOf(p, q), ExactNet(h), Delta(h), maxInput, STEPS, x);
  }

  lemma SameWithin(p: AmmPool, q: AmmPool)
    requires Usable(p, q) && AsCycle(p, q).Ok() && Within(Profit(AsCycle(p, q)), ExactNet(AsCycle(p, q)), Delta(AsCycle(p, q)))
    ensures Within(ProfitOf(p, q), ExactNet(AsCycle(p, q)), Delta(AsCycle(p, q)))
  {
    hide Delta, ExactNet, ProfitAt, Net;
    var h := AsCycle(p, q);
    forall x: nat ensures ExactNet(h)(x) <= ProfitOf(p, q)(x) as real <= ExactNet(h)(x) + Delta(h) {
      SameProfit(p, q, x);
      assert Profit(h)(x) == ProfitOf(p, q)(x);
    }
  }

  /** The answer is an input in range with its own profit, or nothing. */
  lemma OptimumIsReal(p: AmmPool, q: AmmPool, maxInput: nat)
    requires Usable(p, q)
    ensures var (x, profit) := Optimum(ProfitOf(p, q), maxInput, STEPS);
            (profit == 0 <==> x == 0) && x <= maxInput && (profit > 0 ==> ProfitAt(p, q, x) == profit)
  {
    hide Shrink, Scan, ProfitAt;
    var f := ProfitOf(p, q);
    if maxInput >= 1 {
      ShrinkConverges(f, Interval(1, maxInput), STEPS);
      var i := Shrink(f, Interval(1, maxInput), STEPS);
      ScanBest(f, i.lo, Candidates(i));
      ScanZero(f, i.lo, Candidates(i));
    } else {
      ShrinkEnds(f, Interval(1, 0), STEPS);
      NoneScanned(f, 1);
    }
  }

  // ── An input on which the peak is missed ─────────────────────────

  const CHEAP := AmmPool(41, 5, 1, 1000)
  const DEAR := AmmPool(43, 4, 0, 1000)

  /** The profit from the two quotients it takes. */
  lemma Gains(x: nat, r: nat, s: nat)
    requires 1 <= x <= 419 && r <= 5 && r * (41 + x) <= 205 < (r + 1) * (41 + x)
    requires s * (9 - r) <= 172 < (s + 1) * (9 - r)
    ensures Usable(CHEAP, DEAR) && ProfitAt(CHEAP, DEAR, x) == 43 - s - x
  {
    QuotientIs(x, 1000, 0);
    QuotientIs(205, 41 + x, r);
    QuotientIs(0, 1, 0);
    QuotientIs(172, 9 - r, s);
    assert AfterFee(x, 1, 1000) == x && AfterFee(5 - r, 0, 1000) == 5 - r;
  }

  lemma QuotientIs(n: nat, d: nat, k: nat)
    requires d > 0 && k * d <= n < (k + 1) * d
    ensures n / d == k
  {
    QuotientAtLeast(n, d, k);
    Quotient(n, d);
    if n / d > k { MulMonotone(k + 1, n / d, d); }
  }

  /** One step on this input, by the quotients at its two probes. */
  lemma Cut(lo: nat, hi: nat, n: nat, m1: nat, m2: nat, r1: nat, s1: nat, r2: nat, s2: nat, lo': nat, hi': nat)
    requires n > 0 && 1 <= lo < hi <= 419 && m1 == lo + (hi - lo) / 3 && m2 == hi - (hi - lo) / 3
    requires r1 <= 5 && r1 * (41 + m1) <= 205 < (r1 + 1) * (41 + m1) && s1 * (9 - r1) <= 172 < (s1 + 1) * (9 - r1)
    requires r2 <= 5 && r2 * (41 + m2) <= 205 < (r2 + 1) * (41 + m2) && s2 * (9 - r2) <= 172 < (s2 + 1) * (9 - r2)
    requires if s2 + m2 < s1 + m1 then lo' == m1 + 1 && hi' == hi else lo' == lo && hi' + 1 == m2
    ensures Usable(CHEAP, DEAR)
    ensures Shrink(ProfitOf(CHEAP, DEAR), Interval(lo, hi), n) == Shrink(ProfitOf(CHEAP, DEAR), Interval(lo', hi'), n - 1)
  {
    hide Shrink, ProfitAt;
    Gains(m1, r1, s1);
    Gains(m2, r2, s2);
    ShrinkUnfolds(ProfitOf(CHEAP, DEAR), lo, hi, n);
  }

  lemma FarEnough()
    ensures InReach(419, STEPS)
  {
    assert Pow(2, 13) == 8192 && Pow(3, 13) == 1594323;
    ReachGrows(419, 13, STEPS);
  }

  /** Putting in 1 gains 8; the search answers 11, which gains 4. */
  lemma PeakIsMissed()
    ensures Usable(CHEAP, DEAR) && InReach(419, STEPS)
    ensures ProfitAt(CHEAP, DEAR, 1) == 8 && Optimum(ProfitOf(CHEAP, DEAR), 419, STEPS) == (11, 4)
  {
    hide Shrink, Scan, ProfitAt, InReach, Usable;
    FarEnough();
    Gains(1, 4, 34);
    Gains(11, 3, 28);
    Cut(1, 419, 60, 140, 280, 1, 21, 0, 19, 1, 279);
    Cut(1, 279, 59, 93, 187, 1, 21, 0, 19, 1, 186);
    Cut(1, 186, 58, 62, 125, 1, 21, 1, 21, 1, 124);
    Cut(1, 124, 57, 42, 83, 2, 24, 1, 21, 1, 82);
    Cut(1, 82, 56, 28, 55, 2, 24, 2, 24, 1, 54);
    Cut(1, 54, 55, 18, 37, 3, 28, 2, 24, 1, 36);
    Cut(1, 36, 54, 12, 25, 3, 28, 3, 28, 1, 24);
    Cut(1, 24, 53, 8, 17, 4, 34, 3, 28, 1, 16);
    Cut(1, 16, 52, 6, 11, 4, 34, 3, 28, 7, 16);
    Cut(7, 16, 51, 10, 13, 4, 34, 3, 28, 11, 16);
    Cut(11, 16, 50, 12, 15, 3, 28, 3, 28, 11, 14);
    Cut(11, 14, 49, 12, 13, 3, 28, 3, 28, 11, 12);
    Cut(11, 12, 48, 11, 12, 3, 28, 3, 28, 11, 11);
    ShrinkEnds(ProfitOf(CHEAP, DEAR), Interval(11, 11), 47);
    NoneScanned(ProfitOf(CHEAP, DEAR), 11);
    OneMore(ProfitOf(CHEAP, DEAR), 11, 0);
  }
}
