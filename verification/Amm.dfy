/** Constant-product swaps in integer arithmetic, shared by the state shadow, the solver and the two-pool optimiser. */
module Amm {
  import opened Arith

  /** What is left of a after the fee num/den, as the swap code computes it: a - a*num/den. */
  function AfterFee(a: nat, num: nat, den: nat): (r: nat)
    requires 0 < den && num <= den
  {
    FeeAtMost(a, num, den);
    a - a * num / den
  }

  /** The reserve that remains on the paid-out side after effective input e. */
  function Remaining(rin: nat, rout: nat, e: nat): (r: nat)
    requires rin + e > 0
  {
    MulMonotone(0, rin, rout);
    RemainingBound(rin, rout, e);
    rin * rout / (rin + e)
  }

  function Output(rin: nat, rout: nat, e: nat): (out: nat)
    requires rin + e > 0
  {
    RemainingBound(rin, rout, e);
    rout - Remaining(rin, rout, e)
  }

  // ── Division facts over plain integers ───────────────────────────

  lemma Quotient(n: nat, d: nat)
    requires d > 0
    ensures n / d >= 0 && n / d * d <= n < (n / d + 1) * d
  {
    assert n == d * (n / d) + n % d;
    assert n / d * d == d * (n / d);
    assert (n / d + 1) * d == n / d * d + d;
  }

  lemma QuotientAtMost(n: nat, d: nat, b: nat)
    requires d > 0 && n <= b * d
    ensures n / d <= b
  {
    Quotient(n, d);
    if n / d > b { MulMonotone(b + 1, n / d, d); }
  }

  lemma QuotientAtLeast(n: nat, d: nat, b: nat)
    requires d > 0 && b * d <= n
    ensures b <= n / d
  {
    Quotient(n, d);
    if n / d < b { MulMonotone(n / d + 1, b, d); }
  }

  lemma FeeAtMost(a: nat, num: nat, den: nat)
    requires 0 < den && num <= den
    ensures a * num >= 0 && 0 <= a * num / den <= a
  {
    MulMonotone(0, a, num);
    MulMonotone(num, den, a);
    QuotientAtMost(a * num, den, a);
  }

  lemma RemainingBound(rin: nat, rout: nat, e: nat)
    requires rin + e > 0
    ensures rin * rout >= 0 && 0 <= rin * rout / (rin + e) <= rout
  {
    MulMonotone(0, rin, rout);
    MulMonotone(rin, rin + e, rout);
    QuotientAtMost(rin * rout, rin + e, rout);
  }

  // ── What a swap does to the product of reserves ──────────────────

  /** The product never grows, and shrinks by less than the new input reserve. */
  lemma ProductKept(rin: nat, rout: nat, e: nat)
    requires rin + e > 0
    ensures var rest := Remaining(rin, rout, e);
            rin * rout - (rin + e) < (rin + e) * rest <= rin * rout
  {
    MulMonotone(0, rin, rout);
    Quotient(rin * rout, rin + e);
  }

  /** The output is the exact constant-product output rout*e/(rin+e), rounded up. */
  lemma OutputIsCeiling(rin: nat, rout: nat, e: nat)
    requires rin + e > 0
    ensures var out := Output(rin, rout, e);
            out <= rout && (out - 1) * (rin + e) < rout * e <= out * (rin + e)
  {
    ProductKept(rin, rout, e);
    CeilingTerms(rin, rout, e, Remaining(rin, rout, e));
  }

  lemma CeilingTerms(rin: nat, rout: nat, e: nat, rest: nat)
    requires rin * rout - (rin + e) < (rin + e) * rest <= rin * rout
    ensures (rout - rest - 1) * (rin + e) < rout * e <= (rout - rest) * (rin + e)
  {
    var s := rin + e;
    assert (rout - rest) * s == rout * s - s * rest;
    assert (rout - rest - 1) * s == (rout - rest) * s - s;
    assert rout * s == rin * rout + rout * e;
  }

  /** The fee-adjusted amount is a*(den-num)/den, rounded up. */
  lemma AfterFeeIsCeiling(a: nat, num: nat, den: nat)
    requires 0 < den && num <= den
    ensures var e := AfterFee(a, num, den);
            e <= a && (e - 1) * den < a * (den - num) <= e * den
  {
    MulMonotone(0, a, num);
    Quotient(a * num, den);
    var f := a * num / den;
    assert (a - f) * den == a * den - f * den;
    assert (a - f - 1) * den == a * den - (f + 1) * den;
    assert a * (den - num) == a * den - a * num;
  }

  lemma AfterFeeMonotone(a: nat, b: nat, num: nat, den: nat)
    requires 0 < den && num <= den && a <= b
    ensures AfterFee(a, num, den) <= AfterFee(b, num, den)
  {
    AfterFeeIsCeiling(a, num, den);
    AfterFeeIsCeiling(b, num, den);
    MulMonotone(a, b, den - num);
    CeilingOrder(AfterFee(a, num, den), AfterFee(b, num, den), a * (den - num), b * (den - num), den);
  }

  lemma CeilingOrder(p: nat, q: nat, x: nat, y: nat, d: nat)
    requires (p - 1) * d < x <= y <= q * d && d > 0
    ensures p <= q
  {
    if p > q { MulMonotone(q, p - 1, d); }
  }

  lemma OutputMonotone(rin: nat, rout: nat, d: nat, e: nat)
    requires rin > 0 && d <= e
    ensures Output(rin, rout, d) <= Output(rin, rout, e)
  {
    ProductKept(rin, rout, d);
    ProductKept(rin, rout, e);
    var p, q := Remaining(rin, rout, d), Remaining(rin, rout, e);
    // a larger divisor leaves no more
    MulMonotone(0, rin, rout);
    MulMonotone(rin + d, rin + e, q);
    assert q * (rin + d) == (rin + d) * q && q * (rin + e) == (rin + e) * q;
    QuotientAtLeast(rin * rout, rin + d, q);
  }

  lemma NothingInNothingOut(rin: nat, rout: nat)
    requires rin > 0
    ensures Output(rin, rout, 0) == 0
  {
    assert rin * rout == rout * rin;
    QuotientAtLeast(rout * rin, rin, rout);
    RemainingBound(rin, rout, 0);
  }

  lemma NoFeeOnNothing(num: nat, den: nat)
    requires 0 < den && num <= den
    ensures AfterFee(0, num, den) == 0
  {
    AfterFeeIsCeiling(0, num, den);
  }

  /** A whole swap: fee, then constant product. */
  function SwapOut(rin: nat, rout: nat, num: nat, den: nat, a: nat): (out: nat)
    requires 0 < den && num <= den && rin > 0
  {
    Output(rin, rout, AfterFee(a, num, den))
  }

  lemma SwapMonotone(rin: nat, rout: nat, num: nat, den: nat, a: nat, b: nat)
    requires 0 < den && num <= den && rin > 0 && a <= b
    ensures SwapOut(rin, rout, num, den, a) <= SwapOut(rin, rout, num, den, b) <= rout
    ensures SwapOut(rin, rout, num, den, 0) == 0
  {
    AfterFeeMonotone(a, b, num, den);
    OutputMonotone(rin, rout, AfterFee(a, num, den), AfterFee(b, num, den));
    RemainingBound(rin, rout, AfterFee(b, num, den));
    NoFeeOnNothing(num, den);
    NothingInNothingOut(rin, rout);
  }

  /** Splitting a swap's exact output: the integer result is never below rout*x/(rin*den/(den-num) + x). */
  lemma NotBelowExact(rin: nat, rout: nat, num: nat, den: nat, a: nat)
    requires 0 < den && num <= den && rin > 0
    ensures rout * (a * (den - num)) <= SwapOut(rin, rout, num, den, a) * (rin * den + a * (den - num))
  {
    var e, x := AfterFee(a, num, den), a * (den - num);
    AfterFeeIsCeiling(a, num, den);
    OutputIsCeiling(rin, rout, e);
    RemainingBound(rin, rout, e);
    MulMonotone(0, a, den - num);
    ExactBelow(rin, rout, den, e, x, Output(rin, rout, e));
  }

  lemma ExactBelow(rin: nat, rout: nat, den: nat, e: nat, x: nat, out: nat)
    requires x <= e * den && rout * e <= out * (rin + e) && out <= rout
    ensures rout * x <= out * (rin * den + x)
  {
    // (rout - out) e <= out rin, and x <= e den
    assert out * (rin + e) == out * rin + out * e;
    assert (rout - out) * e <= out * rin by { assert (rout - out) * e == rout * e - out * e; }
    MulMonotone((rout - out) * e, out * rin, den);
    MulMonotone(x, e * den, rout - out);
    assert (rout - out) * e * den == (e * den) * (rout - out);
    assert (rout - out) * x == x * (rout - out) && (rout - out) * x == rout * x - out * x;
    assert out * rin * den == out * (rin * den) by { MulAssoc(out, rin, den); }
    assert out * (rin * den + x) == out * (rin * den) + out * x;
  }
}
