/** The extended Euclidean algorithm and the modular inverse it yields. */
module Gcd {
  import opened Arith
  import opened Wrappers

  /** Rust's `/` and `%` on signed integers truncate toward zero. */
  function TruncDiv(b: int, a: int): int
    requires a != 0
  {
    if (b >= 0) == (a > 0) then Abs(b) / Abs(a) else -(Abs(b) / Abs(a))
  }

  function TruncRem(b: int, a: int): int
    requires a != 0
  {
    if b >= 0 then Abs(b) % Abs(a) else -(Abs(b) % Abs(a))
  }

  function Abs(x: int): nat { if x >= 0 then x else -x }

  lemma TruncLaw(b: int, a: int)
    requires a != 0
    ensures b == a * TruncDiv(b, a) + TruncRem(b, a)
    ensures Abs(TruncRem(b, a)) < Abs(a)
    ensures Abs(TruncRem(b, a)) + Abs(TruncDiv(b, a)) * Abs(a) == Abs(b)
  {
    DivisionLaw(Abs(b), Abs(a));
    Signs(a, Abs(b) / Abs(a));
  }

  lemma DivisionLaw(b: nat, a: nat)
    requires a > 0
    ensures b == a * (b / a) + b % a && b / a >= 0 && 0 <= b % a < a
  {}

  lemma Signs(a: int, q: int)
    ensures a * -q == -(a * q) && -a * q == -(a * q) && a * q == q * a
  {}

  function Larger(x: nat, y: nat): nat { if x >= y then x else y }

  ghost predicate Divides(d: int, n: int)
  {
    Cong(n, 0, d)
  }

  function ExtendedGcd(a: int, b: int): (r: (int, int, int))
    decreases Abs(a)
  {
    if a == 0 then (b, 0, 1)
    else
      TruncLaw(b, a);
      var (g, x, y) := ExtendedGcd(TruncRem(b, a), a);
      (g, y - TruncDiv(b, a) * x, x)
  }

  /** Bezout's identity, a common divisor, and coefficients no larger than the inputs,
      so nothing overflows: for all integers of either sign. */
  lemma {:induction false} Bezout(a: int, b: int)
    ensures var (g, x, y) := ExtendedGcd(a, b);
            && a * x + b * y == g && Divides(g, a) && Divides(g, b)
            && Abs(x) <= Larger(1, Abs(b)) && Abs(y) <= Larger(1, Abs(a))
            && (a >= 0 && b >= 0 ==> g >= 0)
    decreases Abs(a)
  {
    if a == 0 {
      CongIntro(0, 0, 0, b);
      CongIntro(b, 0, 1, b);
    } else {
      TruncLaw(b, a);
      var q, r := TruncDiv(b, a), TruncRem(b, a);
      Bezout(r, a);
      var (g, x, y) := ExtendedGcd(r, a);
      BezoutStep(a, b, q, r, g, x, y);
      CoefficientBound(q, x, y, Abs(r), a, b);
    }
  }

  lemma BezoutStep(a: int, b: int, q: int, r: int, g: int, x: int, y: int)
    requires b == a * q + r && r * x + a * y == g && Divides(g, r) && Divides(g, a)
    ensures a * (y - q * x) + b * x == g && Divides(g, b)
  {
    assert a * (y - q * x) == a * y - a * q * x;
    assert (a * q + r) * x == a * q * x + r * x;
    CongScale(q, a, 0, g);
    CongAdd(q * a, 0, r, 0, g);
  }

  lemma CoefficientBound(q: int, x: int, y: int, r: nat, a: int, b: int)
    requires a != 0 && r + Abs(q) * Abs(a) == Abs(b) && r < Abs(a)
    requires Abs(x) <= Larger(1, Abs(a)) && Abs(y) <= Larger(1, r)
    requires r == 0 ==> x == 0
    ensures Abs(y - q * x) <= Larger(1, Abs(b))
  {
    if r > 0 {
      AbsProduct(q, x);
      MulMonotone(Abs(x), Abs(a), Abs(q));
      Commuted(Abs(x), Abs(a), Abs(q), r, Abs(b));
    } else {
      assert q * 0 == 0;
    }
  }

  lemma Commuted(x: nat, a: nat, q: nat, r: nat, b: nat)
    requires r + q * a == b && x * q <= a * q
    ensures r + q * x <= b
  {}

  lemma AbsProduct(q: int, x: int)
    ensures Abs(q * x) == Abs(q) * Abs(x)
  {
    assert (-q) * x == -(q * x) && q * (-x) == -(q * x) && (-q) * (-x) == q * x;
    if q >= 0 && x >= 0 { MulMonotone(0, q, x); }
    if q < 0 && x < 0 { MulMonotone(0, -q, -x); }
    if q >= 0 && x < 0 { MulMonotone(0, q, -x); }
    if q < 0 && x >= 0 { MulMonotone(0, -q, x); }
  }

  lemma ZeroModulus(a: nat)
    ensures ExtendedGcd(a, 0).0 == a
  {
    if a > 0 {
      TruncLaw(0, a);
      assert TruncRem(0, a) == 0;
      assert ExtendedGcd(0, a) == (a, 0, 1);
    }
  }

  /** u64 in, u64 out; the one panicking input is (1, 0), where the result is reduced modulo zero. */
  function ModInverse(a: nat, modulus: nat): (r: Option<nat>)
    requires !(modulus == 0 && a == 1)
  {
    var (g, x, _) := ExtendedGcd(a, modulus);
    if g != 1 then None
    else
      ZeroModulus(a);
      Some(TruncRem(TruncRem(x, modulus) + modulus, modulus))
  }

  /** The inverse is returned exactly when one exists. */
  lemma ModInverseExact(a: nat, modulus: nat)
    requires !(modulus == 0 && a == 1)
    ensures ModInverse(a, modulus).Some? <==> exists x :: Cong(a * x, 1, modulus)
    ensures var r := ModInverse(a, modulus);
            r.Some? ==> r.value < modulus && Cong(a * r.value, 1, modulus)
  {
    var (g, x, y) := ExtendedGcd(a, modulus);
    Bezout(a, modulus);
    if g == 1 {
      assert modulus * y == y * modulus;
      CongIntro(a * x, 1, -y, modulus) by { assert (-y) * modulus == -(y * modulus); }
      var v := ModInverse(a, modulus).value;
      ReducedTwice(x, modulus);
      CongScale(a, v, x, modulus);
      CongTrans(a * v, a * x, 1, modulus);
    } else if z :| Cong(a * z, 1, modulus) {
      var k := CongFactor(a * z, 1, modulus);
      CongScale(z, a, 0, g);
      CongScale(k, modulus, 0, g);
      CongAdd(z * a, 0, k * modulus, 0, g);
      assert z * a - k * modulus == 1;
      var q := CongFactor(1, 0, g);
      UnitFactor(q, g);
    }
  }

  lemma UnitFactor(q: int, g: int)
    requires q * g == 1 && g >= 0
    ensures g == 1
  {
    if g >= 2 {
      if q >= 1 { MulMonotone(1, q, g); } else { MulMonotone(q, 0, g); }
    }
  }

  lemma ReducedTwice(x: int, m: nat)
    requires m > 0
    ensures 0 <= TruncRem(TruncRem(x, m) + m, m) < m
    ensures Cong(TruncRem(TruncRem(x, m) + m, m), x, m)
  {
    TruncLaw(x, m);
    var s, q := TruncRem(x, m), TruncDiv(x, m);
    TruncLaw(s + m, m);
    var t, u := TruncRem(s + m, m), TruncDiv(s + m, m);
    hide TruncDiv, Cong;
    TwiceReduced(x, m, q, s, u, t);
    CongIntro(t, x, 1 - u - q, m);
  }

  lemma TwiceReduced(x: int, m: int, q: int, s: int, u: int, t: int)
    requires x == m * q + s && s + m == m * u + t
    ensures t == x + (1 - u - q) * m
  {
    assert (1 - u - q) * m == m - m * u - m * q;
  }
}
