/** Stein's binary algorithm computes the same greatest common divisor as the extended Euclidean one. */
module BinaryGcd {
  import opened Arith
  import opened Bits
  import opened Gcd

  // ── The greatest common divisor ──────────────────────────────────

  ghost function Greatest(a: nat, b: nat): (g: nat)
  {
    Bezout(a, b);
    ExtendedGcd(a, b).0
  }

  ghost predicate Common(d: int, a: nat, b: nat)
  {
    Divides(d, a) && Divides(d, b)
  }

  lemma Combination(d: int, a: int, b: int, x: int, y: int)
    requires Divides(d, a) && Divides(d, b)
    ensures Divides(d, a * x + b * y)
  {
    CongScale(x, a, 0, d);
    CongScale(y, b, 0, d);
    CongAdd(x * a, 0, y * b, 0, d);
  }

  /** It is a common divisor, every common divisor divides it, and it is an integer combination of both. */
  lemma GcdFacts(a: nat, b: nat) returns (x: int, y: int)
    ensures Common(Greatest(a, b), a, b) && a * x + b * y == Greatest(a, b)
  {
    Bezout(a, b);
    var (g, u, v) := ExtendedGcd(a, b);
    x, y := u, v;
  }

  lemma DividesBoth(g: nat, h: nat)
    requires Divides(g, h) && Divides(h, g)
    ensures g == h
  {
    var k := CongFactor(h, 0, g);
    var l := CongFactor(g, 0, h);
    if h > 0 && g > 0 {
      PositiveFactor(k, g, h);
      PositiveFactor(l, h, g);
      MulMonotone(1, k, g);
      MulMonotone(1, l, h);
    }
  }

  lemma PositiveFactor(k: int, g: nat, h: nat)
    requires h == k * g && h > 0
    ensures k >= 1
  {
    if k <= 0 { MulMonotone(k, 0, g); }
  }

  /** Pairs of numbers that are combinations of each other have the same greatest common divisor. */
  lemma SameGcd(a: nat, b: nat, c: nat, d: nat)
    requires Common(Greatest(a, b), c, d) && Divides(Greatest(c, d), Greatest(a, b))
    ensures Greatest(a, b) == Greatest(c, d)
  {
    var x, y := GcdFacts(c, d);
    Combination(Greatest(a, b), c, d, x, y);
    DividesBoth(Greatest(a, b), Greatest(c, d));
  }

  lemma GcdSwap(a: nat, b: nat)
    ensures Greatest(a, b) == Greatest(b, a)
  {
    var x, y := GcdFacts(a, b);
    var u, v := GcdFacts(b, a);
    Combination(Greatest(b, a), a, b, x, y);
    SameGcd(a, b, b, a);
  }

  lemma GcdZero(a: nat)
    ensures Greatest(a, 0) == a
  {
    ZeroModulus(a);
  }

  lemma GcdSubtract(a: nat, b: nat)
    requires a <= b
    ensures Greatest(a, b - a) == Greatest(a, b)
  {
    var x, y := GcdFacts(a, b);
    var u, v := GcdFacts(a, b - a);
    var g, h := Greatest(a, b), Greatest(a, b - a);
    CongAdd(b, 0, a, 0, g);
    CongAdd(b - a, 0, a, 0, h);
    Combination(h, a, b, x, y);
    SameGcd(a, b, a, b - a);
  }

  lemma GcdDouble(a: nat, b: nat)
    ensures Greatest(2 * a, 2 * b) == 2 * Greatest(a, b)
  {
    hide *;
    var x, y := GcdFacts(a, b);
    var u, v := GcdFacts(2 * a, 2 * b);
    var g, h := Greatest(a, b), Greatest(2 * a, 2 * b);
    Combination(h, 2 * a, 2 * b, x, y);
    assert 2 * a * x + 2 * b * y == 2 * (a * x + b * y);
    TwiceDivides(g, a);
    TwiceDivides(g, b);
    Combination(2 * g, 2 * a, 2 * b, u, v);
    DividesBoth(2 * g, h);
  }

  lemma TwiceDivides(g: int, a: int)
    requires Divides(g, a)
    ensures Divides(2 * g, 2 * a)
  {
    var k := CongFactor(a, 0, g);
    assert 2 * (k * g) == k * (2 * g);
    CongIntro(2 * a, 0, k, 2 * g);
  }

  /** A factor 2 on one side does not count when the other side is odd. */
  lemma GcdOdd(a: nat, b: nat)
    requires a % 2 == 1
    ensures Greatest(a, 2 * b) == Greatest(a, b)
  {
    hide Greatest, Cong;
    var x, y := GcdFacts(a, b);
    var u, v := GcdFacts(a, 2 * b);
    var g, h := Greatest(a, b), Greatest(a, 2 * b);
    CongScale(2, b, 0, g);
    var x', half := EvenCoefficient(a, b, x, y);
    Combination(h, a, 2 * b, x', half);
    SameGcd(a, b, a, 2 * b);
  }

  /** a x + b y with y made even. */
  lemma EvenCoefficient(a: int, b: int, x: int, y: int) returns (x': int, half: int)
    requires a % 2 == 1
    ensures a * x' + 2 * b * half == a * x + b * y
  {
    half := if y % 2 == 0 then y / 2 else (y + a) / 2;
    MulShift(b, half);
    MulAssoc(2, b, half);
    if y % 2 == 0 {
      x' := x;
      assert 2 * half == y;
    } else {
      x' := x - b;
      assert 2 * half == y + a;
      Exchange(a, b, x, y);
    }
  }

  lemma MulShift(b: int, h: int)
    ensures b * (2 * h) == 2 * (b * h)
  {}

  lemma Exchange(a: int, b: int, x: int, y: int)
    ensures a * (x - b) + b * (y + a) == a * x + b * y
  {}

  // ── Powers of two ────────────────────────────────────────────────

  function TrailingZeros(x: nat): nat
    requires x > 0
  {
    if x % 2 == 1 then 0 else 1 + TrailingZeros(x / 2)
  }

  lemma {:induction false} OddPart(x: nat)
    requires x > 0
    ensures var y := ShiftRight(x, TrailingZeros(x)); 0 < y <= x && y % 2 == 1
  {
    if x % 2 == 0 { OddPart(x / 2); }
  }

  function Min(a: nat, b: nat): nat { if a < b then a else b }

  lemma {:induction false} ZerosOfOr(a: nat, b: nat)
    requires a > 0 && b > 0
    ensures Or(a, b) > 0 && TrailingZeros(Or(a, b)) == Min(TrailingZeros(a), TrailingZeros(b))
  {
    if a % 2 == 0 && b % 2 == 0 {
      ZerosOfOr(a / 2, b / 2);
      assert Or(a, b) == 2 * Or(a / 2, b / 2);
    }
  }

  /** With an odd number, only the odd part of the other matters. */
  lemma {:induction false} GcdOddPart(a: nat, b: nat)
    requires a % 2 == 1 && b > 0
    ensures Greatest(a, ShiftRight(b, TrailingZeros(b))) == Greatest(a, b)
  {
    if b % 2 == 0 {
      GcdOddPart(a, b / 2);
      GcdOdd(a, b / 2);
    }
  }

  /** The common power of two, and the odd parts. */
  lemma {:induction false} GcdSplit(a: nat, b: nat)
    requires a > 0 && b > 0
    ensures Greatest(a, b) == Pow(2, Min(TrailingZeros(a), TrailingZeros(b))) * Greatest(ShiftRight(a, TrailingZeros(a)), b)
  {
    hide Greatest;
    if a % 2 == 1 {
    } else if b % 2 == 1 {
      GcdSwap(a, b);
      GcdOddPart(b, a);
      GcdSwap(b, ShiftRight(a, TrailingZeros(a)));
    } else {
      GcdSplit(a / 2, b / 2);
      GcdDouble(a / 2, b / 2);
      var odd := ShiftRight(a, TrailingZeros(a));
      OddPart(a);
      GcdOdd(odd, b / 2);
      MulAssoc(2, Pow(2, Min(TrailingZeros(a / 2), TrailingZeros(b / 2))), Greatest(odd, b / 2));
    }
  }

  lemma AtMostArgument(a: nat, b: nat)
    requires a > 0
    ensures Greatest(a, b) <= a
  {
    var x, y := GcdFacts(a, b);
    var g := Greatest(a, b);
    var k := CongFactor(a, 0, g);
    PositiveFactor(k, g, a);
    MulMonotone(1, k, g);
  }

  /** Two 64-bit numbers; the final shift does not overflow. */
  method BinaryGcd(a0: nat, b0: nat) returns (g: nat)
    requires a0 < Pow(2, 64) && b0 < Pow(2, 64)
    ensures g == Greatest(a0, b0) && g < Pow(2, 64)
  {
    hide *;
    GcdZero(a0);
    GcdZero(b0);
    GcdSwap(a0, b0);
    if a0 == 0 { return b0; }
    if b0 == 0 { return a0; }
    ZerosOfOr(a0, b0);
    GcdSplit(a0, b0);
    OddPart(a0);
    AtMostArgument(a0, b0);
    var shift := TrailingZeros(Or(a0, b0));
    var a: nat, b: nat := ShiftRight(a0, TrailingZeros(a0)), b0;
    while true
      invariant a > 0 && a % 2 == 1 && b > 0
      invariant Pow(2, shift) * Greatest(a, b) == Greatest(a0, b0)
      decreases a + b
    {
      GcdOddPart(a, b);
      OddPart(b);
      b := ShiftRight(b, TrailingZeros(b));
      GcdSwap(a, b);
      if a > b { a, b := b, a; }
      GcdSubtract(a, b);
      b := b - a;
      if b == 0 {
        GcdZero(a);
        g := a * Pow(2, shift);
        MulOrder(a, Pow(2, shift));
        return;
      }
    }
  }

  lemma MulOrder(a: int, b: int)
    ensures a * b == b * a
  {}
}
