/** Exponentiation on the integers and congruence modulo m: the arithmetic every other module rests on. */
module Arith {

  function Pow(b: int, e: nat): (r: int)
    ensures b > 0 ==> r > 0
  {
    if e == 0 then 1 else b * Pow(b, e - 1)
  }

  lemma {:induction false} PowAdd(b: int, x: nat, y: nat)
    ensures Pow(b, x + y) == Pow(b, x) * Pow(b, y)
  {
    if x == 0 {
    } else {
      PowAdd(b, x - 1, y);
      MulAssoc(b, Pow(b, x - 1), Pow(b, y));
    }
  }

  lemma {:induction false} PowProduct(a: int, b: int, e: nat)
    ensures Pow(a * b, e) == Pow(a, e) * Pow(b, e)
  {
    if e == 0 {
    } else {
      PowProduct(a, b, e - 1);
      MulSwap(a, b, Pow(a, e - 1), Pow(b, e - 1));
    }
  }

  lemma {:induction false} PowPow(b: int, x: nat, y: nat)
    ensures x * y >= 0
    ensures Pow(Pow(b, x), y) == Pow(b, x * y)
  {
    if y == 0 {
      assert x * y == 0;
    } else {
      PowPow(b, x, y - 1);
      assert x * y == x + x * (y - 1);
      PowAdd(b, x, x * (y - 1));
    }
  }

  /** One squaring step of every square-and-multiply loop in the program. */
  lemma PowHalve(b: int, e: nat)
    ensures Pow(b, e) == (if e % 2 == 1 then b else 1) * Pow(b * b, e / 2)
  {
    var h := e / 2;
    PowProduct(b, b, h);
    PowAdd(b, h, h);
    assert Pow(b * b, h) == Pow(b, h + h);
    if e % 2 == 1 {
      assert e == h + h + 1;
      assert Pow(b, e) == b * Pow(b, h + h);
    } else {
      assert e == h + h;
    }
  }

  lemma {:induction false} PowOne(e: nat)
    ensures Pow(1, e) == 1
  {
    if e > 0 { PowOne(e - 1); }
  }

  lemma {:induction false} PowMonotone(b: int, x: nat, y: nat)
    requires b > 1 && x < y
    ensures 0 < Pow(b, x) < Pow(b, y)
    decreases y
  {
    MulGrows(b, Pow(b, y - 1));
    if x < y - 1 { PowMonotone(b, x, y - 1); }
  }

  lemma MulAssoc(a: int, b: int, c: int)
    ensures a * b * c == a * (b * c)
  {}

  lemma MulSwap(a: int, b: int, c: int, d: int)
    ensures a * b * (c * d) == (a * c) * (b * d)
  {}

  lemma MulGrows(a: int, b: int)
    requires a > 1 && b > 0
    ensures a * b > b
  {}

  lemma MulMonotone(a: int, b: int, c: int)
    requires a <= b && c >= 0
    ensures a * c <= b * c
  {}

  // ── Congruence ───────────────────────────────────────────────────

  function Times(k: int, m: int): int { k * m }

  /** a and b differ by a multiple of m. */
  ghost predicate Cong(a: int, b: int, m: int)
  {
    exists k :: a - b == Times(k, m)
  }

  lemma CongIntro(a: int, b: int, k: int, m: int)
    requires a == b + k * m
    ensures Cong(a, b, m)
  {
    assert a - b == Times(k, m);
  }

  lemma CongFactor(a: int, b: int, m: int) returns (k: int)
    requires Cong(a, b, m)
    ensures a == b + k * m
  {
    k :| a - b == Times(k, m);
  }

  lemma CongRefl(a: int, m: int)
    ensures Cong(a, a, m)
  {
    CongIntro(a, a, 0, m);
  }

  lemma CongSym(a: int, b: int, m: int)
    requires Cong(a, b, m)
    ensures Cong(b, a, m)
  {
    var k := CongFactor(a, b, m);
    assert (-k) * m == -(k * m);
    CongIntro(b, a, -k, m);
  }

  lemma CongTrans(a: int, b: int, c: int, m: int)
    requires Cong(a, b, m) && Cong(b, c, m)
    ensures Cong(a, c, m)
  {
    var k := CongFactor(a, b, m);
    var l := CongFactor(b, c, m);
    assert (k + l) * m == k * m + l * m;
    CongIntro(a, c, k + l, m);
  }

  lemma CongAdd(a: int, b: int, c: int, d: int, m: int)
    requires Cong(a, b, m) && Cong(c, d, m)
    ensures Cong(a + c, b + d, m)
    ensures Cong(a - c, b - d, m)
  {
    var k := CongFactor(a, b, m);
    var l := CongFactor(c, d, m);
    assert (k + l) * m == k * m + l * m;
    assert (k - l) * m == k * m - l * m;
    CongIntro(a + c, b + d, k + l, m);
    CongIntro(a - c, b - d, k - l, m);
  }

  lemma CongMul(a: int, b: int, c: int, d: int, m: int)
    requires Cong(a, b, m) && Cong(c, d, m)
    ensures Cong(a * c, b * d, m)
  {
    var k := CongFactor(a, b, m);
    var l := CongFactor(c, d, m);
    var q := k * c + b * l;
    calc {
      a * c;
      (b + k * m) * c;
      b * c + k * m * c;
      { assert b * c == b * (d + l * m) == b * d + b * l * m; }
      b * d + b * l * m + k * m * c;
      { assert q * m == k * c * m + b * l * m; assert k * m * c == k * c * m; }
      b * d + q * m;
    }
    CongIntro(a * c, b * d, q, m);
  }

  lemma CongScale(c: int, a: int, b: int, m: int)
    requires Cong(a, b, m)
    ensures Cong(c * a, c * b, m)
  {
    CongRefl(c, m);
    CongMul(c, c, a, b, m);
  }

  lemma {:induction false} CongPow(a: int, b: int, e: nat, m: int)
    requires Cong(a, b, m)
    ensures Cong(Pow(a, e), Pow(b, e), m)
  {
    if e == 0 {
      CongRefl(1, m);
    } else {
      CongPow(a, b, e - 1, m);
      CongMul(a, b, Pow(a, e - 1), Pow(b, e - 1), m);
    }
  }

  lemma CongMod(a: int, m: int)
    requires m > 0
    ensures Cong(a % m, a, m)
    ensures Cong(a, a % m, m)
  {
    var q := a / m;
    assert a == m * q + a % m;
    assert (-q) * m == -(m * q);
    CongIntro(a % m, a, -q, m);
    CongIntro(a, a % m, q, m);
  }

  /** Residues are unique. */
  lemma CongUnique(a: int, b: int, m: int)
    requires 0 <= a < m && 0 <= b < m && Cong(a, b, m)
    ensures a == b
  {
    var k := CongFactor(a, b, m);
    if k >= 1 { MulMonotone(1, k, m); }
    if k <= -1 { MulMonotone(k, -1, m); }
  }

  lemma CongToMod(a: int, b: int, m: int)
    requires m > 0 && Cong(a, b, m)
    ensures a % m == b % m
  {
    CongMod(a, m);
    CongMod(b, m);
    CongTrans(a % m, a, b, m);
    CongTrans(a % m, b, b % m, m);
    CongUnique(a % m, b % m, m);
  }

  lemma ModToCong(a: int, b: int, m: int)
    requires m > 0 && a % m == b % m
    ensures Cong(a, b, m)
  {
    CongMod(a, m);
    CongMod(b, m);
    CongTrans(a, a % m, b, m);
  }
}
