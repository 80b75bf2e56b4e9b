/** The bitwise operators the program uses on unsigned machine words, as functions on the naturals. */
module Bits {
  import opened Arith

  function And(x: nat, y: nat): nat
  {
    if x == 0 || y == 0 then 0 else (x % 2) * (y % 2) + 2 * And(x / 2, y / 2)
  }

  function Xor(x: nat, y: nat): nat
    decreases x + y
  {
    if x == 0 && y == 0 then 0 else (if x % 2 == y % 2 then 0 else 1) + 2 * Xor(x / 2, y / 2)
  }

  /** x >> k */
  function ShiftRight(x: nat, k: nat): nat
  {
    if k == 0 then x else ShiftRight(x / 2, k - 1)
  }

  lemma {:induction false} ShiftOnce(x: nat, k: nat)
    ensures ShiftRight(x, k + 1) == ShiftRight(x, k) / 2
  {
    if k > 0 { ShiftOnce(x / 2, k - 1); }
  }

  lemma {:induction false} ShiftOut(x: nat, width: nat)
    requires x < Pow(2, width)
    ensures ShiftRight(x, width) == 0
  {
    if width > 0 { ShiftOut(x / 2, width - 1); }
  }

  function Or(x: nat, y: nat): nat
    decreases x + y
  {
    if x == 0 && y == 0 then 0
    else (if x % 2 == 1 || y % 2 == 1 then 1 else 0) + 2 * Or(x / 2, y / 2)
  }

  /** The k low bits of x. */
  function LowBits(x: nat, k: nat): nat
  {
    if k == 0 then 0 else x % 2 + 2 * LowBits(x / 2, k - 1)
  }

  lemma {:induction false} LowAndHigh(x: nat, k: nat)
    ensures x == LowBits(x, k) + Pow(2, k) * ShiftRight(x, k) && LowBits(x, k) < Pow(2, k)
  {
    if k > 0 {
      LowAndHigh(x / 2, k - 1);
      MulAssoc(2, Pow(2, k - 1), ShiftRight(x / 2, k - 1));
    }
  }

  lemma {:induction false} ShiftTwice(x: nat, a: nat, b: nat)
    ensures ShiftRight(x, a + b) == ShiftRight(ShiftRight(x, a), b)
  {
    if a > 0 { ShiftTwice(x / 2, a - 1, b); }
  }

  /** Shifting out the whole low part a leaves the high part. */
  lemma {:induction false} ShiftConcat(a: nat, b: nat, k: nat, j: nat)
    requires a < Pow(2, k) && j <= k
    ensures Pow(2, k) * b >= 0 && Pow(2, k - j) * b >= 0
    ensures ShiftRight(a + Pow(2, k) * b, j) == ShiftRight(a, j) + Pow(2, k - j) * b
    decreases j
  {
    MulMonotone(0, Pow(2, k), b);
    MulMonotone(0, Pow(2, k - j), b);
    if j > 0 {
      MulAssoc(2, Pow(2, k - 1), b);
      assert (a + Pow(2, k) * b) / 2 == a / 2 + Pow(2, k - 1) * b;
      ShiftConcat(a / 2, b, k - 1, j - 1);
    }
  }

  /** The low k + m bits of a + 2^k b. */
  lemma {:induction false} LowConcat(a: nat, b: nat, k: nat, m: nat)
    requires a < Pow(2, k)
    ensures Pow(2, k) * b >= 0
    ensures LowBits(a + Pow(2, k) * b, k + m) == a + Pow(2, k) * LowBits(b, m)
    decreases k
  {
    MulMonotone(0, Pow(2, k), b);
    if k > 0 {
      MulAssoc(2, Pow(2, k - 1), b);
      MulAssoc(2, Pow(2, k - 1), LowBits(b, m));
      assert (a + Pow(2, k) * b) / 2 == a / 2 + Pow(2, k - 1) * b;
      LowConcat(a / 2, b, k - 1, m);
    }
  }

  /** Bits from position k on do not affect the low w <= k bits. */
  lemma {:induction false} LowIgnoresHigh(a: nat, b: nat, k: nat, w: nat)
    requires w <= k
    ensures Pow(2, k) * b >= 0
    ensures LowBits(a + Pow(2, k) * b, w) == LowBits(a, w)
    decreases w
  {
    MulMonotone(0, Pow(2, k), b);
    if w > 0 {
      MulAssoc(2, Pow(2, k - 1), b);
      assert (a + Pow(2, k) * b) / 2 == a / 2 + Pow(2, k - 1) * b;
      LowIgnoresHigh(a / 2, b, k - 1, w - 1);
    }
  }

  lemma {:induction false} LowOfSmall(a: nat, w: nat)
    requires a < Pow(2, w)
    ensures LowBits(a, w) == a
  {
    if w > 0 { LowOfSmall(a / 2, w - 1); }
  }

  /** x & (2^k - 1) */
  lemma {:induction false} AndMask(x: nat, k: nat)
    ensures And(x, Pow(2, k) - 1) == LowBits(x, k)
  {
    if k == 0 {
    } else if x == 0 {
      LowOfSmall(0, k);
    } else {
      AndMask(x / 2, k - 1);
      assert (Pow(2, k) - 1) / 2 == Pow(2, k - 1) - 1 && (Pow(2, k) - 1) % 2 == 1;
    }
  }

  /** Or of disjoint fields is their sum. */
  lemma {:induction false} OrDisjoint(a: nat, b: nat, k: nat)
    requires a < Pow(2, k)
    ensures Pow(2, k) * b >= 0
    ensures Or(a, Pow(2, k) * b) == a + Pow(2, k) * b
    decreases k
  {
    MulMonotone(0, Pow(2, k), b);
    if k == 0 {
      OrZero(b);
    } else {
      MulAssoc(2, Pow(2, k - 1), b);
      OrDisjoint(a / 2, b, k - 1);
      assert Pow(2, k) * b / 2 == Pow(2, k - 1) * b && Pow(2, k) * b % 2 == 0;
    }
  }

  lemma {:induction false} OrZero(b: nat)
    ensures Or(0, b) == b
  {
    if b > 0 { OrZero(b / 2); }
  }

  /** !x on a word of the given width. */
  function Not(x: nat, width: nat): nat
    requires x < Pow(2, width)
  {
    Pow(2, width) - 1 - x
  }

  lemma {:induction false} AndAllOnes(z: nat, width: nat)
    requires z < Pow(2, width)
    ensures And(Pow(2, width) - 1, z) == z
  {
    if width > 0 {
      AndAllOnes(z / 2, width - 1);
      var ones := Pow(2, width) - 1;
      assert ones == 2 * (Pow(2, width - 1) - 1) + 1;
      assert ones / 2 == Pow(2, width - 1) - 1 && ones % 2 == 1;
    }
  }

  lemma {:induction false} XorZero(x: nat)
    ensures Xor(x, 0) == x
  {
    if x > 0 { XorZero(x / 2); }
  }

  lemma {:induction false} XorCancels(x: nat, y: nat)
    ensures Xor(x, Xor(x, y)) == y
    decreases x + y
  {
    hide *;
    if x != 0 || y != 0 {
      XorCancels(x / 2, y / 2);
      XorDigits(x, y);
      XorDigits(x, Xor(x, y));
      assert x % 2 + 2 * (x / 2) == x && y % 2 + 2 * (y / 2) == y;
    } else {
      XorDigits(0, 0);
    }
  }

  lemma XorDigits(x: nat, y: nat)
    ensures Xor(x, y) % 2 == (if x % 2 == y % 2 then 0 else 1) && Xor(x, y) / 2 == Xor(x / 2, y / 2)
  {
    if x != 0 || y != 0 {
      LowDigit(if x % 2 == y % 2 then 0 else 1, Xor(x / 2, y / 2));
    }
  }

  lemma LowDigit(d: nat, q: nat)
    requires d < 2
    ensures (d + 2 * q) % 2 == d && (d + 2 * q) / 2 == q
  {}

  lemma {:induction false} XorBounded(x: nat, y: nat, width: nat)
    requires x < Pow(2, width) && y < Pow(2, width)
    ensures Xor(x, y) < Pow(2, width)
  {
    if width > 0 { XorBounded(x / 2, y / 2, width - 1); }
  }

  /** Clearing the k low bits rounds down to a multiple of 2^k. */
  lemma {:induction false} ClearLowBits(x: nat, k: nat, width: nat)
    requires k <= width && x < Pow(2, width)
    ensures Pow(2, k) <= Pow(2, width)
    ensures And(x, Not(Pow(2, k) - 1, width)) == Pow(2, k) * (x / Pow(2, k))
  {
    if k < width { PowMonotone(2, k, width); }
    if k == 0 {
      AndCommutes(x, Pow(2, width) - 1);
      AndAllOnes(x, width);
    } else {
      ClearLowBits(x / 2, k - 1, width - 1);
      ClearStep(x, Pow(2, k - 1), Not(Pow(2, k - 1) - 1, width - 1));
    }
  }

  lemma ClearStep(x: nat, h: nat, mask: nat)
    requires h > 0 && And(x / 2, mask) == h * (x / 2 / h)
    ensures And(x, 2 * mask) == 2 * h * (x / (2 * h))
  {
    DivTwice(x, h);
    AndEven(x, mask);
    MulAssoc(2, h, x / 2 / h);
  }

  lemma AndEven(x: nat, y: nat)
    ensures And(x, 2 * y) == 2 * And(x / 2, y)
  {
    assert 2 * y / 2 == y;
  }

  lemma {:induction false} AndCommutes(x: nat, y: nat)
    ensures And(x, y) == And(y, x)
  {
    if x != 0 && y != 0 { AndCommutes(x / 2, y / 2); }
  }

  lemma DivTwice(x: nat, h: nat)
    requires h > 0
    ensures x / (2 * h) == x / 2 / h
  {
    var q := x / 2 / h;
    var r := x / 2 - h * q;
    assert x == 2 * h * q + (2 * r + x % 2);
    assert 0 <= 2 * r + x % 2 < 2 * h;
    DivUnique(x, 2 * h, q, 2 * r + x % 2);
  }

  lemma DivUnique(x: int, d: int, q: int, r: int)
    requires d > 0 && x == d * q + r && 0 <= r < d
    ensures x / d == q && x % d == r
  {
    CongIntro(x, r, q, d) by { assert d * q == q * d; }
    CongToMod(x, r, d);
    CongIntro(r, r % d, r / d, d) by { assert d * (r / d) == (r / d) * d; }
    CongUnique(r, r % d, d);
    assert d * (x / d) == d * q;
  }
}
