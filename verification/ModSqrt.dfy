/** Modular powers, the Legendre symbol and the Tonelli-Shanks square root for 64-bit moduli. */
module ModSqrt {
  import opened Arith
  import opened Gcd
  import opened Primes
  import opened Transform
  import opened Wrappers

  /** The reducer's shift by twice the bit length fits 128 bits only below this bound. */
  const MODULUS_LIMIT: nat := 0x8000_0000_0000_0000

  /** The reducer applied to a product of two words. */
  function MulMod(x: nat, y: nat, m: nat): (r: nat)
    requires m > 0
    ensures r < m && Cong(r, x * y, m)
  {
    CongMod(x * y, m);
    x * y % m
  }

  /** base^exp modulo m, except that m = 1, exp = 0 gives 1. */
  method ModPow(base: nat, exp: nat, modulus: nat) returns (result: nat)
    requires 0 < modulus < MODULUS_LIMIT
    ensures result == if modulus == 1 && exp == 0 then 1 else Pow(base, exp) % modulus
  {
    result := 1;
    var b: nat, e: nat := base % modulus, exp;
    CongMod(base, modulus);
    CongPow(b, base, exp, modulus);
    while e > 0
      invariant modulus > 1 ==> result < modulus
      invariant modulus == 1 ==> result <= 1 && (e == 0 < exp ==> result == 0)
      invariant e == exp ==> result == 1
      invariant Cong(result * Pow(b, e), Pow(base, exp), modulus)
    {
      ghost var r0, b0 := result, b;
      if e % 2 == 1 {
        result := MulMod(result, b, modulus);
      }
      PowStep(r0, b0, e, result, MulMod(b, b, modulus), Pow(base, exp), modulus);
      e := e / 2;
      b := MulMod(b, b, modulus);
    }
    if modulus > 1 || exp > 0 { ResidueOf(result, Pow(base, exp), modulus); }
  }

  lemma ResidueOf(r: nat, x: int, m: nat)
    requires r < m && Cong(r, x, m)
    ensures r == x % m
  {
    CongMod(x, m);
    CongTrans(r, x, x % m, m);
    CongUnique(r, x % m, m);
  }

  /** One square-and-multiply step keeps result * base^exp. */
  lemma PowStep(r: nat, b: nat, e: nat, r': nat, b': nat, total: int, m: nat)
    requires e > 0 && Cong(r * Pow(b, e), total, m) && Cong(b', b * b, m)
    requires if e % 2 == 1 then Cong(r', r * b, m) else r' == r
    ensures Cong(r' * Pow(b', e / 2), total, m)
  {
    var q := Pow(b * b, e / 2);
    PowHalve(b, e);
    CongPow(b', b * b, e / 2, m);
    if e % 2 == 1 {
      CongMul(r', r * b, Pow(b', e / 2), q, m);
      MulAssoc(r, b, q);
    } else {
      CongScale(r, Pow(b', e / 2), q, m);
    }
    CongTrans(r' * Pow(b', e / 2), r * Pow(b, e), total, m);
  }

  ghost predicate OddPrime(p: nat)
  {
    IsPrime(p) && 2 < p < MODULUS_LIMIT
  }

  /** a has a nonzero square root modulo p. */
  ghost predicate NonzeroResidue(a: int, p: nat)
  {
    !Cong(a, 0, p) && exists x :: Cong(Times(x, x), a, p)
  }

  lemma TwoDivides(n: nat)
    requires n % 2 == 0
    ensures Divides(2, n)
  {
    CongIntro(n, 0, n / 2, 2);
  }

  lemma PrimeIsOdd(p: nat)
    requires OddPrime(p)
    ensures p % 2 == 1
  {
    if p % 2 == 0 {
      TwoDivides(p);
    }
  }

  /** Euler: the symbol's power is 0, 1 or -1, and 0 exactly for multiples of p. */
  lemma EulerPower(a: int, p: nat)
    requires OddPrime(p)
    ensures var u := Pow(a, (p - 1) / 2);
            if Cong(a, 0, p) then Cong(u, 0, p) else Cong(u, 1, p) || Cong(u, -1, p)
  {
    var h := (p - 1) / 2;
    PrimeIsOdd(p);
    if Cong(a, 0, p) {
      CongMul(a, 0, Pow(a, h - 1), Pow(a, h - 1), p) by { CongRefl(Pow(a, h - 1), p); }
    } else {
      Fermat(a, p);
      PowAdd(a, h, h);
      RootsOfOne(Pow(a, h), p);
    }
  }

  lemma SignsDiffer(p: nat)
    requires OddPrime(p)
    ensures !Cong(1, 0, p) && !Cong(-1, 0, p) && !Cong(1, -1, p) && !Cong(-1, 1, p)
  {
    SmallNonzero(1, p);
    SmallNonzero(2, p);
    CongRefl(1, p);
    if Cong(-1, 0, p) { CongAdd(-1, 0, 1, 1, p); CongSym(0, 1, p); }
    if Cong(1, -1, p) { CongAdd(1, -1, 1, 1, p); }
    if Cong(-1, 1, p) { CongSym(-1, 1, p); CongAdd(1, -1, 1, 1, p); }
  }

  lemma ResidueIsOne(a: int, x: int, p: nat)
    requires OddPrime(p) && !Cong(a, 0, p) && Cong(x * x, a, p)
    ensures Cong(Pow(a, (p - 1) / 2), 1, p)
  {
    var h := (p - 1) / 2;
    PrimeIsOdd(p);
    if Cong(x, 0, p) {
      CongMul(x, 0, x, x, p) by { CongRefl(x, p); }
      CongSym(x * x, a, p);
      CongTrans(a, x * x, 0, p);
    }
    Fermat(x, p);
    PowProduct(x, x, h);
    PowAdd(x, h, h);
    CongPow(x * x, a, h, p);
    CongSym(Pow(x * x, h), Pow(a, h), p);
    CongTrans(Pow(a, h), Pow(x * x, h), 1, p);
  }

  /** A residue of u is recognised by comparing it with 0 and 1. */
  lemma ClassifySymbol(r: nat, u: int, p: nat)
    requires OddPrime(p) && r < p && Cong(r, u, p) && (Cong(u, 0, p) || Cong(u, 1, p) || Cong(u, -1, p))
    ensures Cong(u, if r == 0 then 0 else if r == 1 then 1 else -1, p)
    ensures r == 0 <==> Cong(u, 0, p)
  {
    CongSym(r, u, p);
    if Cong(u, 0, p) { CongTrans(r, u, 0, p); CongUnique(r, 0, p); }
    if Cong(u, 1, p) { CongTrans(r, u, 1, p); CongUnique(r, 1, p); }
  }

  method LegendreSymbol(a: nat, p: nat) returns (s: int)
    requires OddPrime(p)
    ensures s == 0 || s == 1 || s == -1
    ensures Cong(Pow(a, (p - 1) / 2), s, p)
    ensures s == 0 <==> Cong(a, 0, p)
    ensures s == 1 <==> NonzeroResidue(a, p)
  {
    SignsDiffer(p);
    EulerPower(a, p);
    EulerCriterion(a, p);
    var r := ModPow(a, (p - 1) / 2, p);
    CongMod(Pow(a, (p - 1) / 2), p);
    ClassifySymbol(r, Pow(a, (p - 1) / 2), p);
    UnitPower(a, p);
    s := if r == 0 then 0 else if r == 1 then 1 else -1;
    SymbolOne(Pow(a, (p - 1) / 2), s, p);
  }

  lemma SymbolOne(u: int, s: int, p: nat)
    requires OddPrime(p) && Cong(u, s, p) && (s == 0 || s == 1 || s == -1)
    ensures Cong(u, 1, p) <==> s == 1
  {
    SignsDiffer(p);
    CongSym(u, s, p);
    if Cong(u, 1, p) { CongTrans(s, u, 1, p); CongSym(s, 1, p); }
  }

  // ── Euler's criterion ────────────────────────────────────────────

  /** The square of i, reduced. */
  function SquareMod(i: nat, p: nat): (r: nat)
    requires p > 0
    ensures r < p
  {
    MulMonotone(0, i, i);
    i * i % p
  }

  lemma SquaresDiffer(i: nat, j: nat, p: nat)
    requires OddPrime(p) && 1 <= i < j <= (p - 1) / 2
    ensures SquareMod(i, p) != SquareMod(j, p)
  {
    if SquareMod(i, p) == SquareMod(j, p) {
      ModToCong(j * j, i * i, p);
      CongRefl(i * i, p);
      CongAdd(j * j, i * i, i * i, i * i, p);
      assert j * j - i * i == (j - i) * (j + i);
      NoZeroDivisors(j - i, j + i, p);
      SmallNonzero(j - i, p);
      SmallNonzero(j + i, p);
    }
  }

  lemma SquareIsRoot(i: nat, p: nat)
    requires OddPrime(p) && 1 <= i < p
    ensures Cong(Pow(SquareMod(i, p), (p - 1) / 2), 1, p)
  {
    var r := SquareMod(i, p);
    SmallNonzero(i, p);
    CongMod(i * i, p);
    if Cong(r, 0, p) {
      CongTrans(i * i, r, 0, p);
      NoZeroDivisors(i, i, p);
    }
    ResidueIsOne(r, i, p);
  }

  /** The (p-1)/2 squares are all the roots of X^((p-1)/2) - 1, so a root is a square. */
  lemma RootIsSquare(a: nat, p: nat)
    requires OddPrime(p) && Cong(Pow(a, (p - 1) / 2), 1, p)
    ensures exists i: nat :: 1 <= i <= (p - 1) / 2 && SquareMod(i, p) == a % p
  {
    var h := (p - 1) / 2;
    PrimeIsOdd(p);
    var f, s := PowerMinusOne(h), seq(h + 1, i requires 0 <= i < h + 1 => if i == 0 then a % p else SquareMod(i, p));
    SmallNonzero(1, p);
    CongMod(a, p);
    CongPow(a % p, a, h, p);
    CongTrans(Pow(a % p, h), Pow(a, h), 1, p);
    RootOfPower(a % p, h, p);
    forall i | 0 <= i < |s| ensures 0 <= s[i] < p && Cong(Eval(f, s[i]), 0, p) {
      if i > 0 {
        SquareIsRoot(i, p);
        RootOfPower(s[i], h, p);
      }
    }
    if forall i: nat :: 1 <= i <= h ==> SquareMod(i, p) != a % p {
      forall i, j | 0 <= i < j < |s| ensures s[i] != s[j] {
        if i > 0 { SquaresDiffer(i, j, p); }
      }
      RootBound(f, s, p);
    }
  }

  /** The symbol's power is 1 exactly for nonzero squares. */
  lemma EulerCriterion(a: nat, p: nat)
    requires OddPrime(p)
    ensures Cong(Pow(a, (p - 1) / 2), 1, p) <==> NonzeroResidue(a, p)
  {
    var h := (p - 1) / 2;
    if NonzeroResidue(a, p) {
      var x :| Cong(Times(x, x), a, p);
      ResidueIsOne(a, x, p);
    }
    if Cong(Pow(a, h), 1, p) {
      RootIsSquare(a, p);
      var i: nat :| 1 <= i <= h && SquareMod(i, p) == a % p;
      ModToCong(i * i, a, p);
      PowerOfZero(a, p);
      IsResidue(a, i, p);
    }
  }

  lemma PowerOfZero(a: int, p: nat)
    requires OddPrime(p) && Cong(Pow(a, (p - 1) / 2), 1, p)
    ensures !Cong(a, 0, p)
  {
    EulerPower(a, p);
    SignsDiffer(p);
    if Cong(a, 0, p) {
      CongSym(Pow(a, (p - 1) / 2), 1, p);
      CongTrans(1, Pow(a, (p - 1) / 2), 0, p);
    }
  }

  lemma UnitPower(a: int, p: nat)
    requires OddPrime(p)
    ensures Cong(Pow(a, (p - 1) / 2), 0, p) <==> Cong(a, 0, p)
  {
    var u := Pow(a, (p - 1) / 2);
    EulerPower(a, p);
    SignsDiffer(p);
    if Cong(u, 0, p) && !Cong(a, 0, p) {
      CongSym(u, 0, p);
      CongSym(0, u, p);
      if Cong(u, 1, p) { CongSym(u, 1, p); CongTrans(1, u, 0, p); } else { CongSym(u, -1, p); CongTrans(-1, u, 0, p); }
    }
  }

  // ── Tonelli-Shanks ───────────────────────────────────────────────

  /** The loop invariant: c has order exactly 2^m, t has order dividing 2^(m-1), and r*r = a*t. */
  ghost predicate Tonelli(a: int, c: int, t: int, r: int, m: nat, p: nat)
  {
    && m >= 1
    && Cong(Pow(c, Pow(2, m - 1)), -1, p)
    && Cong(Pow(t, Pow(2, m - 1)), 1, p)
    && Cong(r * r, a * t, p)
  }

  lemma PowSquared(x: int, k: nat)
    ensures Pow(x, Pow(2, k + 1)) == Pow(x, Pow(2, k)) * Pow(x, Pow(2, k))
    ensures Pow(x * x, Pow(2, k)) == Pow(x, Pow(2, k + 1))
  {
    PowAdd(x, Pow(2, k), Pow(2, k));
    PowProduct(x, x, Pow(2, k));
  }

  /** With i the order exponent of t and b = c^(2^(m-i-1)), the next state satisfies the invariant for i. */
  lemma TonelliStep(a: int, c: int, t: int, r: int, m: nat, i: nat, b: int, p: nat)
    requires OddPrime(p) && Tonelli(a, c, t, r, m, p) && 1 <= i < m
    requires Cong(Pow(t, Pow(2, i)), 1, p) && !Cong(Pow(t, Pow(2, i - 1)), 1, p)
    requires Cong(b, Pow(c, Pow(2, m - i - 1)), p)
    ensures Tonelli(a, b * b, t * (b * b), r * b, i, p)
  {
    var e := Pow(2, i - 1);
    var x := Pow(c, Pow(2, m - i - 1));
    // (b*b)^(2^(i-1)) = c^(2^(m-1)) = -1
    PowSquared(b, i - 1);
    CongPow(b, x, Pow(2, i), p);
    PowPow(c, Pow(2, m - i - 1), Pow(2, i));
    PowAdd(2, m - i - 1, i);
    CongTrans(Pow(b * b, e), Pow(c, Pow(2, m - 1)), -1, p);
    // t^(2^(i-1)) = -1, so the product's power is 1
    PowSquared(t, i - 1);
    RootsOfOne(Pow(t, e), p);
    PowProduct(t, b * b, e);
    CongMul(Pow(t, e), -1, Pow(b * b, e), -1, p);
    // (r*b)^2 = a*t*b*b
    CongMul(r * r, a * t, b * b, b * b, p) by { CongRefl(b * b, p); }
    MulSwap(r, r, b, b);
    assert (r * b) * (r * b) == r * r * (b * b);
    MulAssoc(a, t, b * b);
  }

  lemma TonelliCong(a: int, c: int, c': int, t: int, t': int, r: int, r': int, m: nat, p: nat)
    requires Tonelli(a, c, t, r, m, p) && Cong(c', c, p) && Cong(t', t, p) && Cong(r', r, p)
    ensures Tonelli(a, c', t', r', m, p)
  {
    var e := Pow(2, m - 1);
    CongPow(c', c, e, p);
    CongTrans(Pow(c', e), Pow(c, e), -1, p);
    CongPow(t', t, e, p);
    CongTrans(Pow(t', e), Pow(t, e), 1, p);
    CongMul(r', r, r', r, p);
    CongTrans(r' * r', r * r, a * t, p);
    CongSym(t', t, p);
    CongScale(a, t, t', p);
    CongTrans(r' * r', a * t, a * t', p);
  }

  /** With p - 1 = q 2^s, z a non-residue and a a residue, the starting state satisfies the invariant. */
  lemma TonelliStart(a: int, z: int, q: nat, s: nat, p: nat)
    requires OddPrime(p) && q % 2 == 1 && s >= 1 && p - 1 == q * Pow(2, s)
    requires Cong(Pow(z, (p - 1) / 2), -1, p) && Cong(Pow(a, (p - 1) / 2), 1, p)
    ensures Tonelli(a, Pow(z, q), Pow(a, q), Pow(a, (q + 1) / 2), s, p)
  {
    var k := (q + 1) / 2;
    HalfExponent(p - 1, q, Pow(2, s - 1));
    PowPow(z, q, Pow(2, s - 1));
    PowPow(a, q, Pow(2, s - 1));
    PowAdd(a, k, k);
    assert k + k == q + 1;
    CongRefl(a * Pow(a, q), p);
  }

  lemma HalfExponent(n: nat, q: nat, e: nat)
    requires n == q * (2 * e)
    ensures n / 2 == q * e
  {
    assert q * (2 * e) == 2 * (q * e);
  }

  // ── Which of the two roots ───────────────────────────────────────

  ghost predicate LeastNonResidue(z: nat, p: nat)
    requires p > 0
  {
    2 <= z < p && !NonzeroResidue(z, p) && forall y :: 2 <= y < z ==> NonzeroResidue(y, p)
  }

  /** r = a^((q+1)/2) z^(q e) */
  ghost predicate RootAt(a: int, r: int, z: int, q: nat, e: nat, p: nat)
  {
    q * e >= 0 && Cong(r, Pow(a, (q + 1) / 2) * Pow(z, q * e), p)
  }

  /** With p - 1 = q 2^s and z the least non-residue, the exponent e stays below 2^(s-1), half the order of z^q.
      For p = 3 modulo 4 it is zero. */
  ghost predicate RootTaken(a: int, r: int, p: nat)
    requires p > 0
  {
    exists z: nat, q: nat, s: nat, e: nat :: RootBy(a, r, z, q, s, e, p)
  }

  ghost predicate RootBy(a: int, r: int, z: nat, q: nat, s: nat, e: nat, p: nat)
    requires p > 0
  {
    && q % 2 == 1 && s >= 1 && p - 1 == q * Pow(2, s) && (e == 0 || LeastNonResidue(z, p))
    && e < Pow(2, s - 1) && RootAt(a, r, z, q, e, p)
  }

  /** What the loop keeps of that: c = z^(q 2^(s-m)), and an exponent below 2^(s-m). */
  ghost predicate Along(a: int, c: int, r: int, z: nat, q: nat, s: nat, m: nat, e: nat, p: nat)
  {
    && m <= s && q * Pow(2, s - m) >= 0 && Cong(c, Pow(z, q * Pow(2, s - m)), p)
    && e < Pow(2, s - m) && RootAt(a, r, z, q, e, p)
  }

  lemma AlongStart(a: int, c: int, r: int, z: nat, q: nat, s: nat, p: nat)
    requires Cong(c, Pow(z, q), p) && Cong(r, Pow(a, (q + 1) / 2), p)
    ensures Along(a, c, r, z, q, s, s, 0, p)
  {
    assert Pow(2, s - s) == 1 && Pow(z, q * 0) == 1;
    assert q * 1 == q;
  }

  lemma AlongNext(a: int, c: nat, r: nat, z: nat, q: nat, s: nat, m: nat, e: nat, i: nat, b: nat, p: nat) returns (e': nat)
    requires p > 0 && Along(a, c, r, z, q, s, m, e, p) && i < m && b == Pow(c, Pow(2, m - i - 1)) % p
    ensures Along(a, MulMod(b, b, p), MulMod(r, b, p), z, q, s, i, e', p)
  {
    hide Pow, Cong, RootAt;
    var x, y, d := Pow(2, s - m), Pow(2, m - i - 1), Pow(2, s - i - 1);
    e' := e + d;
    PowAdd(2, s - m, m - i - 1);
    PowAdd(2, s - i - 1, 1);
    TwoToOne();
    StepSmaller(s - m, s - i - 1);
    BStep(c, z, q, x, y, d, b, p);
    CStep(z, q, d, b, p);
    RStep(a, r, z, q, e, d, b, p);
  }

  lemma TwoToOne()
    ensures Pow(2, 1) == 2
  {}

  lemma StepSmaller(k: nat, n: nat)
    requires k <= n
    ensures 0 < Pow(2, k) <= Pow(2, n)
  {
    if k < n { PowMonotone(2, k, n); }
  }

  lemma BStep(c: int, z: int, q: nat, x: nat, y: nat, d: nat, b: int, p: nat)
    requires p > 0 && q * x >= 0 && Cong(c, Pow(z, q * x), p) && d == x * y && b == Pow(c, y) % p
    ensures q * d >= 0 && Cong(b, Pow(z, q * d), p)
  {
    hide Pow, Cong;
    MulMonotone(0, q, d);
    CongMod(Pow(c, y), p);
    CongPow(c, Pow(z, q * x), y, p);
    PowPow(z, q * x, y);
    MulAssoc(q, x, y);
    CongTrans(b, Pow(c, y), Pow(z, q * d), p);
  }

  lemma CStep(z: int, q: nat, d: nat, b: nat, p: nat)
    requires p > 0 && q * d >= 0 && Cong(b, Pow(z, q * d), p)
    ensures q * (d * 2) >= 0 && Cong(MulMod(b, b, p), Pow(z, q * (d * 2)), p)
  {
    hide Pow, Cong;
    var u := Pow(z, q * d);
    CongMul(b, u, b, u, p);
    PowAdd(z, q * d, q * d);
    assert q * (d * 2) == q * d + q * d;
    CongMod(b * b, p);
    CongTrans(MulMod(b, b, p), b * b, u * u, p);
  }

  lemma RStep(a: int, r: nat, z: int, q: nat, e: nat, d: nat, b: nat, p: nat)
    requires p > 0 && RootAt(a, r, z, q, e, p) && q * d >= 0 && Cong(b, Pow(z, q * d), p)
    ensures RootAt(a, MulMod(r, b, p), z, q, e + d, p)
  {
    hide Pow, Cong;
    var u, v, w := Pow(a, (q + 1) / 2), Pow(z, q * e), Pow(z, q * d);
    CongMul(r, u * v, b, w, p);
    PowAdd(z, q * e, q * d);
    assert q * (e + d) == q * e + q * d;
    MulAssoc(u, v, w);
    CongMod(r * b, p);
    CongTrans(MulMod(r, b, p), r * b, u * v * w, p);
  }

  lemma AlongEnd(a: int, c: int, t: int, r: int, z: nat, q: nat, s: nat, m: nat, e: nat, p: nat)
    requires p > 0 && Along(a, c, r, z, q, s, m, e, p) && m >= 1
    requires q % 2 == 1 && p - 1 == q * Pow(2, s) && LeastNonResidue(z, p)
    ensures RootTaken(a, r, p)
  {
    StepSmaller(s - m, s - 1);
    assert RootBy(a, r, z, q, s, e, p);
  }

  lemma QuarterTaken(a: int, r: int, p: nat)
    requires p % 4 == 3 && Cong(r, Pow(a, (p + 1) / 4), p)
    ensures RootTaken(a, r, p)
  {
    var q := (p - 1) / 2;
    assert Pow(2, 0) == 1 && Pow(2, 1) == 2 && (q + 1) / 2 == (p + 1) / 4 && q * 0 == 0;
    assert RootAt(a, r, 2, q, 0, p);
    assert RootBy(a, r, 2, q, 1, 0, p);
  }

  /** The least i with t^(2^i) = 1, by repeated squaring. */
  method OrderExponent(t: nat, p: nat, ghost m: nat) returns (i: nat)
    requires OddPrime(p) && m >= 1 && 1 < t < p && Cong(Pow(t, Pow(2, m - 1)), 1, p)
    ensures 1 <= i < m
    ensures Cong(Pow(t, Pow(2, i)), 1, p) && !Cong(Pow(t, Pow(2, i - 1)), 1, p)
  {
    i := 0;
    var tmp: nat := t;
    FirstPower(t, p);
    while tmp != 1
      invariant i < m && tmp < p && Cong(tmp, Pow(t, Pow(2, i)), p)
      invariant i == 0 ==> tmp == t
      invariant i > 0 ==> !Cong(Pow(t, Pow(2, i - 1)), 1, p)
      decreases m - i
    {
      NotOne(tmp, Pow(t, Pow(2, i)), p);
      SquareStep(tmp, t, i, p);
      tmp := MulMod(tmp, tmp, p);
      i := i + 1;
    }
    CongSym(1, Pow(t, Pow(2, i)), p);
  }

  lemma FirstPower(t: int, p: nat)
    ensures Cong(t, Pow(t, Pow(2, 0)), p)
  {
    assert Pow(t, 1) == t * Pow(t, 0);
    CongRefl(t, p);
  }

  lemma SquareStep(tmp: nat, t: nat, i: nat, p: nat)
    requires p > 0 && Cong(tmp, Pow(t, Pow(2, i)), p)
    ensures Cong(MulMod(tmp, tmp, p), Pow(t, Pow(2, i + 1)), p)
  {
    var u := Pow(t, Pow(2, i));
    PowSquared(t, i);
    CongMul(tmp, u, tmp, u, p);
    CongTrans(MulMod(tmp, tmp, p), tmp * tmp, u * u, p);
  }

  lemma NotOne(r: int, u: int, p: nat)
    requires 0 <= r < p && 1 < p && r != 1 && Cong(r, u, p)
    ensures !Cong(u, 1, p)
  {
    if Cong(u, 1, p) {
      CongTrans(r, u, 1, p);
      CongUnique(r, 1, p);
    }
  }

  /** p - 1 = q 2^s with q odd. */
  method SplitPowerOfTwo(p: nat) returns (q: nat, s: nat)
    requires p > 1
    ensures q % 2 == 1 && p - 1 == q * Pow(2, s)
    ensures (p - 1) % 2 == 0 ==> s >= 1
  {
    s := 0;
    q := p - 1;
    while q % 2 == 0
      invariant q > 0 && p - 1 == q * Pow(2, s)
      invariant s == 0 ==> q == p - 1
      decreases q
    {
      assert q == q / 2 * 2;
      MulAssoc(q / 2, 2, Pow(2, s));
      q := q / 2;
      s := s + 1;
    }
  }

  /** The first z from 2 up whose symbol is -1: one exists below p. */
  method FindNonResidue(p: nat) returns (z: nat)
    requires OddPrime(p)
    ensures Cong(Pow(z, (p - 1) / 2), -1, p) && 2 <= z < p && !NonzeroResidue(z, p)
    ensures forall y :: 2 <= y < z ==> NonzeroResidue(y, p)
  {
    PrimeIsOdd(p);
    ghost var w := PowerNotAlwaysOne((p - 1) / 2, p);
    NonResidueExists(w, p);
    z := 2;
    var symbol := LegendreSymbol(z, p);
    while symbol != -1
      invariant 2 <= z <= w && Cong(Pow(z, (p - 1) / 2), symbol, p)
      invariant symbol == 0 || symbol == 1 || symbol == -1
      invariant (symbol == 1 <==> NonzeroResidue(z, p)) && (symbol == 0 <==> Cong(z, 0, p))
      invariant forall y :: 2 <= y < z ==> NonzeroResidue(y, p)
      decreases w - z
    {
      SmallNonzero(z, p);
      StillBelow(z, w, symbol, p);
      z := z + 1;
      symbol := LegendreSymbol(z, p);
    }
  }

  lemma NonResidueExists(w: int, p: nat)
    requires OddPrime(p) && 0 < w < p && !Cong(Pow(w, (p - 1) / 2), 1, p)
    ensures w >= 2 && Cong(Pow(w, (p - 1) / 2), -1, p)
  {
    SmallNonzero(w, p);
    EulerPower(w, p);
    PowOne((p - 1) / 2);
    CongRefl(1, p);
  }

  lemma StillBelow(z: nat, w: nat, symbol: int, p: nat)
    requires OddPrime(p) && Cong(Pow(w, (p - 1) / 2), -1, p) && Cong(Pow(z, (p - 1) / 2), symbol, p)
    requires symbol == 0 || symbol == 1
    ensures z != w
  {
    var u := Pow(w, (p - 1) / 2);
    SignsDiffer(p);
    CongSym(u, -1, p);
    if Cong(u, symbol, p) {
      CongTrans(-1, u, symbol, p);
    }
  }

  /** A square root of a modulo the odd prime p, found exactly when a is a nonzero residue; and which one. */
  method ModSqrt(a: nat, p: nat) returns (root: Option<nat>)
    requires OddPrime(p)
    ensures root.Some? <==> NonzeroResidue(a, p)
    ensures root.Some? ==> root.value < p && Cong(root.value * root.value, a, p) && RootTaken(a, root.value, p)
  {
    PrimeIsOdd(p);
    SignsDiffer(p);
    var symbol := LegendreSymbol(a, p);
    ghost var h := (p - 1) / 2;
    if symbol != 1 {
      NotResidue(a, symbol, p);
      return None;
    }
    // a = 0 has symbol 0, so the program's separate test for it cannot succeed here
    if p % 4 == 3 {
      var r := ModPow(a, (p + 1) / 4, p);
      QuarterRoot(a, r, p);
      IsResidue(a, r, p);
      CongMod(Pow(a, (p + 1) / 4), p);
      QuarterTaken(a, r, p);
      return Some(r);
    }
    var r := TonelliShanks(a, p);
    IsResidue(a, r, p);
    root := Some(r);
  }

  /** The general case of the square root: the loop on (m, c, t, r). */
  method TonelliShanks(a: nat, p: nat) returns (r: nat)
    requires OddPrime(p) && Cong(Pow(a, (p - 1) / 2), 1, p)
    ensures r < p && Cong(r * r, a, p) && RootTaken(a, r, p)
  {
    hide RootAt, LeastNonResidue, RootTaken, Along;
    var m: nat, c: nat, t: nat;
    ghost var z: nat, q: nat, s: nat, e: nat;
    m, c, t, r, z, q, s := TonelliSetup(a, p);
    e := 0;
    while t != 1
      invariant c < p && t < p && r < p && Tonelli(a, c, t, r, m, p)
      invariant Along(a, c, r, z, q, s, m, e, p)
      decreases m
    {
      m, c, t, r, e := TonelliRound(a, m, c, t, r, z, q, s, e, p);
    }
    assert a * 1 == a;
    AlongEnd(a, c, t, r, z, q, s, m, e, p);
  }

  /** One iteration: the order exponent of t replaces m, and t moves towards 1. */
  method TonelliRound(ghost a: nat, m: nat, c: nat, t: nat, r: nat, ghost z: nat, ghost q: nat, ghost s: nat, ghost e: nat, p: nat)
    returns (m': nat, c': nat, t': nat, r': nat, ghost e': nat)
    requires OddPrime(p) && c < p && t < p && r < p && t != 1 && Tonelli(a, c, t, r, m, p)
    requires Along(a, c, r, z, q, s, m, e, p)
    ensures c' < p && t' < p && r' < p && m' < m && Tonelli(a, c', t', r', m', p)
    ensures Along(a, c', r', z, q, s, m', e', p)
  {
    hide Along;
    TonelliNonzero(t, m, p);
    m' := OrderExponent(t, p, m);
    var b := ModPow(c, Pow(2, m - m' - 1), p);
    TonelliNext(a, c, t, r, m, m', b, p);
    e' := AlongNext(a, c, r, z, q, s, m, e, m', b, p);
    c' := MulMod(b, b, p);
    t' := MulMod(t, c', p);
    r' := MulMod(r, b, p);
  }

  method TonelliSetup(a: nat, p: nat)
    returns (m: nat, c: nat, t: nat, r: nat, ghost nonResidue: nat, ghost odd: nat, ghost twos: nat)
    requires OddPrime(p) && Cong(Pow(a, (p - 1) / 2), 1, p)
    ensures c < p && t < p && r < p && Tonelli(a, c, t, r, m, p)
    ensures odd % 2 == 1 && p - 1 == odd * Pow(2, twos) && LeastNonResidue(nonResidue, p)
    ensures Along(a, c, r, nonResidue, odd, twos, m, 0, p)
  {
    hide Along;
    PrimeIsOdd(p);
    var q, s := SplitPowerOfTwo(p);
    var z := FindNonResidue(p);
    m := s;
    c := ModPow(z, q, p);
    t := ModPow(a, q, p);
    r := ModPow(a, (q + 1) / 2, p);
    TonelliStart(a, z, q, s, p);
    TonelliReduce(a, Pow(z, q), Pow(a, q), Pow(a, (q + 1) / 2), m, p);
    nonResidue, odd, twos := z, q, s;
    CongMod(Pow(z, q), p);
    CongMod(Pow(a, (q + 1) / 2), p);
    AlongStart(a, c, r, z, q, s, p);
  }

  lemma TonelliReduce(a: int, c: int, t: int, r: int, m: nat, p: nat)
    requires p > 0 && Tonelli(a, c, t, r, m, p)
    ensures Tonelli(a, c % p, t % p, r % p, m, p)
  {
    CongMod(c, p);
    CongMod(t, p);
    CongMod(r, p);
    TonelliCong(a, c, c % p, t, t % p, r, r % p, m, p);
  }

  lemma TonelliNext(a: int, c: nat, t: nat, r: nat, m: nat, i: nat, b: nat, p: nat)
    requires OddPrime(p) && Tonelli(a, c, t, r, m, p) && 1 <= i < m
    requires Cong(Pow(t, Pow(2, i)), 1, p) && !Cong(Pow(t, Pow(2, i - 1)), 1, p)
    requires b == Pow(c, Pow(2, m - i - 1)) % p
    ensures Tonelli(a, MulMod(b, b, p), MulMod(t, MulMod(b, b, p), p), MulMod(r, b, p), i, p)
  {
    CongMod(Pow(c, Pow(2, m - i - 1)), p);
    TonelliStep(a, c, t, r, m, i, b, p);
    var c' := MulMod(b, b, p);
    CongScale(t, c', b * b, p);
    CongTrans(MulMod(t, c', p), t * c', t * (b * b), p);
    TonelliCong(a, b * b, c', t * (b * b), MulMod(t, c', p), r * b, MulMod(r, b, p), i, p);
  }

  lemma TonelliNonzero(t: nat, m: nat, p: nat)
    requires OddPrime(p) && m >= 1 && Cong(Pow(t, Pow(2, m - 1)), 1, p)
    ensures t != 0
  {
    if t == 0 {
      assert Pow(t, Pow(2, m - 1)) == 0;
      CongSym(0, 1, p);
      SmallNonzero(1, p);
    }
  }

  lemma NotResidue(a: int, symbol: int, p: nat)
    requires OddPrime(p) && (symbol == 0 || symbol == -1)
    requires Cong(Pow(a, (p - 1) / 2), symbol, p) && (symbol == 0 <==> Cong(a, 0, p))
    ensures !NonzeroResidue(a, p)
  {
    if NonzeroResidue(a, p) {
      var x :| Cong(Times(x, x), a, p);
      ResidueIsOne(a, x, p);
      SignsDiffer(p);
      CongSym(Pow(a, (p - 1) / 2), 1, p);
      CongTrans(1, Pow(a, (p - 1) / 2), symbol, p);
    }
  }

  lemma IsResidue(a: int, r: int, p: nat)
    requires OddPrime(p) && !Cong(a, 0, p) && Cong(r * r, a, p)
    ensures NonzeroResidue(a, p)
  {
    assert Times(r, r) == r * r;
  }

  lemma QuarterRoot(a: int, r: int, p: nat)
    requires OddPrime(p) && p % 4 == 3 && Cong(Pow(a, (p - 1) / 2), 1, p)
    requires r == Pow(a, (p + 1) / 4) % p
    ensures Cong(r * r, a, p)
  {
    var k := (p + 1) / 4;
    CongMod(Pow(a, k), p);
    CongMul(r, Pow(a, k), r, Pow(a, k), p);
    PowAdd(a, k, k);
    assert k + k == (p - 1) / 2 + 1;
    CongScale(a, Pow(a, (p - 1) / 2), 1, p);
    CongTrans(r * r, a * Pow(a, (p - 1) / 2), a, p);
  }
}
