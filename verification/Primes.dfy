/** Arithmetic modulo a prime: inverses, Fermat's little theorem, and the bound on polynomial roots. */
module Primes {
  import opened Arith
  import opened Gcd
  import opened Transform

  ghost predicate IsPrime(p: int)
  {
    p >= 2 && forall d :: 1 < d < p ==> !Divides(d, p)
  }

  lemma HasInverse(a: int, p: int) returns (x: int)
    requires IsPrime(p) && !Cong(a, 0, p)
    ensures Cong(a * x, 1, p)
  {
    var b := a % p;
    CongMod(a, p);
    if b == 0 { assert false; }
    hide Cong, ExtendedGcd;
    var u, v := UnitCombination(b, p);
    x := u;
    CongRefl(u, p);
    CongMul(a, b, u, u, p);
    CongIntro(b * u, 1, -v, p);
    CongTrans(a * u, b * u, 1, p);
  }

  /** A number below a prime has no divisor in common with it. */
  lemma UnitCombination(b: int, p: int) returns (u: int, v: int)
    requires IsPrime(p) && 0 < b < p
    ensures b * u == 1 + (-v) * p
  {
    hide ExtendedGcd, Cong;
    var (g, x, y) := ExtendedGcd(b, p);
    Bezout(b, p);
    DivisorBound(g, b);
    assert g == 1;
    u, v := x, y;
    assert (-v) * p == -(p * v);
  }

  lemma DivisorBound(g: int, b: int)
    requires b > 0 && g >= 0 && Divides(g, b)
    ensures 1 <= g <= b
  {
    var k := CongFactor(b, 0, g);
    if g > b {
      if k >= 1 { MulMonotone(1, k, g); } else { MulMonotone(k, 0, g); }
    }
  }

  lemma Cancel(c: int, a: int, b: int, p: int)
    requires IsPrime(p) && !Cong(c, 0, p) && Cong(c * a, c * b, p)
    ensures Cong(a, b, p)
  {
    var i := HasInverse(c, p);
    CongScale(i, c * a, c * b, p);
    Undo(i, c, a, p);
    Undo(i, c, b, p);
    CongSym(i * (c * a), a, p);
    CongTrans(a, i * (c * a), i * (c * b), p);
    CongTrans(a, i * (c * b), b, p);
  }

  lemma Undo(i: int, c: int, a: int, p: int)
    requires Cong(c * i, 1, p)
    ensures Cong(i * (c * a), a, p)
  {
    CongScale(a, c * i, 1, p);
    assert a * (c * i) == i * (c * a) by { MulShuffle(a, c, i); MulAssoc(i, c, a); }
  }

  lemma NoZeroDivisors(a: int, b: int, p: int)
    requires IsPrime(p) && Cong(a * b, 0, p)
    ensures Cong(a, 0, p) || Cong(b, 0, p)
  {
    if !Cong(a, 0, p) {
      assert a * 0 == 0;
      Cancel(a, b, 0, p);
    }
  }

  lemma SmallNonzero(a: int, p: int)
    requires 0 < a < p
    ensures !Cong(a, 0, p)
  {
    if Cong(a, 0, p) { CongUnique(a, 0, p); }
  }

  /** The only square roots of 1 modulo a prime are 1 and -1. */
  lemma RootsOfOne(x: int, p: int)
    requires IsPrime(p) && Cong(x * x, 1, p)
    ensures Cong(x, 1, p) || Cong(x, -1, p)
  {
    CongRefl(-1, p);
    CongAdd(x * x, 1, -1, -1, p);
    assert (x - 1) * (x + 1) == x * x + -1;
    NoZeroDivisors(x - 1, x + 1, p);
    CongRefl(1, p);
    if Cong(x - 1, 0, p) { CongAdd(x - 1, 0, 1, 1, p); } else { CongAdd(x + 1, 0, 1, 1, p); }
  }

  // ── Fermat's little theorem ──────────────────────────────────────

  /** The product of the elements of s between 1 and n. */
  ghost function Product(s: set<int>, n: nat): int
  {
    if n == 0 then 1 else (if n in s then n else 1) * Product(s, n - 1)
  }

  function Factorial(n: nat): int
  {
    if n == 0 then 1 else n * Factorial(n - 1)
  }

  lemma {:induction false} ProductInsert(s: set<int>, y: int, n: nat)
    requires 0 < y && y !in s
    ensures Product(s + {y}, n) == (if y <= n then y else 1) * Product(s, n)
  {
    if n > 0 {
      ProductInsert(s, y, n - 1);
      if y < n { MulRotate(if n in s then n else 1, y, Product(s, n - 1)); }
    }
  }

  lemma MulRotate(x: int, y: int, z: int)
    ensures x * (y * z) == y * (x * z)
  {}

  lemma {:induction false} ProductAll(s: set<int>, n: nat)
    requires forall i :: 1 <= i <= n ==> i in s
    ensures Product(s, n) == Factorial(n)
  {
    if n > 0 { ProductAll(s, n - 1); }
  }

  /** The first k multiples of a, reduced. */
  ghost function Multiples(a: int, k: nat, p: int): set<int>
    requires p > 0
  {
    set i | 1 <= i <= k :: a * i % p
  }

  lemma NonzeroMultiple(a: int, i: int, p: int)
    requires IsPrime(p) && !Cong(a, 0, p) && 0 < i < p
    ensures 0 < a * i % p < p
  {
    SmallNonzero(i, p);
    CongMod(a * i, p);
    if a * i % p == 0 { NoZeroDivisors(a, i, p); }
  }

  lemma NewMultiple(a: int, k: nat, p: int)
    requires IsPrime(p) && !Cong(a, 0, p) && 0 < k < p
    ensures a * k % p !in Multiples(a, k - 1, p)
    ensures Multiples(a, k, p) == Multiples(a, k - 1, p) + {a * k % p}
  {
    forall i | 1 <= i < k ensures a * i % p != a * k % p {
      if a * i % p == a * k % p {
        ModToCong(a * i, a * k, p);
        Cancel(a, i, k, p);
        CongUnique(i, k, p);
      }
    }
  }

  /** Multiplication by a unit sends the first k residues to k different ones, with product a^k k!. */
  lemma {:induction false} MultiplesProduct(a: int, k: nat, p: int)
    requires IsPrime(p) && !Cong(a, 0, p) && k < p
    ensures |Multiples(a, k, p)| == k
    ensures Cong(Product(Multiples(a, k, p), p - 1), Pow(a, k) * Factorial(k), p)
  {
    if k == 0 {
      assert Multiples(a, 0, p) == {};
      EmptyProduct(p - 1);
      CongRefl(1, p);
    } else {
      var t, y := Multiples(a, k - 1, p), a * k % p;
      MultiplesProduct(a, k - 1, p);
      NewMultiple(a, k, p);
      NonzeroMultiple(a, k, p);
      ProductInsert(t, y, p - 1);
      CongMod(a * k, p);
      CongMul(y, a * k, Product(t, p - 1), Pow(a, k - 1) * Factorial(k - 1), p);
      MulSwap(a, k, Pow(a, k - 1), Factorial(k - 1));
    }
  }

  lemma {:induction false} EmptyProduct(n: nat)
    ensures Product({}, n) == 1
  {
    if n > 0 { EmptyProduct(n - 1); }
  }

  lemma {:induction false} FactorialUnit(n: nat, p: int)
    requires IsPrime(p) && n < p
    ensures !Cong(Factorial(n), 0, p)
  {
    if n == 0 {
      SmallNonzero(1, p);
    } else {
      FactorialUnit(n - 1, p);
      SmallNonzero(n, p);
      if Cong(n * Factorial(n - 1), 0, p) { NoZeroDivisors(n, Factorial(n - 1), p); }
    }
  }

  function Range(n: nat): (s: set<int>)
    ensures |s| == n && forall i :: i in s <==> 1 <= i <= n
  {
    if n == 0 then {} else Range(n - 1) + {n}
  }

  lemma Fermat(a: int, p: int)
    requires IsPrime(p) && !Cong(a, 0, p)
    ensures Cong(Pow(a, p - 1), 1, p)
  {
    var n := p - 1;
    var s, t, f := Range(n), Multiples(a, n, p), Factorial(n);
    MultiplesProduct(a, n, p);
    forall i | 1 <= i <= n ensures a * i % p in s { NonzeroMultiple(a, i, p); }
    SubsetSameSize(t, s);
    ProductAll(s, n);
    FactorialUnit(n, p);
    CongSym(f, Pow(a, n) * f, p);
    assert f * Pow(a, n) == Pow(a, n) * f;
    Cancel(f, Pow(a, n), 1, p);
  }

  lemma SubsetSameSize(t: set<int>, s: set<int>)
    requires t <= s && |t| == |s|
    ensures t == s
  {
    assert |s - t| == |s| - |t|;
    assert s == t + (s - t);
  }

  // ── A polynomial of degree n has at most n roots ─────────────────

  /** The quotient of f by (X - r). */
  function Quotient(f: seq<int>, r: int): (q: seq<int>)
    ensures |q| == (if |f| == 0 then 0 else |f| - 1)
    ensures |f| >= 2 ==> q[|q| - 1] == f[|f| - 1]
  {
    if |f| <= 1 then []
    else
      assert Eval(f[1..][1..], r) == 0 || |f| > 2;
      [Eval(f[1..], r)] + Quotient(f[1..], r)
  }

  lemma {:induction false} FactorTheorem(f: seq<int>, r: int, z: int)
    ensures Eval(f, z) - Eval(f, r) == (z - r) * Eval(Quotient(f, r), z)
  {
    if |f| == 1 {
      assert f[1..] == [];
    } else if |f| >= 2 {
      var g := f[1..];
      FactorTheorem(g, r, z);
      assert Quotient(f, r)[1..] == Quotient(g, r);
      FactorStep(z, r, Eval(g, z), Eval(g, r), Eval(Quotient(g, r), z));
    }
  }

  lemma FactorStep(z: int, r: int, gz: int, gr: int, q: int)
    requires gz - gr == (z - r) * q
    ensures z * gz - r * gr == (z - r) * (gr + z * q)
  {
    assert (z - r) * (z * q) == z * ((z - r) * q);
    assert (z - r) * gr == z * gr - r * gr;
    assert z * (gz - gr) == z * gz - z * gr;
  }

  lemma {:induction false} RootBound(f: seq<int>, s: seq<int>, p: int)
    requires IsPrime(p) && |f| > 0 && !Cong(f[|f| - 1], 0, p)
    requires forall i :: 0 <= i < |s| ==> 0 <= s[i] < p && Cong(Eval(f, s[i]), 0, p)
    requires forall i, j :: 0 <= i < j < |s| ==> s[i] != s[j]
    ensures |s| < |f|
    decreases |f|
  {
    if |s| > 0 {
      var r, t := s[0], s[1..];
      if |f| == 1 {
        ConstantHasNoRoot(f, r, p);
      } else {
        forall i | 0 <= i < |t| ensures Cong(Eval(Quotient(f, r), t[i]), 0, p) {
          OtherRoot(f, r, t[i], p);
        }
        RootBound(Quotient(f, r), t, p);
      }
    }
  }

  lemma ConstantHasNoRoot(f: seq<int>, r: int, p: int)
    requires |f| == 1 && !Cong(f[0], 0, p)
    ensures !Cong(Eval(f, r), 0, p)
  {
    assert f[1..] == [];
    assert Eval(f, r) == f[0];
  }

  lemma OtherRoot(f: seq<int>, r: int, z: int, p: int)
    requires IsPrime(p) && 0 <= r < p && 0 <= z < p && r != z
    requires Cong(Eval(f, r), 0, p) && Cong(Eval(f, z), 0, p)
    ensures Cong(Eval(Quotient(f, r), z), 0, p)
  {
    FactorTheorem(f, r, z);
    CongAdd(Eval(f, z), 0, Eval(f, r), 0, p);
    NoZeroDivisors(z - r, Eval(Quotient(f, r), z), p);
    if Cong(z - r, 0, p) {
      CongRefl(r, p);
      CongAdd(z - r, 0, r, r, p);
      CongUnique(z, r, p);
    }
  }

  /** X^n - 1 */
  function PowerMinusOne(n: nat): (f: seq<int>)
    requires n > 0
    ensures |f| == n + 1 && f[n] == 1
  {
    [-1] + seq(n - 1, _ => 0) + [1]
  }

  lemma {:induction false} EvalMonomial(k: nat, z: int)
    ensures Eval(seq(k, _ => 0) + [1], z) == Pow(z, k)
  {
    var f := seq(k, _ => 0) + [1];
    if k == 0 {
      assert f[1..] == [];
    } else {
      assert f[1..] == seq(k - 1, _ => 0) + [1];
      EvalMonomial(k - 1, z);
    }
  }

  /** Some residue's n-th power is not 1, whenever n is below p - 1. */
  lemma PowerNotAlwaysOne(n: nat, p: int) returns (z: int)
    requires IsPrime(p) && 0 < n < p - 1
    ensures 0 < z < p && !Cong(Pow(z, n), 1, p)
  {
    if forall x :: 0 < x < p ==> Cong(Pow(x, n), 1, p) {
      var f, s := PowerMinusOne(n), seq(p - 1, i => i + 1);
      SmallNonzero(1, p);
      forall i | 0 <= i < |s| ensures Cong(Eval(f, s[i]), 0, p) {
        RootOfPower(s[i], n, p);
      }
      RootBound(f, s, p);
      z := 1;
    } else {
      z :| 0 < z < p && !Cong(Pow(z, n), 1, p);
    }
  }

  lemma RootOfPower(r: int, n: nat, p: int)
    requires n > 0 && Cong(Pow(r, n), 1, p)
    ensures Cong(Eval(PowerMinusOne(n), r), 0, p)
  {
    assert PowerMinusOne(n)[1..] == seq(n - 1, _ => 0) + [1];
    EvalMonomial(n - 1, r);
    CongRefl(-1, p);
    CongAdd(Pow(r, n), 1, -1, -1, p);
  }
}
