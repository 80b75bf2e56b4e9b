/** Cyclic convolution and its relation to pointwise products of transforms. */
module Convolution {
  import opened Arith
  import opened Transform

  /** a[0] b[i] + a[1] b[i-1] + ... + a[j-1] b[i-j+1], indices of b taken modulo its length. */
  function ConvSum(a: seq<int>, b: seq<int>, i: int, j: nat): int
    requires |a| == |b| && j <= |a|
  {
    if j == 0 then 0 else ConvSum(a, b, i, j - 1) + a[j - 1] * b[(i - (j - 1)) % |b|]
  }

  /** The product of a and b as polynomials modulo X^n - 1. */
  function CyclicConvolution(a: seq<int>, b: seq<int>): (c: seq<int>)
    requires |a| == |b|
    ensures |c| == |a|
  {
    ConvPrefix(a, b, |a|)
  }

  function ConvPrefix(a: seq<int>, b: seq<int>, j: nat): (c: seq<int>)
    requires |a| == |b| && j <= |a|
    ensures |c| == |a|
  {
    seq(|a|, i => ConvSum(a, b, i, j))
  }

  function Pointwise(x: seq<int>, y: seq<int>): (z: seq<int>)
    requires |x| == |y|
    ensures |z| == |x| && forall i :: 0 <= i < |z| ==> z[i] == x[i] * y[i]
  {
    seq(|x|, i requires 0 <= i < |x| => x[i] * y[i])
  }

  /** b shifted up by j places, wrapping around. */
  function Rotate(b: seq<int>, j: nat): (c: seq<int>)
    requires |b| > 0
    ensures |c| == |b|
  {
    seq(|b|, i => b[(i - j) % |b|])
  }

  // ── Evaluation is linear, and shifting multiplies by z when z^n = 1 ──

  lemma {:induction false} EvalSum(x: seq<int>, y: seq<int>, z: int)
    requires |x| == |y|
    ensures Eval(Sum(x, y), z) == Eval(x, z) + Eval(y, z)
  {
    if |x| > 0 {
      EvalSum(x[1..], y[1..], z);
      assert Sum(x, y)[1..] == Sum(x[1..], y[1..]);
      Spread(z, Eval(x[1..], z), Eval(y[1..], z));
    }
  }

  lemma Spread(z: int, a: int, b: int)
    ensures z * (a + b) == z * a + z * b
  {}

  lemma {:induction false} EvalScale(c: int, x: seq<int>, z: int)
    ensures Eval(Scale(c, x), z) == c * Eval(x, z)
  {
    if |x| > 0 {
      EvalScale(c, x[1..], z);
      assert Scale(c, x)[1..] == Scale(c, x[1..]);
      Distribute(c, x[0], z, Eval(x[1..], z));
    }
  }

  lemma {:induction false} EvalAppend(x: seq<int>, c: int, z: int)
    ensures Eval(x + [c], z) == Eval(x, z) + c * Pow(z, |x|)
  {
    if |x| > 0 {
      EvalAppend(x[1..], c, z);
      assert (x + [c])[1..] == x[1..] + [c];
      AppendStep(z, Eval(x[1..], z), c, Pow(z, |x| - 1));
    } else {
      assert (x + [c])[1..] == [];
    }
  }

  lemma AppendStep(z: int, e: int, c: int, p: int)
    ensures z * (e + c * p) == z * e + c * (z * p)
  {}

  lemma EvalShift(s: seq<int>, c: int, z: int, m: int)
    requires Cong(Pow(z, |s| + 1), 1, m)
    ensures Cong(Eval([c] + s, z), z * Eval(s + [c], z), m)
  {
    EvalAppend(s, c, z);
    AppendStep(z, Eval(s, z), c, Pow(z, |s|));
    assert ([c] + s)[1..] == s;
    CongScale(c, Pow(z, |s| + 1), 1, m);
    CongSym(c * Pow(z, |s| + 1), c * 1, m);
    CongRefl(z * Eval(s, z), m);
    CongAdd(z * Eval(s, z), z * Eval(s, z), c, c * Pow(z, |s| + 1), m);
  }

  lemma WrapIndex(x: int, n: nat)
    requires n > 0
    ensures (x + n) % n == x % n
  {
    CongIntro(x + n, x, 1, n);
    CongToMod(x + n, x, n);
  }

  lemma RotateStep(b: seq<int>, j: nat)
    requires |b| > 0
    ensures var r := Rotate(b, j);
            Rotate(b, j + 1) == [r[|b| - 1]] + r[..|b| - 1]
  {
    WrapIndex(-1 - j, |b|);
  }

  lemma EvalRotateOnce(b: seq<int>, j: nat, z: int, m: int)
    requires |b| > 0 && Cong(Pow(z, |b|), 1, m)
    ensures Cong(Eval(Rotate(b, j + 1), z), z * Eval(Rotate(b, j), z), m)
  {
    hide *;
    var r := Rotate(b, j);
    RotatedLength(b, j);
    var s, c := r[..|b| - 1], r[|b| - 1];
    RotateStep(b, j);
    LastOff(r);
    EvalShift(s, c, z, m);
  }

  lemma RotatedLength(b: seq<int>, j: nat)
    requires |b| > 0
    ensures |Rotate(b, j)| == |b|
  {}

  lemma LastOff(r: seq<int>)
    requires |r| > 0
    ensures r[..|r| - 1] + [r[|r| - 1]] == r && |r[..|r| - 1]| + 1 == |r|
  {}

  lemma {:induction false} EvalRotate(b: seq<int>, j: nat, z: int, m: int)
    requires |b| > 0 && Cong(Pow(z, |b|), 1, m)
    ensures Cong(Eval(Rotate(b, j), z), Pow(z, j) * Eval(b, z), m)
  {
    hide Cong, Eval;
    if j == 0 {
      assert Rotate(b, 0) == b;
      CongRefl(Eval(b, z), m);
    } else {
      EvalRotate(b, j - 1, z, m);
      EvalRotateOnce(b, j - 1, z, m);
      Extend(Eval(Rotate(b, j), z), Eval(Rotate(b, j - 1), z), Pow(z, j - 1), Eval(b, z), z, m);
    }
  }

  lemma Extend(x: int, y: int, p: int, e: int, z: int, m: int)
    requires Cong(x, z * y, m) && Cong(y, p * e, m)
    ensures Cong(x, z * p * e, m)
  {
    CongScale(z, y, p * e, m);
    MulAssoc(z, p, e);
    CongTrans(x, z * y, z * (p * e), m);
  }

  lemma {:induction false} EvalConvPrefix(a: seq<int>, b: seq<int>, j: nat, z: int, m: int)
    requires 0 < |a| == |b| && j <= |a| && Cong(Pow(z, |b|), 1, m)
    ensures Cong(Eval(ConvPrefix(a, b, j), z), Eval(a[..j], z) * Eval(b, z), m)
  {
    hide Cong, Pow;
    if j == 0 {
      assert ConvPrefix(a, b, 0) == Scale(0, b);
      EvalScale(0, b, z);
      CongRefl(0, m);
    } else {
      var c := a[j - 1];
      var p, r := ConvPrefix(a, b, j - 1), Rotate(b, j - 1);
      assert ConvPrefix(a, b, j) == Sum(p, Scale(c, r));
      EvalSum(p, Scale(c, r), z);
      EvalScale(c, r, z);
      EvalConvPrefix(a, b, j - 1, z, m);
      EvalRotate(b, j - 1, z, m);
      assert a[..j] == a[..j - 1] + [c];
      EvalAppend(a[..j - 1], c, z);
      var e, t := Eval(b, z), Pow(z, j - 1);
      CongScale(c, Eval(r, z), t * e, m);
      CongAdd(Eval(p, z), Eval(a[..j - 1], z) * e, c * Eval(r, z), c * (t * e), m);
      FactorOut(Eval(a[..j - 1], z), c, t, e);
    }
  }

  lemma FactorOut(x: int, c: int, t: int, e: int)
    ensures x * e + c * (t * e) == (x + c * t) * e
  {}

  /** At an n-th root of unity the convolution's value is the product of the values. */
  lemma EvalConvolution(a: seq<int>, b: seq<int>, z: int, m: int)
    requires 0 < |a| == |b| && Cong(Pow(z, |b|), 1, m)
    ensures Cong(Eval(CyclicConvolution(a, b), z), Eval(a, z) * Eval(b, z), m)
  {
    EvalConvPrefix(a, b, |a|, z, m);
    assert a[..|a|] == a;
  }

  // ── Multiplying through the transform ────────────────────────────

  /** Transform both, multiply pointwise, transform back with w', scale by c. */
  function MulThrough(a: seq<int>, b: seq<int>, w: int, w': int, c: int, l: nat): (y: seq<int>)
    requires |a| == |b| == Pow(2, l)
    ensures |y| == |a|
  {
    Scale(c, Fft(Pointwise(Fft(a, w, l), Fft(b, w, l)), w', l))
  }

  ghost predicate InversePair(w: int, w': int, c: int, l: nat, m: int)
  {
    Cong(w * w', 1, m) && Cong(c * Pow(2, l), 1, m)
  }

  lemma ScaleCong(c: int, d: int, x: seq<int>, m: int)
    requires Cong(c * d, 1, m)
    ensures VCong(Scale(c, Scale(d, x)), x, m)
  {
    forall i | 0 <= i < |x| ensures Cong(Scale(c, Scale(d, x))[i], x[i], m) {
      CongMul(c * d, 1, x[i], x[i], m) by { CongRefl(x[i], m); }
      MulAssoc(c, d, x[i]);
    }
  }

  lemma VCongScale(c: int, x: seq<int>, y: seq<int>, m: int)
    requires VCong(x, y, m)
    ensures VCong(Scale(c, x), Scale(c, y), m)
  {
    forall i | 0 <= i < |x| ensures Cong(Scale(c, x)[i], Scale(c, y)[i], m) {
      CongScale(c, x[i], y[i], m);
    }
  }

  /** Inverse transform after forward transform is the identity. */
  lemma InverseAfterForward(x: seq<int>, w: int, w': int, c: int, l: nat, m: int)
    requires |x| == Pow(2, l) && InversePair(w, w', c, l, m)
    ensures VCong(Scale(c, Fft(Fft(x, w, l), w', l)), x, m)
  {
    RoundTrip(x, w, w', l, m);
    VCongScale(c, Fft(Fft(x, w, l), w', l), Scale(Pow(2, l), x), m);
    ScaleCong(c, Pow(2, l), x, m);
    VCongTrans(Scale(c, Fft(Fft(x, w, l), w', l)), Scale(c, Scale(Pow(2, l), x)), x, m);
  }

  lemma FullTurn(w: int, l: nat, k: nat, m: int)
    requires HalfTurn(w, l, m) && k < Pow(2, l)
    ensures Cong(Pow(Pow(w, k), Pow(2, l)), 1, m)
  {
    var n := Pow(2, l);
    if l == 0 {
      CongRefl(1, m);
    } else {
      var h := Pow(2, l - 1);
      PowAdd(w, h, h);
      CongMul(Pow(w, h), -1, Pow(w, h), -1, m);
      CongPow(Pow(w, n), 1, k, m);
      PowOne(k);
      PowPow(w, n, k);
      PowPow(w, k, n);
      assert n * k == k * n;
    }
  }

  lemma ProductOfValues(a: seq<int>, b: seq<int>, w: int, l: nat, m: int)
    requires |a| == |b| == Pow(2, l) && HalfTurn(w, l, m)
    ensures VCong(Pointwise(Fft(a, w, l), Fft(b, w, l)), Fft(CyclicConvolution(a, b), w, l), m)
  {
    var c := CyclicConvolution(a, b);
    var x, y, t := Fft(a, w, l), Fft(b, w, l), Fft(c, w, l);
    TransformEvaluates(a, w, l, m);
    TransformEvaluates(b, w, l, m);
    TransformEvaluates(c, w, l, m);
    forall k | 0 <= k < |x| ensures Cong(Pointwise(x, y)[k], t[k], m) {
      var z := Pow(w, k);
      FullTurn(w, l, k, m);
      EvalConvolution(a, b, z, m);
      CongMul(x[k], Eval(a, z), y[k], Eval(b, z), m);
      CongSym(Eval(c, z), Eval(a, z) * Eval(b, z), m);
      CongSym(t[k], Eval(c, z), m);
      CongTrans(x[k] * y[k], Eval(a, z) * Eval(b, z), Eval(c, z), m);
      CongTrans(x[k] * y[k], Eval(c, z), t[k], m);
    }
  }

  lemma MulThroughConvolves(a: seq<int>, b: seq<int>, w: int, w': int, c: int, l: nat, m: int)
    requires |a| == |b| == Pow(2, l) && InversePair(w, w', c, l, m) && HalfTurn(w, l, m)
    ensures VCong(MulThrough(a, b, w, w', c, l), CyclicConvolution(a, b), m)
  {
    var p, t := Pointwise(Fft(a, w, l), Fft(b, w, l)), Fft(CyclicConvolution(a, b), w, l);
    ProductOfValues(a, b, w, l, m);
    CongRefl(w', m);
    FftCong(p, t, w', w', l, m);
    VCongScale(c, Fft(p, w', l), Fft(t, w', l), m);
    InverseAfterForward(CyclicConvolution(a, b), w, w', c, l, m);
    VCongTrans(MulThrough(a, b, w, w', c, l), Scale(c, Fft(t, w', l)), CyclicConvolution(a, b), m);
  }

  // ── The converse: from size 4 on, correct products force w^(n/2) = -1 ──

  ghost predicate ConvolvesAll(w: int, w': int, c: int, l: nat, m: int)
  {
    forall a: seq<int>, b: seq<int> | |a| == |b| == Pow(2, l) ::
      VCong(MulThrough(a, b, w, w', c, l), CyclicConvolution(a, b), m)
  }

  /** If the product through the transform is the convolution, the transform is multiplicative. */
  lemma TransformMultiplies(a: seq<int>, b: seq<int>, w: int, w': int, c: int, l: nat, m: int)
    requires |a| == |b| == Pow(2, l) && InversePair(w, w', c, l, m)
    requires VCong(MulThrough(a, b, w, w', c, l), CyclicConvolution(a, b), m)
    ensures VCong(Fft(CyclicConvolution(a, b), w, l), Pointwise(Fft(a, w, l), Fft(b, w, l)), m)
  {
    var p, v := Pointwise(Fft(a, w, l), Fft(b, w, l)), CyclicConvolution(a, b);
    var q := Fft(p, w', l);
    CongRefl(w, m);
    VCongSym(Scale(c, q), v, m);
    FftCong(v, Scale(c, q), w, w, l, m);
    FftScale(c, q, w, l);
    assert w' * w == w * w';
    InverseAfterForward(p, w', w, c, l, m);
    VCongTrans(Fft(v, w, l), Scale(c, Fft(q, w, l)), p, m);
  }

  lemma {:induction false} ConvSumUnit(n: nat, b: seq<int>, i: int, j: nat)
    requires 1 < n == |b| && j <= n
    ensures ConvSum(Unit(n, 1), b, i, j) == if j < 2 then 0 else b[(i - 1) % n]
  {
    if j > 0 { ConvSumUnit(n, b, i, j - 1); }
  }

  lemma NextUnit(n: nat, j: nat)
    requires 1 < n && j + 1 < n
    ensures CyclicConvolution(Unit(n, 1), Unit(n, j)) == Unit(n, j + 1)
  {
    var u := CyclicConvolution(Unit(n, 1), Unit(n, j));
    forall i | 0 <= i < n ensures u[i] == Unit(n, j + 1)[i] {
      ConvSumUnit(n, Unit(n, j), i, n);
      PredecessorIndex(i, n);
    }
  }

  lemma PredecessorIndex(i: nat, n: nat)
    requires i < n
    ensures (i - 1) % n == if i == 0 then n - 1 else i - 1
  {
    if i == 0 { WrapIndex(-1, n); }
  }

  lemma {:induction false} FftUnitHalf(n: nat, w: int, l: nat)
    requires l > 0 && n == Pow(2, l)
    ensures n >= 2 && Fft(Unit(n, n / 2), w, l)[1] == -1
    decreases l
  {
    var h := n / 2;
    if l == 1 {
      FftUnit1(2, w, 1, 1);
    } else {
      FftUnitHalf(h, w * w, l - 1);
      FftZero(h, w * w, l - 1);
      assert Evens(Unit(n, h)) == Unit(h, h / 2) && Odds(Unit(n, h)) == Unit(h, h);
    }
  }

  lemma {:induction false} UnitsArePowers(w: int, w': int, c: int, l: nat, n: nat, j: nat, m: int)
    requires n == Pow(2, l) && 1 <= j < n && Fft(Unit(n, 1), w, l)[1] == w
    requires InversePair(w, w', c, l, m) && ConvolvesAll(w, w', c, l, m)
    ensures Cong(Fft(Unit(n, j), w, l)[1], Pow(w, j), m)
    decreases j
  {
    hide *;
    if j == 1 {
      FirstPower(w);
      CongRefl(w, m);
    } else {
      UnitsArePowers(w, w', c, l, n, j - 1, m);
      UnitStep(w, w', c, l, n, j, m);
      PowStep(Fft(Unit(n, j), w, l)[1], Fft(Unit(n, j - 1), w, l)[1], w, j, m);
    }
  }

  lemma FirstPower(w: int)
    ensures Pow(w, 1) == w
  {
    assert Pow(w, 0) == 1;
  }

  lemma PowStep(x: int, y: int, w: int, j: nat, m: int)
    requires j > 0 && Cong(x, w * y, m) && Cong(y, Pow(w, j - 1), m)
    ensures Cong(x, Pow(w, j), m)
  {
    CongScale(w, y, Pow(w, j - 1), m);
    CongTrans(x, w * y, Pow(w, j), m);
  }

  lemma FirstOutput(w: int, l: nat, n: nat)
    requires l >= 2 && n == Pow(2, l)
    ensures n >= 4 && Fft(Unit(n, 1), w, l)[1] == w
  {
    hide Fft, Unit;
    assert n == 4 * Pow(2, l - 2);
    FftUnit1(n, w, l, 1);
    FirstPower(w);
  }

  lemma UnitStep(w: int, w': int, c: int, l: nat, n: nat, j: nat, m: int)
    requires n == Pow(2, l) && 2 <= j < n && Fft(Unit(n, 1), w, l)[1] == w
    requires InversePair(w, w', c, l, m) && ConvolvesAll(w, w', c, l, m)
    ensures Cong(Fft(Unit(n, j), w, l)[1], w * Fft(Unit(n, j - 1), w, l)[1], m)
  {
    hide *;
    NextUnit(n, j - 1);
    ProductAt(Unit(n, 1), Unit(n, j - 1), Unit(n, j), w, w', c, l, 1, w, m);
  }

  lemma ProductAt(a: seq<int>, b: seq<int>, ab: seq<int>, w: int, w': int, c: int, l: nat, k: nat, x: int, m: int)
    requires |a| == |b| == Pow(2, l) && k < |a|
    requires ab == CyclicConvolution(a, b) && x == Fft(a, w, l)[k]
    requires InversePair(w, w', c, l, m) && ConvolvesAll(w, w', c, l, m)
    ensures Cong(Fft(ab, w, l)[k], x * Fft(b, w, l)[k], m)
  {
    TransformMultiplies(a, b, w, w', c, l, m);
    assert Pointwise(Fft(a, w, l), Fft(b, w, l))[k] == Fft(a, w, l)[k] * Fft(b, w, l)[k];
  }

  /** Multiplication through the transform is cyclic convolution for all inputs
      exactly when the size is at most 2 or w^(n/2) = -1. */
  lemma ConvolvesExactly(w: int, w': int, c: int, l: nat, m: int)
    requires InversePair(w, w', c, l, m)
    ensures ConvolvesAll(w, w', c, l, m) <==> (l <= 1 || HalfTurn(w, l, m))
  {
    hide Fft, Cong, VCong, MulThrough, CyclicConvolution, InversePair;
    if ConvolvesAll(w, w', c, l, m) && l >= 2 {
      var h := Pow(2, l - 1);
      FirstOutput(w, l, 2 * h);
      UnitsArePowers(w, w', c, l, 2 * h, h, m);
      FftUnitHalf(2 * h, w, l);
      CongSym(-1, Pow(w, h), m);
    }
    if l <= 1 || HalfTurn(w, l, m) {
      forall a: seq<int>, b: seq<int> | |a| == |b| == Pow(2, l)
        ensures VCong(MulThrough(a, b, w, w', c, l), CyclicConvolution(a, b), m)
      {
        if l <= 1 {
          SmallTransforms(a, b, w, w', c, l, m);
        } else {
          MulThroughConvolves(a, b, w, w', c, l, m);
        }
      }
    }
  }

  /** At sizes 1 and 2 no twiddle but w^0 is used, so -1 serves as well as w. */
  lemma SmallTransforms(a: seq<int>, b: seq<int>, w: int, w': int, c: int, l: nat, m: int)
    requires l <= 1 && |a| == |b| == Pow(2, l) && InversePair(w, w', c, l, m)
    ensures VCong(MulThrough(a, b, w, w', c, l), CyclicConvolution(a, b), m)
  {
    TwiddleFree(a, w, -1, l);
    TwiddleFree(b, w, -1, l);
    TwiddleFree(Pointwise(Fft(a, w, l), Fft(b, w, l)), w', -1, l);
    CongRefl(1, m);
    CongRefl(-1, m);
    assert Pow(-1, Pow(2, 0)) == -1;
    MulThroughConvolves(a, b, -1, -1, c, l, m);
  }

  lemma TwiddleFree(x: seq<int>, w: int, v: int, l: nat)
    requires l <= 1 && |x| == Pow(2, l)
    ensures Fft(x, w, l) == Fft(x, v, l)
  {
    if l == 1 {
      var y, z := Fft(x, w, 1), Fft(x, v, 1);
      DifBase(x, w);
      DifBase(x, v);
      forall i | 0 <= i < 2 ensures y[i] == z[i] { assert Pow(w, 0) == Pow(v, 0) == 1; }
    }
  }
}
