/** The algebra behind the number-theoretic transform, over the integers and modulo any m.
    Fft is the recursive radix-2 transform: no assumption on the twiddle w is built into it. */
module Transform {
  import opened Arith

  ghost predicate VCong(a: seq<int>, b: seq<int>, m: int)
  {
    |a| == |b| && forall i :: 0 <= i < |a| ==> Cong(a[i], b[i], m)
  }

  function Evens(x: seq<int>): (y: seq<int>)
    requires |x| % 2 == 0
    ensures |y| == |x| / 2 && forall i :: 0 <= i < |y| ==> y[i] == x[2 * i]
  {
    seq(|x| / 2, i requires 0 <= i < |x| / 2 => x[2 * i])
  }

  function Odds(x: seq<int>): (y: seq<int>)
    requires |x| % 2 == 0
    ensures |y| == |x| / 2 && forall i :: 0 <= i < |y| ==> y[i] == x[2 * i + 1]
  {
    seq(|x| / 2, i requires 0 <= i < |x| / 2 => x[2 * i + 1])
  }

  function Scale(c: int, x: seq<int>): (y: seq<int>)
    ensures |y| == |x| && forall i :: 0 <= i < |y| ==> y[i] == c * x[i]
  {
    seq(|x|, i requires 0 <= i < |x| => c * x[i])
  }

  function Sum(x: seq<int>, y: seq<int>): (z: seq<int>)
    requires |x| == |y|
    ensures |z| == |x| && forall i :: 0 <= i < |z| ==> z[i] == x[i] + y[i]
  {
    seq(|x|, i requires 0 <= i < |x| => x[i] + y[i])
  }

  /** w^i (x[i] - y[i]) */
  function Twist(x: seq<int>, y: seq<int>, w: int): (z: seq<int>)
    requires |x| == |y|
    ensures |z| == |x|
  {
    seq(|x|, i requires 0 <= i < |x| => Pow(w, i) * (x[i] - y[i]))
  }

  /** One output of a butterfly layer: e[i] + w^i o[i] in the lower half, e[i] - w^i o[i] in the upper half. */
  function ButterflyAt(e: seq<int>, o: seq<int>, w: int, i: nat): int
    requires |e| == |o| && i < 2 * |e|
  {
    if i < |e| then e[i] + Pow(w, i) * o[i] else e[i - |e|] - Pow(w, i - |e|) * o[i - |e|]
  }

  function Butterfly(e: seq<int>, o: seq<int>, w: int): (y: seq<int>)
    requires |e| == |o|
    ensures |y| == 2 * |e| && forall i :: 0 <= i < |y| ==> y[i] == ButterflyAt(e, o, w, i)
  {
    seq(2 * |e|, i requires 0 <= i < 2 * |e| => ButterflyAt(e, o, w, i))
  }

  /** Decimation in time. */
  function Fft(x: seq<int>, w: int, l: nat): (y: seq<int>)
    requires |x| == Pow(2, l)
    ensures |y| == |x|
    decreases l
  {
    if l == 0 then x
    else Butterfly(Fft(Evens(x), w * w, l - 1), Fft(Odds(x), w * w, l - 1), w)
  }

  // ── The transform is linear and respects congruence ──────────────

  lemma {:induction false} FftScale(c: int, x: seq<int>, w: int, l: nat)
    requires |x| == Pow(2, l)
    ensures Fft(Scale(c, x), w, l) == Scale(c, Fft(x, w, l))
    decreases l
  {
    if l > 0 {
      assert Evens(Scale(c, x)) == Scale(c, Evens(x));
      assert Odds(Scale(c, x)) == Scale(c, Odds(x));
      FftScale(c, Evens(x), w * w, l - 1);
      FftScale(c, Odds(x), w * w, l - 1);
      ButterflyScale(c, Fft(Evens(x), w * w, l - 1), Fft(Odds(x), w * w, l - 1), w);
    }
  }

  lemma ButterflyScale(c: int, e: seq<int>, o: seq<int>, w: int)
    requires |e| == |o|
    ensures Butterfly(Scale(c, e), Scale(c, o), w) == Scale(c, Butterfly(e, o, w))
  {
    hide Pow, Butterfly, Scale;
    var a, b := Butterfly(Scale(c, e), Scale(c, o), w), Scale(c, Butterfly(e, o, w));
    forall i | 0 <= i < |a| ensures a[i] == b[i] {
      var k := if i < |e| then i else i - |e|;
      Distribute(c, e[k], Pow(w, k), o[k]);
    }
  }

  lemma Distribute(c: int, e: int, t: int, o: int)
    ensures c * (e + t * o) == c * e + t * (c * o)
    ensures c * (e - t * o) == c * e - t * (c * o)
  {}

  lemma {:induction false} FftCong(x: seq<int>, y: seq<int>, w: int, v: int, l: nat, m: int)
    requires |x| == Pow(2, l) && VCong(x, y, m) && Cong(w, v, m)
    ensures VCong(Fft(x, w, l), Fft(y, v, l), m)
    decreases l
  {
    if l > 0 {
      CongMul(w, v, w, v, m);
      FftCong(Evens(x), Evens(y), w * w, v * v, l - 1, m);
      FftCong(Odds(x), Odds(y), w * w, v * v, l - 1, m);
      ButterflyCong(Fft(Evens(x), w * w, l - 1), Fft(Evens(y), v * v, l - 1),
                    Fft(Odds(x), w * w, l - 1), Fft(Odds(y), v * v, l - 1), w, v, m);
    }
  }

  lemma ButterflyCong(e: seq<int>, e': seq<int>, o: seq<int>, o': seq<int>, w: int, v: int, m: int)
    requires |e| == |o| && VCong(e, e', m) && VCong(o, o', m) && Cong(w, v, m)
    ensures VCong(Butterfly(e, o, w), Butterfly(e', o', v), m)
  {
    var a, b := Butterfly(e, o, w), Butterfly(e', o', v);
    forall i | 0 <= i < |a| ensures Cong(a[i], b[i], m) {
      var k := if i < |e| then i else i - |e|;
      TermCong(e[k], e'[k], o[k], o'[k], w, v, k, m);
    }
  }

  lemma TermCong(e: int, e': int, o: int, o': int, w: int, v: int, k: nat, m: int)
    requires Cong(e, e', m) && Cong(o, o', m) && Cong(w, v, m)
    ensures Cong(e + Pow(w, k) * o, e' + Pow(v, k) * o', m)
    ensures Cong(e - Pow(w, k) * o, e' - Pow(v, k) * o', m)
  {
    hide Pow, Cong;
    CongPow(w, v, k, m);
    CongMul(Pow(w, k), Pow(v, k), o, o', m);
    CongAdd(e, e', Pow(w, k) * o, Pow(v, k) * o', m);
  }

  lemma VCongTrans(a: seq<int>, b: seq<int>, c: seq<int>, m: int)
    requires VCong(a, b, m) && VCong(b, c, m)
    ensures VCong(a, c, m)
  {
    forall i | 0 <= i < |a| ensures Cong(a[i], c[i], m) {
      CongTrans(a[i], b[i], c[i], m);
    }
  }

  lemma VCongSym(a: seq<int>, b: seq<int>, m: int)
    requires VCong(a, b, m)
    ensures VCong(b, a, m)
  {
    forall i | 0 <= i < |b| ensures Cong(b[i], a[i], m) { CongSym(a[i], b[i], m); }
  }

  lemma VCongRefl(a: seq<int>, m: int)
    ensures VCong(a, a, m)
  {
    forall i | 0 <= i < |a| ensures Cong(a[i], a[i], m) { CongRefl(a[i], m); }
  }

  // ── Decimation in frequency: the same transform read from its output side ──

  lemma PowSquare(w: int, i: nat)
    ensures Pow(w * w, i) == Pow(w, 2 * i)
    ensures w * Pow(w * w, i) == Pow(w, 2 * i + 1)
  {
    PowProduct(w, w, i);
    PowAdd(w, i, i);
  }

  lemma EvensOfButterfly(e: seq<int>, o: seq<int>, w: int)
    requires |e| == |o| && |e| % 2 == 0
    ensures Evens(Butterfly(e, o, w)) == Butterfly(Evens(e), Evens(o), w * w)
  {
    hide *;
    var a, b := Evens(Butterfly(e, o, w)), Butterfly(Evens(e), Evens(o), w * w);
    forall i | 0 <= i < |a| ensures a[i] == b[i] { EvenAt(e, o, w, i); }
  }

  lemma EvenAt(e: seq<int>, o: seq<int>, w: int, i: nat)
    requires |e| == |o| && |e| % 2 == 0 && i < |e|
    ensures ButterflyAt(e, o, w, 2 * i) == ButterflyAt(Evens(e), Evens(o), w * w, i)
  {
    hide Pow, Evens;
    var h := |e| / 2;
    PowSquare(w, if i < h then i else i - h);
  }

  lemma OddsOfButterfly(e: seq<int>, o: seq<int>, w: int)
    requires |e| == |o| && |e| % 2 == 0
    ensures Odds(Butterfly(e, o, w)) == Butterfly(Odds(e), Scale(w, Odds(o)), w * w)
  {
    hide *;
    var a, b := Odds(Butterfly(e, o, w)), Butterfly(Odds(e), Scale(w, Odds(o)), w * w);
    forall i | 0 <= i < |a| ensures a[i] == b[i] { OddAt(e, o, w, i); }
  }

  lemma OddAt(e: seq<int>, o: seq<int>, w: int, i: nat)
    requires |e| == |o| && |e| % 2 == 0 && i < |e|
    ensures ButterflyAt(e, o, w, 2 * i + 1) == ButterflyAt(Odds(e), Scale(w, Odds(o)), w * w, i)
  {
    hide Pow, Odds, Scale;
    var h := |e| / 2;
    var k := if i < h then i else i - h;
    PowSquare(w, k);
    MulShuffle(Pow(w * w, k), w, o[2 * k + 1]);
  }

  lemma MulShuffle(a: int, b: int, c: int)
    ensures a * (b * c) == b * a * c
  {}

  lemma SumHalves(x: seq<int>, q: nat)
    requires |x| == 4 * q
    ensures Evens(Sum(x[..2 * q], x[2 * q..])) == Sum(Evens(x)[..q], Evens(x)[q..])
    ensures Odds(Sum(x[..2 * q], x[2 * q..])) == Sum(Odds(x)[..q], Odds(x)[q..])
  {
    hide *;
    var s, e, o := Sum(x[..2 * q], x[2 * q..]), Evens(x), Odds(x);
    forall i | 0 <= i < q
      ensures s[2 * i] == Sum(e[..q], e[q..])[i] && s[2 * i + 1] == Sum(o[..q], o[q..])[i]
    {
      assert e[q..][i] == e[q + i] && o[q..][i] == o[q + i];
    }
  }

  lemma TwistEvens(x: seq<int>, w: int, q: nat)
    requires |x| == 4 * q
    ensures Evens(Twist(x[..2 * q], x[2 * q..], w)) == Twist(Evens(x)[..q], Evens(x)[q..], w * w)
  {
    var t, u := Twist(x[..2 * q], x[2 * q..], w), Twist(Evens(x)[..q], Evens(x)[q..], w * w);
    forall i | 0 <= i < q ensures t[2 * i] == u[i] {
      TwistAt(x, w, q, i);
    }
  }

  lemma TwistOdds(x: seq<int>, w: int, q: nat)
    requires |x| == 4 * q
    ensures Odds(Twist(x[..2 * q], x[2 * q..], w)) == Scale(w, Twist(Odds(x)[..q], Odds(x)[q..], w * w))
  {
    var t, u := Twist(x[..2 * q], x[2 * q..], w), Scale(w, Twist(Odds(x)[..q], Odds(x)[q..], w * w));
    forall i | 0 <= i < q ensures t[2 * i + 1] == u[i] {
      TwistAt(x, w, q, i);
    }
  }

  lemma TwistAt(x: seq<int>, w: int, q: nat, i: nat)
    requires |x| == 4 * q && i < q
    ensures Twist(x[..2 * q], x[2 * q..], w)[2 * i] == Twist(Evens(x)[..q], Evens(x)[q..], w * w)[i]
    ensures Twist(x[..2 * q], x[2 * q..], w)[2 * i + 1]
         == Scale(w, Twist(Odds(x)[..q], Odds(x)[q..], w * w))[i]
  {
    hide Pow, Evens, Odds, Twist, Scale;
    var lo, hi, e, o := x[..2 * q], x[2 * q..], Evens(x), Odds(x);
    var d, d' := lo[2 * i] - hi[2 * i], lo[2 * i + 1] - hi[2 * i + 1];
    assert d == e[..q][i] - e[q..][i] && d' == o[..q][i] - o[q..][i];
    TwistIndex(lo, hi, w, 2 * i, d);
    TwistIndex(lo, hi, w, 2 * i + 1, d');
    TwistIndex(e[..q], e[q..], w * w, i, d);
    TwistIndex(o[..q], o[q..], w * w, i, d');
    PowSquare(w, i);
    TwistOddAt(d', w, i);
  }

  lemma TwistIndex(x: seq<int>, y: seq<int>, w: int, i: nat, d: int)
    requires |x| == |y| && i < |x| && d == x[i] - y[i]
    ensures Twist(x, y, w)[i] == Pow(w, i) * d
  {}

  lemma TwistOddAt(d: int, w: int, i: nat)
    ensures Pow(w, 2 * i + 1) * d == w * (Pow(w * w, i) * d)
  {
    PowSquare(w, i);
    MulAssoc(w, Pow(w * w, i), d);
  }

  /** The even-indexed outputs transform lo + hi, the odd-indexed ones the twisted difference: true for every w. */
  lemma {:induction false} DecimationInFrequency(x: seq<int>, w: int, l: nat)
    requires l > 0 && |x| == Pow(2, l)
    ensures var h := Pow(2, l - 1);
            && Evens(Fft(x, w, l)) == Fft(Sum(x[..h], x[h..]), w * w, l - 1)
            && Odds(Fft(x, w, l)) == Fft(Twist(x[..h], x[h..], w), w * w, l - 1)
    decreases l
  {
    var h, v := Pow(2, l - 1), w * w;
    if l == 1 {
      DifBase(x, w);
    } else {
      var e, o := Fft(Evens(x), v, l - 1), Fft(Odds(x), v, l - 1);
      DecimationInFrequency(Evens(x), v, l - 1);
      DecimationInFrequency(Odds(x), v, l - 1);
      EvensOfButterfly(e, o, w);
      OddsOfButterfly(e, o, w);
      var q := Pow(2, l - 2);
      SumHalves(x, q);
      TwistEvens(x, w, q);
      TwistOdds(x, w, q);
      FftScale(w, Twist(Odds(x)[..q], Odds(x)[q..], v), v * v, l - 2);
    }
  }

  lemma DifBase(x: seq<int>, w: int)
    requires |x| == 2
    ensures Pow(2, 1) == 2 && Pow(2, 0) == 1
    ensures Evens(Fft(x, w, 1)) == Fft(Sum(x[..1], x[1..]), w * w, 0)
    ensures Odds(Fft(x, w, 1)) == Fft(Twist(x[..1], x[1..], w), w * w, 0)
  {
    assert Pow(2, 0) == 1 && Pow(w, 0) == 1;
    assert Fft(Evens(x), w * w, 0) == [x[0]] && Fft(Odds(x), w * w, 0) == [x[1]];
    var y := Fft(x, w, 1);
    assert y == Butterfly([x[0]], [x[1]], w);
    assert y[0] == x[0] + x[1] && y[1] == x[0] - x[1];
  }

  /** Transforming with w and then with an inverse of w multiplies by the size. w need not be a root of unity. */
  lemma {:induction false} RoundTrip(x: seq<int>, w: int, w': int, l: nat, m: int)
    requires |x| == Pow(2, l) && Cong(w * w', 1, m)
    ensures VCong(Fft(Fft(x, w, l), w', l), Scale(Pow(2, l), x), m)
    decreases l
  {
    if l == 0 {
      VCongRefl(x, m);
    } else {
      var h := Pow(2, l - 1);
      var lo, hi := x[..h], x[h..];
      var s, t := Sum(lo, hi), Twist(lo, hi, w);
      DecimationInFrequency(x, w, l);
      InverseSquares(w, w', m);
      RoundTrip(s, w * w, w' * w', l - 1, m);
      RoundTrip(t, w * w, w' * w', l - 1, m);
      var e, o := Fft(Fft(s, w * w, l - 1), w' * w', l - 1), Fft(Fft(t, w * w, l - 1), w' * w', l - 1);
      var y := Fft(Fft(x, w, l), w', l);
      assert y == Butterfly(e, o, w');
      CongRefl(w', m);
      ButterflyCong(e, Scale(h, s), o, Scale(h, t), w', w', m);
      Recombine(x, w, w', h, m);
      VCongTrans(y, Butterfly(Scale(h, s), Scale(h, t), w'), Scale(2 * h, x), m);
    }
  }

  lemma InverseSquares(w: int, w': int, m: int)
    requires Cong(w * w', 1, m)
    ensures Cong((w * w) * (w' * w'), 1, m)
  {
    hide Cong;
    CongMul(w * w', 1, w * w', 1, m);
    MulSwap(w, w, w', w');
  }

  lemma InversePowers(w: int, w': int, i: nat, m: int)
    requires Cong(w * w', 1, m)
    ensures Cong(Pow(w', i) * Pow(w, i), 1, m)
  {
    hide *;
    CongPow(w * w', 1, i, m);
    PowOne(i);
    PowProduct(w, w', i);
    MulCommutes(Pow(w, i), Pow(w', i));
  }

  lemma MulCommutes(a: int, b: int)
    ensures a * b == b * a
  {}

  lemma Recombine(x: seq<int>, w: int, w': int, h: nat, m: int)
    requires |x| == 2 * h && Cong(w * w', 1, m)
    ensures VCong(Butterfly(Scale(h, Sum(x[..h], x[h..])), Scale(h, Twist(x[..h], x[h..], w)), w'),
                  Scale(2 * h, x), m)
  {
    hide Butterfly;
    var e, o := Scale(h, Sum(x[..h], x[h..])), Scale(h, Twist(x[..h], x[h..], w));
    var a, b := Butterfly(e, o, w'), Scale(2 * h, x);
    forall i | 0 <= i < |a| ensures Cong(a[i], b[i], m) {
      var k := if i < h then i else i - h;
      InversePowers(w, w', k, m);
      Untwist(h, x[k], x[k + h], Pow(w, k), Pow(w', k), m);
      assert a[i] == ButterflyAt(e, o, w', i);
      assert e[k] == h * (x[k] + x[k + h]) && o[k] == h * (Pow(w, k) * (x[k] - x[k + h]));
    }
  }

  lemma Untwist(h: int, u: int, v: int, p: int, p': int, m: int)
    requires Cong(p' * p, 1, m)
    ensures Cong(h * (u + v) + p' * (h * (p * (u - v))), 2 * h * u, m)
    ensures Cong(h * (u + v) - p' * (h * (p * (u - v))), 2 * h * v, m)
  {
    hide Cong;
    var d := h * (u - v);
    CongScale(d, p' * p, 1, m);
    Regroup(p', h, p, u - v);
    CongRefl(h * (u + v), m);
    CongAdd(h * (u + v), h * (u + v), d * (p' * p), d * 1, m);
    assert h * (u + v) + h * (u - v) == 2 * h * u;
    assert h * (u + v) - h * (u - v) == 2 * h * v;
  }

  lemma Regroup(a: int, b: int, c: int, d: int)
    ensures a * (b * (c * d)) == b * d * (a * c)
  {}

  // ── What the transform computes when w^(n/2) = -1: polynomial values ──

  /** The value at z of the polynomial with coefficients x, lowest degree first. */
  function Eval(x: seq<int>, z: int): int
  {
    if |x| == 0 then 0 else x[0] + z * Eval(x[1..], z)
  }

  lemma {:induction false} EvalSplit(x: seq<int>, z: int)
    requires |x| % 2 == 0
    ensures Eval(x, z) == Eval(Evens(x), z * z) + z * Eval(Odds(x), z * z)
    decreases |x|
  {
    if |x| > 0 {
      var y, e, o := x[2..], Evens(x), Odds(x);
      EvalSplit(y, z);
      assert x[1..][1..] == y;
      assert e[1..] == Evens(y) && o[1..] == Odds(y);
      HornerStep(x[0], x[1], z, Eval(Evens(y), z * z), Eval(Odds(y), z * z));
    }
  }

  lemma HornerStep(a: int, b: int, z: int, e: int, o: int)
    ensures a + z * (b + z * (e + z * o)) == a + z * z * e + z * (b + z * z * o)
  {}

  lemma {:induction false} EvalCong(x: seq<int>, y: seq<int>, z: int, v: int, m: int)
    requires VCong(x, y, m) && Cong(z, v, m)
    ensures Cong(Eval(x, z), Eval(y, v), m)
    decreases |x|
  {
    if |x| == 0 {
      CongRefl(0, m);
    } else {
      EvalCong(x[1..], y[1..], z, v, m);
      CongMul(z, v, Eval(x[1..], z), Eval(y[1..], v), m);
      CongAdd(x[0], y[0], z * Eval(x[1..], z), v * Eval(y[1..], v), m);
    }
  }

  /** w^(n/2) = -1 modulo m; for n = 1 there is nothing to ask. */
  ghost predicate HalfTurn(w: int, l: nat, m: int)
  {
    l > 0 ==> Cong(Pow(w, Pow(2, l - 1)), -1, m)
  }

  /** Output k is the polynomial's value at w^k. */
  ghost predicate EvaluatesAtPowers(y: seq<int>, x: seq<int>, w: int, m: int)
  {
    |y| == |x| && forall k :: 0 <= k < |y| ==> Cong(y[k], Eval(x, Pow(w, k)), m)
  }

  lemma {:induction false} TransformEvaluates(x: seq<int>, w: int, l: nat, m: int)
    requires |x| == Pow(2, l) && HalfTurn(w, l, m)
    ensures EvaluatesAtPowers(Fft(x, w, l), x, w, m)
    decreases l
  {
    var y := Fft(x, w, l);
    if l == 0 {
      CongRefl(x[0], m);
      assert x[1..] == [];
      assert Eval(x, Pow(w, 0)) == x[0];
    } else {
      var h := Pow(2, l - 1);
      if l > 1 { PowSquare(w, Pow(2, l - 2)); }
      TransformEvaluates(Evens(x), w * w, l - 1, m);
      TransformEvaluates(Odds(x), w * w, l - 1, m);
      forall k | 0 <= k < |y| ensures Cong(y[k], Eval(x, Pow(w, k)), m) {
        OutputEvaluates(x, Fft(Evens(x), w * w, l - 1), Fft(Odds(x), w * w, l - 1), w, h, k, m);
      }
    }
  }

  lemma OutputEvaluates(x: seq<int>, e: seq<int>, o: seq<int>, w: int, h: nat, k: nat, m: int)
    requires |x| == 2 * h && |e| == |o| == h && k < 2 * h
    requires Cong(Pow(w, h), -1, m)
    requires EvaluatesAtPowers(e, Evens(x), w * w, m) && EvaluatesAtPowers(o, Odds(x), w * w, m)
    ensures Cong(ButterflyAt(e, o, w, k), Eval(x, Pow(w, k)), m)
  {
    var j := if k < h then k else k - h;
    var z := Pow(w, j);
    PowProduct(w, w, j);
    EvalHalves(x, e[j], o[j], z, m);
    if k >= h {
      assert Cong(e[j] - z * o[j], Eval(x, -z), m);
      CongRefl(z, m);
      PowAdd(w, h, j);
      CongMul(Pow(w, h), -1, z, z, m);
      CongSym(Pow(w, k), -z, m);
      VCongRefl(x, m);
      EvalCong(x, x, -z, Pow(w, k), m);
      CongTrans(e[j] - z * o[j], Eval(x, -z), Eval(x, Pow(w, k)), m);
    }
  }

  lemma EvalHalves(x: seq<int>, e: int, o: int, z: int, m: int)
    requires |x| % 2 == 0
    requires Cong(e, Eval(Evens(x), z * z), m) && Cong(o, Eval(Odds(x), z * z), m)
    ensures Cong(e + z * o, Eval(x, z), m)
    ensures Cong(e - z * o, Eval(x, -z), m)
  {
    var a, b := Eval(Evens(x), z * z), Eval(Odds(x), z * z);
    EvalSplit(x, z);
    EvalSplit(x, -z);
    assert (-z) * (-z) == z * z;
    CongScale(z, o, b, m);
    CongAdd(e, a, z * o, z * b, m);
    assert (-z) * b == -(z * b);
  }

  // ── and only then ────────────────────────────────────────────────

  function Unit(n: nat, j: nat): (x: seq<int>)
    ensures |x| == n
  {
    seq(n, i => if i == j then 1 else 0)
  }

  lemma {:induction false} FftZero(n: nat, w: int, l: nat)
    requires n == Pow(2, l)
    ensures Fft(Unit(n, n), w, l) == Unit(n, n)
    decreases l
  {
    if l > 0 {
      FftScale(0, Unit(n, n), w, l);
      assert Scale(0, Unit(n, n)) == Unit(n, n);
    }
  }

  lemma {:induction false} FftUnit0(n: nat, w: int, l: nat, k: nat)
    requires n == Pow(2, l) && k < n
    ensures Fft(Unit(n, 0), w, l)[k] == 1
    decreases l
  {
    if l > 0 {
      hide Fft, ButterflyAt, Unit;
      var h := n / 2;
      var j := if k < h then k else k - h;
      SplitUnit0(h);
      FftUnit0(h, w * w, l - 1, j);
      FftZero(h, w * w, l - 1);
      FftAt(Unit(n, 0), Unit(h, 0), Unit(h, h), w, l, k);
      NoOddPart(Fft(Unit(h, 0), w * w, l - 1), w, h, k);
    }
  }

  lemma NoOddPart(e: seq<int>, w: int, h: nat, k: nat)
    requires |e| == h && k < 2 * h
    ensures ButterflyAt(e, Unit(h, h), w, k) == e[if k < h then k else k - h]
  {
    hide Pow;
    assert Unit(h, h)[if k < h then k else k - h] == 0;
  }

  lemma SplitUnit0(h: nat)
    ensures Evens(Unit(2 * h, 0)) == Unit(h, 0) && Odds(Unit(2 * h, 0)) == Unit(h, h)
  {}

  lemma SplitUnit1(h: nat)
    ensures Evens(Unit(2 * h, 1)) == Unit(h, h) && Odds(Unit(2 * h, 1)) == Unit(h, 0)
  {}

  lemma FftAt(x: seq<int>, e: seq<int>, o: seq<int>, w: int, l: nat, k: nat)
    requires l > 0 && |x| == Pow(2, l) && |e| == |o| == Pow(2, l - 1) && k < |x|
    requires e == Evens(x) && o == Odds(x)
    ensures Fft(x, w, l)[k] == ButterflyAt(Fft(e, w * w, l - 1), Fft(o, w * w, l - 1), w, k)
  {}

  /** The response to the monomial of degree 1. */
  lemma FftUnit1(n: nat, w: int, l: nat, k: nat)
    requires l > 0 && n == Pow(2, l) && k < n
    ensures Fft(Unit(n, 1), w, l)[k] == if k < n / 2 then Pow(w, k) else -Pow(w, k - n / 2)
  {
    hide Fft;
    var h := n / 2;
    var j := if k < h then k else k - h;
    SplitUnit1(h);
    FftZero(h, w * w, l - 1);
    FftUnit0(h, w * w, l - 1, j);
    FftAt(Unit(n, 1), Unit(h, h), Unit(h, 0), w, l, k);
    assert Unit(h, h)[j] == 0;
  }

  lemma {:induction false} EvalZero(n: nat, z: int)
    ensures Eval(Unit(n, n), z) == 0
  {
    if n > 0 {
      assert Unit(n, n)[1..] == Unit(n - 1, n - 1);
      EvalZero(n - 1, z);
    }
  }

  lemma EvalUnit1(n: nat, z: int)
    requires n > 1
    ensures Eval(Unit(n, 1), z) == z
  {
    var x := Unit(n, 1);
    assert x[1..][1..] == Unit(n - 2, n - 2);
    EvalZero(n - 2, z);
  }

  /** Computing polynomial values for the single input x = X already forces w^(n/2) = -1. */
  lemma EvaluatesOnlyAtHalfTurn(w: int, l: nat, m: int)
    requires l > 0
    requires EvaluatesAtPowers(Fft(Unit(Pow(2, l), 1), w, l), Unit(Pow(2, l), 1), w, m)
    ensures HalfTurn(w, l, m)
  {
    var n := Pow(2, l);
    var h := Pow(2, l - 1);
    var y := Fft(Unit(n, 1), w, l);
    FftUnit1(n, w, l, h);
    EvalUnit1(n, Pow(w, h));
    assert Cong(y[h], Pow(w, h), m) && y[h] == -1;
    CongSym(y[h], Pow(w, h), m);
  }
}
