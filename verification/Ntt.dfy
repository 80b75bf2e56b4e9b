/** The number-theoretic transform over Montgomery representatives, in place. */
module Ntt {
  import opened Arith
  import opened Bits
  import opened Montgomery
  import opened Primes
  import opened RootOfUnity
  import opened Transform
  import opened Convolution

  // ── Bit reversal ─────────────────────────────────────────────────

  /** The low `bits` bits of x in reverse order. */
  function Rev(x: nat, bits: nat): nat
  {
    if bits == 0 then 0 else (if x % 2 == 1 then Pow(2, bits - 1) else 0) + Rev(x / 2, bits - 1)
  }

  method BitReverse(x: nat, bits: nat) returns (result: nat)
    requires bits <= 32
    ensures result == Rev(x, bits) && result < Pow(2, bits)
  {
    result := 0;
    var y := x;
    for i := 0 to bits
      invariant result < Pow(2, i)
      invariant Scaled(result, Pow(2, bits - i)) + Rev(y, bits - i) == Rev(x, bits)
    {
      MulAssoc(result, 2, Pow(2, bits - i - 1));
      ReverseStep(result, y % 2, Pow(2, bits - i - 1));
      result := 2 * result + y % 2;
      y := y / 2;
    }
  }

  lemma ReverseStep(r: nat, b: nat, p: nat)
    requires b < 2
    ensures (2 * r + b) * p == r * (2 * p) + (if b == 1 then p else 0)
  {}

  lemma {:induction false} RevBound(x: nat, bits: nat)
    ensures Rev(x, bits) < Pow(2, bits)
  {
    if bits > 0 { RevBound(x / 2, bits - 1); }
  }

  /** The top bit becomes the low bit. */
  lemma {:induction false} RevSplit(x: nat, bits: nat)
    requires bits > 0 && x < Pow(2, bits)
    ensures Rev(x, bits) == if x < Pow(2, bits - 1) then 2 * Rev(x, bits - 1)
                            else 2 * Rev(x - Pow(2, bits - 1), bits - 1) + 1
  {
    if bits > 1 {
      var h := Pow(2, bits - 1);
      RevSplit(x / 2, bits - 1);
      if x >= h { assert (x - h) / 2 == x / 2 - h / 2 && (x - h) % 2 == x % 2; }
    }
  }

  lemma {:induction false} RevInvolution(x: nat, bits: nat)
    requires x < Pow(2, bits)
    ensures Rev(x, bits) < Pow(2, bits) && Rev(Rev(x, bits), bits) == x
  {
    RevBound(x, bits);
    if bits > 0 {
      RevBound(x / 2, bits - 1);
      RevInvolution(x / 2, bits - 1);
      RevSplit(Rev(x, bits), bits);
    }
  }

  function Reversed<T>(x: seq<T>, bits: nat): (y: seq<T>)
    requires |x| == Pow(2, bits)
    ensures |y| == |x|
  {
    seq(|x|, i requires 0 <= i < |x| => RevBound(i, bits); x[Rev(i, bits)])
  }

  method BitReversePermutation<T>(data: array<T>, logN: nat)
    requires logN <= 28 && data.Length == Pow(2, logN)
    modifies data
    ensures data[..] == Reversed(old(data[..]), logN)
  {
    var n := data.Length;
    ghost var before := data[..];
    forall k | 0 <= k < n ensures Rev(k, logN) < n && Rev(Rev(k, logN), logN) == k {
      RevInvolution(k, logN);
    }
    for i := 0 to n
      invariant forall k {:trigger data[k]} :: 0 <= k < n ==>
        data[k] == before[if k < i || Rev(k, logN) < i then Rev(k, logN) else k]
    {
      var rev := BitReverse(i, logN);
      if i < rev {
        data[i], data[rev] := data[rev], data[i];
      }
    }
  }

  /** The transform of a sequence whose entries are already in bit-reversed order. */
  function Dit(b: seq<int>, w: int, l: nat): (y: seq<int>)
    requires |b| == Pow(2, l)
    ensures |y| == |b|
    decreases l
  {
    if l == 0 then b
    else
      var h := Pow(2, l - 1);
      Butterfly(Dit(b[..h], w * w, l - 1), Dit(b[h..], w * w, l - 1), w)
  }

  lemma {:induction false} DitOfReversed(x: seq<int>, w: int, l: nat)
    requires |x| == Pow(2, l)
    ensures Dit(Reversed(x, l), w, l) == Fft(x, w, l)
    decreases l
  {
    if l == 0 {
      assert Reversed(x, 0) == x;
    } else {
      var h := Pow(2, l - 1);
      ReversedHalves(x, l);
      DitOfReversed(Evens(x), w * w, l - 1);
      DitOfReversed(Odds(x), w * w, l - 1);
    }
  }

  lemma ReversedHalves(x: seq<int>, l: nat)
    requires l > 0 && |x| == Pow(2, l)
    ensures Reversed(x, l)[..Pow(2, l - 1)] == Reversed(Evens(x), l - 1)
    ensures Reversed(x, l)[Pow(2, l - 1)..] == Reversed(Odds(x), l - 1)
  {
    var h, y := Pow(2, l - 1), Reversed(x, l);
    forall i | 0 <= i < h
      ensures y[..h][i] == Reversed(Evens(x), l - 1)[i] && y[h..][i] == Reversed(Odds(x), l - 1)[i]
    {
      ReversedAt(x, l, h, i);
      assert y[..h][i] == y[i] && y[h..][i] == y[h + i];
    }
  }

  lemma ReversedAt(x: seq<int>, l: nat, h: nat, i: nat)
    requires l > 0 && |x| == Pow(2, l) && h == Pow(2, l - 1) && i < h
    ensures Reversed(x, l)[i] == Reversed(Evens(x), l - 1)[i]
    ensures Reversed(x, l)[h + i] == Reversed(Odds(x), l - 1)[i]
  {
    RevBound(i, l - 1);
    RevSplit(i, l);
    RevSplit(i + h, l);
  }

  // ── Butterfly stages ─────────────────────────────────────────────

  ghost function DecodeAll(a: seq<Fe>): (d: seq<int>)
    ensures |d| == |a| && forall i :: 0 <= i < |d| ==> d[i] == Decode(a[i])
  {
    seq(|a|, i requires 0 <= i < |a| => Decode(a[i]))
  }

  ghost predicate PowerTable(roots: seq<Fe>, w: int)
  {
    forall i :: 0 <= i < |roots| ==> Cong(Decode(roots[i]), Pow(w, i), P)
  }

  /** One butterfly over block [k, k + 2 len), with v = w^step the twiddle of this stage. */
  method ButterflyBlock(a: array<Fe>, k: nat, len: nat, roots: seq<Fe>, step: nat, ghost w: int)
    requires k + 2 * len <= a.Length && PowerTable(roots, w)
    requires forall j: nat :: j < len ==> Scaled(j, step) < |roots|
    modifies a
    ensures forall x :: 0 <= x < a.Length && !(k <= x < k + 2 * len) ==> a[x] == old(a[x])
    ensures VCong(DecodeAll(a[k..k + 2 * len]),
                  Butterfly(DecodeAll(old(a[k..k + len])), DecodeAll(old(a[k + len..k + 2 * len])), Pow(w, step)), P)
  {
    hide *;
    ghost var lo, hi := DecodeAll(a[k..k + len]), DecodeAll(a[k + len..k + 2 * len]);
    ghost var target := Butterfly(lo, hi, Pow(w, step));
    for j := 0 to len
      invariant forall x :: 0 <= x < a.Length && !(k <= x < k + j) && !(k + len <= x < k + len + j) ==>
        a[x] == old(a[x])
      invariant forall x :: k <= x < k + j ==> Crossed(a[x], target, x - k)
      invariant forall x :: k + len <= x < k + len + j ==> Crossed(a[x], target, x - k)
    {
      assert a[k..k + len][j] == a[k + j] && a[k + len..k + 2 * len][j] == a[k + j + len];
      CrossAt(a, k + j, k + j + len, roots, j, step, w, lo, hi, target);
      assert Crossed(a[k + j], target, j) && Crossed(a[k + j + len], target, j + len);
    }
    BlockCrossed(a[k..k + 2 * len], target);
  }

  ghost predicate Crossed(x: Fe, target: seq<int>, i: int)
  {
    0 <= i < |target| && Cong(Decode(x), target[i], P)
  }

  lemma BlockCrossed(v: seq<Fe>, target: seq<int>)
    requires |v| == |target| && forall i :: 0 <= i < |v| ==> Crossed(v[i], target, i)
    ensures VCong(DecodeAll(v), target, P)
  {
    forall i | 0 <= i < |v| ensures Cong(DecodeAll(v)[i], target[i], P) {
      assert Crossed(v[i], target, i);
    }
  }

  method CrossAt(a: array<Fe>, p: nat, q: nat, roots: seq<Fe>, j: nat, step: nat, ghost w: int,
                 ghost lo: seq<int>, ghost hi: seq<int>, ghost target: seq<int>)
    requires p < q < a.Length && PowerTable(roots, w) && Scaled(j, step) < |roots|
    requires j < |lo| == |hi| && lo[j] == Decode(a[p]) && hi[j] == Decode(a[q])
    requires target == Butterfly(lo, hi, Pow(w, step))
    modifies a
    ensures forall x :: 0 <= x < a.Length && x != p && x != q ==> a[x] == old(a[x])
    ensures Crossed(a[p], target, j) && Crossed(a[q], target, j + |lo|)
  {
    var twiddle := roots[Scaled(j, step)];
    TwiddlePower(roots, j, step, w);
    Cross(a, p, q, twiddle, Pow(Pow(w, step), j));
  }

  /** One butterfly: (u, t) becomes (u + z t, u - z t), where z is the twiddle's value. */
  method Cross(a: array<Fe>, p: nat, q: nat, twiddle: Fe, ghost z: int)
    requires p < q < a.Length && Cong(Decode(twiddle), z, P)
    modifies a
    ensures forall x :: 0 <= x < a.Length && x != p && x != q ==> a[x] == old(a[x])
    ensures Cong(Decode(a[p]), Decode(old(a[p])) + z * Decode(old(a[q])), P)
    ensures Cong(Decode(a[q]), Decode(old(a[p])) - z * Decode(old(a[q])), P)
  {
    hide *;
    var u := a[p];
    var t := MontMul(a[q], twiddle);
    ButterflyValues(Decode(u), Decode(a[q]), Decode(twiddle), z, Decode(t));
    var sum := MontAdd(u, t);
    var diff := MontSub(u, t);
    a[p] := sum;
    a[q] := diff;
  }

  lemma TwiddlePower(roots: seq<Fe>, j: nat, step: nat, w: int)
    requires PowerTable(roots, w) && Scaled(j, step) < |roots|
    ensures Cong(Decode(roots[Scaled(j, step)]), Pow(Pow(w, step), j), P)
  {
    PowPow(w, step, j);
    assert step * j == Scaled(j, step);
  }

  lemma PositiveModulus()
    ensures P > 0
  {}

  lemma ButterflyValues(u: int, h: nat, tw: nat, z: int, t: nat)
    requires Cong(tw, z, P) && t == h * tw % P
    ensures Cong((u + t) % P, u + z * h, P) && Cong((u - t) % P, u - z * h, P)
  {
    hide *;
    PositiveModulus();
    CongMod(h * tw, P);
    CongScale(h, tw, z, P);
    CongTrans(t, h * tw, h * z, P);
    MulCommutes(h, z);
    CongRefl(u, P);
    CongAdd(u, u, t, h * z, P);
    CongMod(u + t, P);
    CongMod(u - t, P);
    CongTrans((u + t) % P, u + t, u + h * z, P);
    CongTrans((u - t) % P, u - t, u - h * z, P);
  }

  /** Block [lo, lo + 2^s) of v holds the transform, with twiddle u, of the same block of b. */
  ghost predicate BlockDone(v: seq<int>, b: seq<int>, lo: nat, s: nat, u: int)
  {
    && lo + Pow(2, s) <= |v| == |b|
    && VCong(v[lo..lo + Pow(2, s)], Dit(b[lo..lo + Pow(2, s)], u, s), P)
  }

  /** Two finished blocks side by side and one butterfly make a finished block of twice the size. */
  lemma MergeBlocks(v: seq<int>, v': seq<int>, b: seq<int>, lo: nat, s: nat, u: int)
    requires BlockDone(v, b, lo, s, u * u) && BlockDone(v, b, lo + Pow(2, s), s, u * u)
    requires |v'| == |v| && lo + Pow(2, s + 1) <= |v|
    requires VCong(v'[lo..lo + Pow(2, s + 1)],
                   Butterfly(v[lo..lo + Pow(2, s)], v[lo + Pow(2, s)..lo + Pow(2, s + 1)], u), P)
    ensures BlockDone(v', b, lo, s + 1, u)
  {
    hide Butterfly, VCong;
    var h := Pow(2, s);
    var c := b[lo..lo + 2 * h];
    assert c[..h] == b[lo..lo + h] && c[h..] == b[lo + h..lo + 2 * h];
    var e, o := Dit(c[..h], u * u, s), Dit(c[h..], u * u, s);
    CongRefl(u, P);
    ButterflyCong(v[lo..lo + h], e, v[lo + h..lo + 2 * h], o, u, u, P);
    VCongTrans(v'[lo..lo + 2 * h], Butterfly(v[lo..lo + h], v[lo + h..lo + 2 * h], u), Butterfly(e, o, u), P);
  }

  lemma BlockUnchanged(v: seq<int>, v': seq<int>, b: seq<int>, lo: nat, s: nat, u: int)
    requires BlockDone(v, b, lo, s, u) && |v'| == |v|
    requires v'[lo..lo + Pow(2, s)] == v[lo..lo + Pow(2, s)]
    ensures BlockDone(v', b, lo, s, u)
  {
    hide VCong, Dit;
  }

  /** q * p, the start of block q among blocks of size p. */
  function Offset(q: nat, p: nat): nat
  {
    if q == 0 then 0 else Offset(q - 1, p) + p
  }

  lemma {:induction false} OffsetMonotone(r: nat, q: nat, p: nat)
    requires r < q
    ensures Offset(r, p) + p <= Offset(q, p)
    decreases q
  {
    if r < q - 1 { OffsetMonotone(r, q - 1, p); }
  }

  lemma {:induction false} OffsetDouble(q: nat, p: nat)
    ensures Offset(2 * q, p) == Offset(q, 2 * p)
    ensures Offset(2 * q + 1, p) == Offset(q, 2 * p) + p
  {
    if q > 0 {
      OffsetDouble(q - 1, p);
      assert Offset(2 * q, p) == Offset(2 * q - 2, p) + p + p;
    }
  }

  /** The blocks of size 2^s tile the whole. */
  lemma {:induction false} OffsetTotal(k: nat, s: nat)
    ensures Offset(Pow(2, k), Pow(2, s)) == Pow(2, k + s)
    decreases k
  {
    if k == 0 {
      assert Offset(1, Pow(2, s)) == Offset(0, Pow(2, s)) + Pow(2, s);
    } else {
      OffsetTotal(k - 1, s + 1);
      OffsetDouble(Pow(2, k - 1), Pow(2, s));
    }
  }

  /** Every block of size p = 2^s is finished. */
  ghost predicate StageDone(v: seq<int>, b: seq<int>, w: int, s: nat, p: nat, count: nat)
  {
    p == Pow(2, s) && forall q: nat :: q < count ==> BlockDone(v, b, Offset(q, p), s, Pow(w, count))
  }

  lemma TwiddleIndexFits(s: nat, l: nat, step: nat, len: nat)
    requires s < l && step == Pow(2, l - s - 1) && len == Pow(2, s)
    ensures forall j: nat :: j < len ==> Scaled(j, step) < Pow(2, l)
  {
    PowAdd(2, s, l - s - 1);
    forall j: nat | j < len ensures Scaled(j, step) < Pow(2, l) {
      MulMonotone(j, len, step);
    }
  }

  /** n / 2^(s+1), as the program computes the twiddle step. */
  lemma StepSize(s: nat, l: nat)
    requires s < l
    ensures Pow(2, l) / Pow(2, s + 1) == Pow(2, l - s - 1)
  {
    PowAdd(2, s + 1, l - s - 1);
    DivUnique(Pow(2, l), Pow(2, s + 1), Pow(2, l - s - 1), 0);
  }

  /** One block of one stage: two finished blocks of size len become one of size 2 len. */
  method BlockRound(a: array<Fe>, k: nat, len: nat, roots: seq<Fe>, step: nat, ghost s: nat,
                    ghost q: nat, ghost b: seq<int>, ghost w: int, ghost before: seq<int>)
    requires a.Length == |b| == |before| && len == Pow(2, s) && q < step && k == Offset(q, 2 * len)
    requires forall j: nat :: j < len ==> Scaled(j, step) < |roots|
    requires PowerTable(roots, w) && StageDone(before, b, w, s, len, 2 * step)
    requires k + 2 * len <= a.Length && DecodeAll(a[..])[k..] == before[k..]
    modifies a
    ensures forall x :: 0 <= x < a.Length && !(k <= x < k + 2 * len) ==> a[x] == old(a[x])
    ensures BlockDone(DecodeAll(a[..]), b, k, s + 1, Pow(w, step))
  {
    hide *;
    ghost var v := DecodeAll(a[..]);
    InputBlocks(v, before, b, w, s, len, step, q, k);
    DecodeSlice(a[..], k, k + len);
    DecodeSlice(a[..], k + len, k + 2 * len);
    assert a[..][k..k + len] == a[k..k + len] && a[..][k + len..k + 2 * len] == a[k + len..k + 2 * len];
    ButterflyBlock(a, k, len, roots, step, w);
    assert a[..][k..k + 2 * len] == a[k..k + 2 * len];
    DecodeSlice(a[..], k, k + 2 * len);
    Doubling(s);
    MergeBlocks(v, DecodeAll(a[..]), b, k, s, Pow(w, step));
  }

  lemma Doubling(s: nat)
    ensures Pow(2, s + 1) == 2 * Pow(2, s)
  {}

  lemma DecodeSlice(a: seq<Fe>, lo: nat, hi: nat)
    requires lo <= hi <= |a|
    ensures DecodeAll(a[lo..hi]) == DecodeAll(a)[lo..hi]
  {}

  lemma InputBlocks(v: seq<int>, before: seq<int>, b: seq<int>, w: int, s: nat, len: nat, step: nat, q: nat, k: nat)
    requires |v| == |before| && len == Pow(2, s) && q < step && k == Offset(q, 2 * len)
    requires StageDone(before, b, w, s, len, 2 * step)
    requires k + 2 * len <= |v| && v[k..] == before[k..]
    ensures BlockDone(v, b, k, s, Pow(w, step) * Pow(w, step))
    ensures BlockDone(v, b, k + len, s, Pow(w, step) * Pow(w, step))
  {
    hide *;
    OffsetDouble(q, len);
    StageBlock(before, b, w, s, len, 2 * step, 2 * q);
    StageBlock(before, b, w, s, len, 2 * step, 2 * q + 1);
    PowAdd(w, step, step);
    TailUnchanged(before, v, k, k, k + len);
    TailUnchanged(before, v, k, k + len, k + 2 * len);
    BlockUnchanged(before, v, b, k, s, Pow(w, 2 * step));
    BlockUnchanged(before, v, b, k + len, s, Pow(w, 2 * step));
  }

  lemma StageBlock(v: seq<int>, b: seq<int>, w: int, s: nat, p: nat, count: nat, q: nat)
    requires StageDone(v, b, w, s, p, count) && q < count
    ensures BlockDone(v, b, Offset(q, p), s, Pow(w, count))
  {}

  lemma TailUnchanged(v: seq<int>, v': seq<int>, k: nat, lo: nat, hi: nat)
    requires |v| == |v'| && k <= lo <= hi <= |v| && v[k..] == v'[k..]
    ensures v[lo..hi] == v'[lo..hi]
  {
    forall i | lo <= i < hi ensures v[i] == v'[i] {
      assert v[i] == v[k..][i - k] && v'[i] == v'[k..][i - k];
    }
  }

  /** All blocks of one stage. */
  method ButterflyStage(a: array<Fe>, roots: seq<Fe>, s: nat, l: nat, len: nat,
                        ghost b: seq<int>, ghost w: int)
    requires s < l <= 28 && a.Length == |roots| == |b| == Pow(2, l) && len == Pow(2, s)
    requires PowerTable(roots, w) && StageDone(DecodeAll(a[..]), b, w, s, len, Pow(2, l - s))
    modifies a
    ensures StageDone(DecodeAll(a[..]), b, w, s + 1, 2 * len, Pow(2, l - s - 1))
  {
    hide *;
    var n := a.Length;
    var step := 2 * len;
    Doubling(s);
    StepSize(s, l);
    var twiddleStep: nat := n / step;
    Doubling(l - s - 1);
    TwiddleIndexFits(s, l, twiddleStep, len);
    OffsetTotal(l - s - 1, s + 1);
    ghost var before := DecodeAll(a[..]);
    ghost var q: nat := 0;
    var k: nat := 0;
    StartProgress(before, b, s + 1, step, Pow(w, twiddleStep));
    while k < n
      invariant k == Offset(q, step) <= n && q <= twiddleStep
      invariant Progress(DecodeAll(a[..]), before, b, k, q, s + 1, step, Pow(w, twiddleStep))
      decreases n - k
    {
      OffsetNext(q, twiddleStep, step);
      ghost var v := DecodeAll(a[..]);
      ProgressTail(v, before, b, k, q, s + 1, step, Pow(w, twiddleStep));
      BlockRound(a, k, len, roots, twiddleStep, s, q, b, w, before);
      NextProgress(v, DecodeAll(a[..]), before, b, k, q, s + 1, step, Pow(w, twiddleStep));
      k := k + step;
      q := q + 1;
    }
    OffsetNext(q, twiddleStep, step);
    StageFinished(DecodeAll(a[..]), before, b, k, w, s + 1, step, twiddleStep);
  }

  lemma StartProgress(v: seq<int>, b: seq<int>, s: nat, p: nat, u: int)
    ensures Offset(0, p) == 0 && Progress(v, v, b, 0, 0, s, p, u)
  {}

  lemma ProgressTail(v: seq<int>, before: seq<int>, b: seq<int>, k: nat, q: nat, s: nat, p: nat, u: int)
    requires Progress(v, before, b, k, q, s, p, u)
    ensures k <= |v| == |before| && v[k..] == before[k..]
  {}

  lemma StageFinished(v: seq<int>, before: seq<int>, b: seq<int>, k: nat, w: int, s: nat, p: nat, count: nat)
    requires p == Pow(2, s) && Progress(v, before, b, k, count, s, p, Pow(w, count))
    ensures StageDone(v, b, w, s, p, count)
  {}

  lemma OffsetNext(q: nat, count: nat, p: nat)
    requires p > 0 && q <= count
    ensures Offset(q + 1, p) == Offset(q, p) + p
    ensures Offset(q, p) < Offset(count, p) <==> q < count
    ensures q < count ==> Offset(q, p) + p <= Offset(count, p)
  {
    if q < count { OffsetMonotone(q, count, p); }
  }

  /** The first q blocks are finished and everything from k on is as it was before the stage. */
  ghost predicate Progress(v: seq<int>, before: seq<int>, b: seq<int>, k: nat, q: nat, s: nat, p: nat, u: int)
  {
    && k <= |v| == |before| && v[k..] == before[k..]
    && forall r: nat :: r < q ==> BlockDone(v, b, Offset(r, p), s, u)
  }

  lemma NextProgress(v: seq<int>, v': seq<int>, before: seq<int>, b: seq<int>, k: nat, q: nat, s: nat, p: nat, u: int)
    requires Progress(v, before, b, k, q, s, p, u) && p == Pow(2, s) && k == Offset(q, p) && k + p <= |v|
    requires |v'| == |v| && (forall x :: 0 <= x < |v| && !(k <= x < k + p) ==> v'[x] == v[x])
    requires BlockDone(v', b, k, s, u)
    ensures Progress(v', before, b, k + p, q + 1, s, p, u)
  {
    FinishedBlocksKept(v, v', b, k, q, s, p, u);
    TailAfter(v, v', before, k, k + p);
  }

  lemma FinishedBlocksKept(v: seq<int>, v': seq<int>, b: seq<int>, k: nat, q: nat, s: nat, p: nat, u: int)
    requires p == Pow(2, s) && |v| == |v'| && k == Offset(q, p) <= |v| && v[..k] == v'[..k]
    requires forall r: nat :: r < q ==> BlockDone(v, b, Offset(r, p), s, u)
    ensures forall r: nat :: r < q ==> BlockDone(v', b, Offset(r, p), s, u)
  {
    hide *;
    forall r: nat | r < q ensures BlockDone(v', b, Offset(r, p), s, u) {
      OffsetMonotone(r, q, p);
      HeadUnchanged(v, v', k, Offset(r, p), Offset(r, p) + p);
      BlockUnchanged(v, v', b, Offset(r, p), s, u);
    }
  }

  lemma HeadUnchanged(v: seq<int>, v': seq<int>, k: nat, lo: nat, hi: nat)
    requires |v| == |v'| && lo <= hi <= k <= |v| && v[..k] == v'[..k]
    ensures v[lo..hi] == v'[lo..hi]
  {
    forall i | lo <= i < hi ensures v[i] == v'[i] {
      assert v[i] == v[..k][i] && v'[i] == v'[..k][i];
    }
  }

  lemma TailAfter(v: seq<int>, v': seq<int>, before: seq<int>, k: nat, k': nat)
    requires |v| == |v'| == |before| && k <= k' <= |v| && v[k..] == before[k..] && v'[k'..] == v[k'..]
    ensures v'[k'..] == before[k'..]
  {
    TailUnchanged(v, before, k, k', |v|);
    assert v[k'..] == v[k'..|v|] && before[k'..] == before[k'..|v|];
  }

  lemma FirstStage(v: seq<int>, w: int, l: nat)
    requires |v| == Pow(2, l)
    ensures StageDone(v, v, w, 0, 1, Pow(2, l))
  {
    var n := Pow(2, l);
    forall q: nat | q < n ensures BlockDone(v, v, Offset(q, 1), 0, Pow(w, n)) {
      OffsetByOne(q);
      VCongRefl(v[q..q + 1], P);
    }
  }

  lemma {:induction false} OffsetByOne(q: nat)
    ensures Offset(q, 1) == q
  {
    if q > 0 { OffsetByOne(q - 1); }
  }

  lemma LastStage(v: seq<int>, b: seq<int>, w: int, l: nat)
    requires |v| == |b| == Pow(2, l) && StageDone(v, b, w, l, Pow(2, l), 1)
    ensures VCong(v, Dit(b, w, l), P)
  {
    StageBlock(v, b, w, l, Pow(2, l), 1, 0);
    assert Pow(w, 1) == w * Pow(w, 0);
    assert v[0..|v|] == v && b[0..|b|] == b;
  }

  /** All stages, after bit reversal: the loops forward and inverse share. */
  method Transformed(a: array<Fe>, roots: seq<Fe>, logN: nat, ghost w: int)
    requires logN <= 28 && a.Length == |roots| == Pow(2, logN) && PowerTable(roots, w)
    modifies a
    ensures VCong(DecodeAll(a[..]), Fft(old(DecodeAll(a[..])), w, logN), P)
  {
    hide *;
    ghost var x := DecodeAll(a[..]);
    BitReversePermutation(a, logN);
    ghost var b := DecodeAll(a[..]);
    DecodeReversed(old(a[..]), logN);
    DitOfReversed(x, w, logN);
    FirstStage(b, w, logN);
    PowZero(2);
    var len := 1;
    for stage := 0 to logN
      invariant len == Pow(2, stage)
      invariant StageDone(DecodeAll(a[..]), b, w, stage, len, Pow(2, logN - stage))
    {
      ButterflyStage(a, roots, stage, logN, len, b, w);
      Doubling(stage);
      len := 2 * len;
    }
    LastStage(DecodeAll(a[..]), b, w, logN);
  }

  lemma PowZero(b: int)
    ensures Pow(b, 0) == 1
  {}

  lemma DecodeReversed(x: seq<Fe>, l: nat)
    requires |x| == Pow(2, l)
    ensures DecodeAll(Reversed(x, l)) == Reversed(DecodeAll(x), l)
  {
    forall i | 0 <= i < |x| ensures DecodeAll(Reversed(x, l))[i] == Reversed(DecodeAll(x), l)[i] {
      RevBound(i, l);
    }
  }

  // ── The domain ───────────────────────────────────────────────────

  datatype NttDomain = NttDomain(roots: seq<Fe>, invRoots: seq<Fe>, logN: nat, n: nat, nInv: Fe)
  {
    /** The twiddles are the powers of w forward and of w' backward. */
    ghost predicate Valid(w: int, w': int)
    {
      && logN <= 28 && n == Pow(2, logN) == |roots| == |invRoots|
      && PowerTable(roots, w) && PowerTable(invRoots, w')
    }
  }

  /** Squares the fixed 2^28-level root down to the requested size. */
  method ComputeRootOfUnity(logN: nat) returns (omega: Fe)
    requires logN <= 28
    ensures Cong(Decode(omega), Pow(5, EXPONENT * Pow(2, 28 - logN)), P)
  {
    var generator := FromU64(5);
    omega := MontPow(generator, ROOT_EXPONENT);
    ExponentValue();
    ghost var e := EXPONENT;
    for i := 0 to 28 - logN
      invariant e == EXPONENT * Pow(2, i) && Cong(Decode(omega), Pow(5, e), P)
    {
      ghost var d := Decode(omega);
      omega := MontMul(omega, omega);
      SquareOf(Decode(omega), d, e);
      e := 2 * e;
    }
  }

  lemma SquareOf(r: nat, d: nat, e: nat)
    requires r == d * d % P && Cong(d, Pow(5, e), P)
    ensures Cong(r, Pow(5, 2 * e), P)
  {
    PowAdd(5, e, e);
    CongMul(d, Pow(5, e), d, Pow(5, e), P);
    CongMod(d * d, P);
    CongTrans(r, d * d, Pow(5, 2 * e), P);
  }

  /** 1, omega, omega^2, ... */
  method RootTable(n: nat, omega: Fe) returns (table: array<Fe>)
    requires n > 0
    ensures fresh(table) && table.Length == n && PowerTable(table[..], Decode(omega))
  {
    hide *;
    UnitsDecode();
    table := new Fe[n](_ => ZERO);
    table[0] := MONT_R;
    ghost var w := Decode(omega);
    TableStart(w);
    assert table[..1] == [MONT_R];
    if n > 1 {
      table[1] := omega;
      assert table[..2] == [MONT_R] + [omega];
      TableSecond([MONT_R], omega, w);
      for i := 2 to n
        invariant PowerTable(table[..i], w)
      {
        ghost var before := table[..i];
        table[i] := MontMul(table[i - 1], omega);
        TableNext(before, table[i], w);
        assert table[..i + 1] == before + [table[i]];
      }
    }
    assert table[..] == table[..n];
  }

  lemma TableStart(w: nat)
    ensures PowerTable([MONT_R], w)
  {
    UnitsDecode();
    CongRefl(1, P);
  }

  lemma TableSecond(s: seq<Fe>, omega: Fe, w: int)
    requires |s| == 1 && PowerTable(s, w) && w == Decode(omega)
    ensures PowerTable(s + [omega], w)
  {
    assert Pow(w, 1) == w * Pow(w, 0);
    CongRefl(w, P);
  }

  lemma TableNext(s: seq<Fe>, x: Fe, w: nat)
    requires |s| > 0 && PowerTable(s, w) && Decode(x) == Decode(s[|s| - 1]) * w % P
    ensures PowerTable(s + [x], w)
  {
    NextPower(Decode(x), Decode(s[|s| - 1]), w, |s|);
  }

  lemma NextPower(r: nat, d: nat, w: nat, i: nat)
    requires i > 0 && r == d * w % P && Cong(d, Pow(w, i - 1), P)
    ensures Cong(r, Pow(w, i), P)
  {
    CongMod(d * w, P);
    CongScale(w, d, Pow(w, i - 1), P);
    CongTrans(r, d * w, Pow(w, i), P);
  }

  lemma TwoTo7()
    ensures Pow(2, 7) == 128
  {}

  lemma SizeIsWord(logN: nat)
    requires logN <= 28
    ensures Pow(2, logN) < W && Pow(2, logN) < P
  {
    hide Pow;
    if logN < 28 { PowMonotone(2, logN, 28); }
    PowAdd(2, 14, 14);
    PowAdd(2, 7, 7);
    TwoTo7();
  }

  method NewDomain(logN: nat) returns (d: NttDomain, ghost w: int, ghost w': int)
    requires logN <= 28
    ensures d.logN == logN && d.Valid(w, w')
    ensures Cong(w, Pow(5, EXPONENT * Pow(2, 28 - logN)), P)
    ensures IsPrime(P) ==> InversePair(w, w', Decode(d.nInv), logN, P)
  {
    hide *;
    var n := 1;
    PowZero(2);
    for i := 0 to logN                 // 1 << log_n
      invariant n == Pow(2, i)
    {
      Doubling(i);
      n := 2 * n;
    }
    var omega := ComputeRootOfUnity(logN);
    var omegaInv := MontInv(omega);
    var roots := RootTable(n, omega);
    var invRoots := RootTable(n, omegaInv);
    SizeIsWord(logN);
    var size := FromU64(n);
    var nInv := MontInv(size);
    d := NttDomain(roots[..], invRoots[..], logN, n, nInv);
    w, w' := Decode(omega), Decode(omegaInv);
    DomainValid(d, w, w');
    DomainInverses(w, w', Decode(nInv), n, logN);
  }

  lemma DomainValid(d: NttDomain, w: int, w': int)
    requires d.logN <= 28 && d.n == Pow(2, d.logN) == |d.roots| == |d.invRoots|
    requires PowerTable(d.roots, w) && PowerTable(d.invRoots, w')
    ensures d.Valid(w, w')
  {}

  lemma DomainInverses(w: nat, w': nat, c: nat, n: nat, l: nat)
    requires l <= 28 && w < P && n == Pow(2, l) && n < P
    requires Cong(w, Pow(5, EXPONENT * Pow(2, 28 - l)), P)
    requires IsPrime(P) && w != 0 ==> Cong(w * w', 1, P)
    requires IsPrime(P) && n != 0 ==> Cong(n * c, 1, P)
    ensures IsPrime(P) ==> InversePair(w, w', c, l, P)
  {
    if IsPrime(P) {
      if w == 0 {
        FiveIsUnit();
        PowerUnit(5, EXPONENT * Pow(2, 28 - l));
        CongSym(w, Pow(5, EXPONENT * Pow(2, 28 - l)), P);
      }
      assert n * c == c * n;
    }
  }

  lemma {:induction false} PowerUnit(a: int, e: nat)
    requires IsPrime(P) && !Cong(a, 0, P)
    ensures !Cong(Pow(a, e), 0, P)
  {
    if e == 0 {
      SmallNonzero(1, P);
    } else {
      PowerUnit(a, e - 1);
      if Cong(a * Pow(a, e - 1), 0, P) { NoZeroDivisors(a, Pow(a, e - 1), P); }
    }
  }

  // ── Forward, inverse, multiplication ─────────────────────────────

  /** The forward transform: with w^(n/2) = -1 it evaluates the coefficient polynomial at the powers of w. */
  method Forward(d: NttDomain, coeffs: array<Fe>, ghost w: int, ghost w': int)
    requires d.Valid(w, w') && coeffs.Length == d.n
    modifies coeffs
    ensures VCong(DecodeAll(coeffs[..]), Fft(old(DecodeAll(coeffs[..])), w, d.logN), P)
    ensures HalfTurn(w, d.logN, P) ==>
      EvaluatesAtPowers(DecodeAll(coeffs[..]), old(DecodeAll(coeffs[..])), w, P)
  {
    hide *;
    DomainFacts(d, w, w');
    ghost var x := DecodeAll(coeffs[..]);
    Transformed(coeffs, d.roots, d.logN, w);
    if HalfTurn(w, d.logN, P) {
      TransformEvaluates(x, w, d.logN, P);
      EvaluatesCong(DecodeAll(coeffs[..]), Fft(x, w, d.logN), x, w);
    }
  }

  lemma DomainFacts(d: NttDomain, w: int, w': int)
    requires d.Valid(w, w')
    ensures d.logN <= 28 && d.n == Pow(2, d.logN) == |d.roots| == |d.invRoots|
    ensures PowerTable(d.roots, w) && PowerTable(d.invRoots, w')
  {}

  lemma EvaluatesCong(y: seq<int>, y': seq<int>, x: seq<int>, w: int)
    requires VCong(y, y', P) && EvaluatesAtPowers(y', x, w, P)
    ensures EvaluatesAtPowers(y, x, w, P)
  {
    forall k | 0 <= k < |y| ensures Cong(y[k], Eval(x, Pow(w, k)), P) {
      CongTrans(y[k], y'[k], Eval(x, Pow(w, k)), P);
    }
  }

  /** The inverse transform: the same loops with the inverse roots, then a scaling by 1/n. */
  method Inverse(d: NttDomain, evals: array<Fe>, ghost w: int, ghost w': int)
    requires d.Valid(w, w') && evals.Length == d.n
    modifies evals
    ensures VCong(DecodeAll(evals[..]), Scale(Decode(d.nInv), Fft(old(DecodeAll(evals[..])), w', d.logN)), P)
  {
    hide *;
    DomainFacts(d, w, w');
    ghost var y := Fft(DecodeAll(evals[..]), w', d.logN);
    Transformed(evals, d.invRoots, d.logN, w');
    ghost var t := evals[..];
    ghost var c := Decode(d.nInv);
    ScaledStart(t, c);
    assert evals[..] == [] + t[0..];
    for i := 0 to evals.Length
      invariant |t| == evals.Length && evals[i..] == t[i..]
      invariant VCong(DecodeAll(evals[..i]), Scale(c, DecodeAll(t[..i])), P)
    {
      ghost var before := evals[..i];
      assert evals[i] == evals[i..][0] == t[i..][0];
      evals[i] := MontMul(evals[i], d.nInv);
      ScaledNext(before, t, evals[i], c, i);
      assert evals[..i + 1] == before + [evals[i]];
    }
    assert evals[..] == evals[..evals.Length] && t == t[..|t|];
    VCongScale(c, DecodeAll(t), y, P);
    VCongTrans(DecodeAll(evals[..]), Scale(c, DecodeAll(t)), Scale(c, y), P);
  }

  lemma ScaledStart(t: seq<Fe>, c: int)
    ensures VCong(DecodeAll([]), Scale(c, DecodeAll(t[..0])), P)
  {}

  lemma ScaledNext(before: seq<Fe>, t: seq<Fe>, x: Fe, c: nat, i: nat)
    requires i < |t| && VCong(DecodeAll(before), Scale(c, DecodeAll(t[..i])), P)
    requires Decode(x) == Decode(t[i]) * c % P
    ensures VCong(DecodeAll(before + [x]), Scale(c, DecodeAll(t[..i + 1])), P)
  {
    CongMod(Decode(t[i]) * c, P);
    assert Decode(t[i]) * c == c * Decode(t[i]);
    assert DecodeAll(before + [x]) == DecodeAll(before) + [Decode(x)];
    assert Scale(c, DecodeAll(t[..i + 1])) == Scale(c, DecodeAll(t[..i])) + [c * Decode(t[i])];
  }

  lemma DecodeInjective(x: Fe, y: Fe)
    requires Decode(x) == Decode(y)
    ensures x == y
  {
    ConstantsAgree();
    var u, i := Pow(W, 4), R_INVERSE;
    var a, b := Value(x), Value(y);
    DecodeCong(x);
    DecodeCong(y);
    CongSym(Decode(x), a * i, P);
    CongTrans(a * i, Decode(x), b * i, P);
    CongMul(a * i, b * i, u, u, P) by { CongRefl(u, P); }
    ModToCong(u * i, 1, P);
    UndoScale(a, i, u);
    UndoScale(b, i, u);
    CongSym(a * i * u, a, P);
    CongTrans(a, a * i * u, b * i * u, P);
    CongTrans(a, b * i * u, b, P);
    CongUnique(a, b, P);
    ValueInjective(x, y);
  }

  lemma UndoScale(a: int, i: int, u: int)
    requires Cong(u * i, 1, P)
    ensures Cong(a * i * u, a, P)
  {
    CongScale(a, u * i, 1, P);
    MulAssoc(a, i, u);
    assert i * u == u * i;
  }

  lemma {:induction false} ValueInjective(x: seq<Word>, y: seq<Word>)
    requires |x| == |y| && Value(x) == Value(y)
    ensures x == y
  {
    if |x| > 0 {
      LowDigit(x[0], Value(x[1..]), y[0], Value(y[1..]));
      ValueInjective(x[1..], y[1..]);
      assert x == [x[0]] + x[1..] && y == [y[0]] + y[1..];
    }
  }

  lemma LowDigit(a: Word, u: nat, b: Word, v: nat)
    requires a + W * u == b + W * v
    ensures a == b && u == v
  {}

  /** Transforming forward and back restores the array exactly, limb for limb, whatever the root. */
  method ForwardThenInverse(d: NttDomain, data: array<Fe>, ghost w: int, ghost w': int)
    requires d.Valid(w, w') && data.Length == d.n && InversePair(w, w', Decode(d.nInv), d.logN, P)
    modifies data
    ensures data[..] == old(data[..])
  {
    hide *;
    DomainFacts(d, w, w');
    ghost var x := DecodeAll(data[..]);
    Forward(d, data, w, w');
    ghost var y := DecodeAll(data[..]);
    Inverse(d, data, w, w');
    BackAgain(DecodeAll(data[..]), y, x, w, w', Decode(d.nInv), d.logN);
    SameDecodings(data[..], old(data[..]));
  }

  lemma BackAgain(z: seq<int>, y: seq<int>, x: seq<int>, w: int, w': int, c: int, l: nat)
    requires |x| == Pow(2, l) && VCong(y, Fft(x, w, l), P) && InversePair(w, w', c, l, P)
    requires |y| == Pow(2, l) && VCong(z, Scale(c, Fft(y, w', l)), P)
    ensures VCong(z, x, P)
  {
    hide *;
    CongRefl(w', P);
    FftCong(y, Fft(x, w, l), w', w', l, P);
    VCongScale(c, Fft(y, w', l), Fft(Fft(x, w, l), w', l), P);
    InverseAfterForward(x, w, w', c, l, P);
    VCongTrans(z, Scale(c, Fft(y, w', l)), Scale(c, Fft(Fft(x, w, l), w', l)), P);
    VCongTrans(z, Scale(c, Fft(Fft(x, w, l), w', l)), x, P);
  }

  lemma SameDecodings(a: seq<Fe>, b: seq<Fe>)
    requires VCong(DecodeAll(a), DecodeAll(b), P)
    ensures a == b
  {
    forall i | 0 <= i < |a| ensures a[i] == b[i] {
      assert Cong(DecodeAll(a)[i], DecodeAll(b)[i], P);
      CongUnique(Decode(a[i]), Decode(b[i]), P);
      DecodeInjective(a[i], b[i]);
    }
  }

  /** Multiplication through the transform; both inputs are left transformed. */
  method PolyMul(d: NttDomain, a: array<Fe>, b: array<Fe>, ghost w: int, ghost w': int)
    returns (c: array<Fe>)
    requires d.Valid(w, w') && a.Length == b.Length == d.n && a != b
    requires InversePair(w, w', Decode(d.nInv), d.logN, P)
    modifies a, b
    ensures fresh(c) && c.Length == d.n
    ensures VCong(DecodeAll(c[..]),
                  MulThrough(old(DecodeAll(a[..])), old(DecodeAll(b[..])), w, w', Decode(d.nInv), d.logN), P)
    ensures d.logN <= 1 || HalfTurn(w, d.logN, P) ==>
      VCong(DecodeAll(c[..]), CyclicConvolution(old(DecodeAll(a[..])), old(DecodeAll(b[..]))), P)
    ensures VCong(DecodeAll(a[..]), Fft(old(DecodeAll(a[..])), w, d.logN), P)
    ensures VCong(DecodeAll(b[..]), Fft(old(DecodeAll(b[..])), w, d.logN), P)
  {
    hide *;
    DomainFacts(d, w, w');
    ghost var x, y := DecodeAll(a[..]), DecodeAll(b[..]);
    Forward(d, a, w, w');
    Forward(d, b, w, w');
    ghost var fa, fb := DecodeAll(a[..]), DecodeAll(b[..]);
    c := new Fe[d.n](_ => ZERO);
    PointwiseStart(a[..], b[..]);
    assert c[..0] == [];
    for i := 0 to d.n
      invariant fa == DecodeAll(a[..]) && fb == DecodeAll(b[..])
      invariant VCong(DecodeAll(c[..i]), Pointwise(DecodeAll(a[..i]), DecodeAll(b[..i])), P)
    {
      ghost var before := c[..i];
      c[i] := MontMul(a[i], b[i]);
      PointwiseNext(before, a[..], b[..], c[i], i);
      assert c[..i + 1] == before + [c[i]] && a[..][..i] == a[..i] && b[..][..i] == b[..i];
      assert a[..][..i + 1] == a[..i + 1] && b[..][..i + 1] == b[..i + 1];
    }
    assert c[..] == c[..d.n] && a[..] == a[..d.n] && b[..] == b[..d.n];
    ghost var p := DecodeAll(c[..]);
    Inverse(d, c, w, w');
    ProductThrough(DecodeAll(c[..]), p, fa, fb, x, y, w, w', Decode(d.nInv), d.logN);
    if d.logN <= 1 || HalfTurn(w, d.logN, P) {
      ConvolvesWhenTurning(x, y, w, w', Decode(d.nInv), d.logN);
      VCongTrans(DecodeAll(c[..]), MulThrough(x, y, w, w', Decode(d.nInv), d.logN), CyclicConvolution(x, y), P);
    }
  }

  lemma PointwiseStart(a: seq<Fe>, b: seq<Fe>)
    ensures VCong(DecodeAll([]), Pointwise(DecodeAll(a[..0]), DecodeAll(b[..0])), P)
  {}

  lemma PointwiseNext(before: seq<Fe>, a: seq<Fe>, b: seq<Fe>, x: Fe, i: nat)
    requires i < |a| == |b| && Decode(x) == Decode(a[i]) * Decode(b[i]) % P
    requires VCong(DecodeAll(before), Pointwise(DecodeAll(a[..i]), DecodeAll(b[..i])), P)
    ensures VCong(DecodeAll(before + [x]), Pointwise(DecodeAll(a[..i + 1]), DecodeAll(b[..i + 1])), P)
  {
    var u, v := Decode(a[i]), Decode(b[i]);
    CongMod(u * v, P);
    assert DecodeAll(before + [x]) == DecodeAll(before) + [Decode(x)];
    assert Pointwise(DecodeAll(a[..i + 1]), DecodeAll(b[..i + 1]))
        == Pointwise(DecodeAll(a[..i]), DecodeAll(b[..i])) + [u * v];
  }

  lemma ProductThrough(z: seq<int>, p: seq<int>, fa: seq<int>, fb: seq<int>, x: seq<int>, y: seq<int>,
                       w: int, w': int, c: int, l: nat)
    requires |x| == |y| == |p| == Pow(2, l) && VCong(fa, Fft(x, w, l), P) && VCong(fb, Fft(y, w, l), P)
    requires |fa| == |fb| && VCong(p, Pointwise(fa, fb), P) && VCong(z, Scale(c, Fft(p, w', l)), P)
    ensures VCong(z, MulThrough(x, y, w, w', c, l), P)
  {
    var q := Pointwise(Fft(x, w, l), Fft(y, w, l));
    forall i | 0 <= i < |p| ensures Cong(p[i], q[i], P) {
      CongMul(fa[i], Fft(x, w, l)[i], fb[i], Fft(y, w, l)[i], P);
      CongTrans(p[i], fa[i] * fb[i], q[i], P);
    }
    CongRefl(w', P);
    FftCong(p, q, w', w', l, P);
    VCongScale(c, Fft(p, w', l), Fft(q, w', l), P);
    VCongTrans(z, Scale(c, Fft(p, w', l)), Scale(c, Fft(q, w', l)), P);
  }

  lemma ConvolvesWhenTurning(x: seq<int>, y: seq<int>, w: int, w': int, c: int, l: nat)
    requires |x| == |y| == Pow(2, l) && InversePair(w, w', c, l, P) && (l <= 1 || HalfTurn(w, l, P))
    ensures VCong(MulThrough(x, y, w, w', c, l), CyclicConvolution(x, y), P)
  {
    if l <= 1 {
      SmallTransforms(x, y, w, w', c, l, P);
    } else {
      MulThroughConvolves(x, y, w, w', c, l, P);
    }
  }

  /** The domains the program builds: the round trip works at every size, but no size from 2 up
      evaluates polynomials and no size from 4 up convolves, because the root is not one. */
  lemma ShippedDomain(w: int, w': int, c: int, l: nat)
    requires IsPrime(P) && l <= 28 && InversePair(w, w', c, l, P)
    requires Cong(w, Pow(5, EXPONENT * Pow(2, 28 - l)), P)
    ensures ConvolvesAll(w, w', c, l, P) <==> l <= 1
    ensures (forall x: seq<int> | |x| == Pow(2, l) :: EvaluatesAtPowers(Fft(x, w, l), x, w, P)) <==> l == 0
  {
    ConvolvesExactly(w, w', c, l, P);
    if l > 0 {
      ShippedRootIsNoRoot(w, l, EXPONENT * Pow(2, 28 - l));
      var x := Unit(Pow(2, l), 1);
      if EvaluatesAtPowers(Fft(x, w, l), x, w, P) {
        EvaluatesOnlyAtHalfTurn(w, l, P);
      }
    } else {
      forall x: seq<int> | |x| == Pow(2, l) ensures EvaluatesAtPowers(Fft(x, w, l), x, w, P) {
        TransformEvaluates(x, w, l, P);
      }
    }
  }
}
