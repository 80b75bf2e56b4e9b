/** Pippenger's bucket method over any commutative group. */
module Msm {
  import opened Arith
  import opened Bits
  import opened Montgomery

  // ── Scalar windows ───────────────────────────────────────────────

  /** A window of `width` bits at position `index`, read limb-wise from the raw scalar. */
  function ExtractWindow(scalar: U256, index: nat, width: nat): nat
    requires 1 <= width <= 63
  {
    MulMonotone(0, index, width);
    WindowAt(scalar, index * width, width)
  }

  /** The width bits from position offset. */
  function WindowAt(scalar: U256, offset: nat, width: nat): nat
    requires 1 <= width <= 63
  {
    var limb, bit := offset / 64, offset % 64;
    var mask := Pow(2, width) - 1;
    if limb >= 4 then 0
    else
      var val := ShiftRight(scalar[limb], bit);
      if bit + width > 64 && limb + 1 < 4 then
        var high := And(scalar[limb + 1], Pow(2, bit + width - 64) - 1);
        MulMonotone(0, Pow(2, 64 - bit), high);
        And(Or(val, Pow(2, 64 - bit) * high), mask)
      else And(val, mask)
  }

  lemma {:induction false} ValueShift(s: seq<Word>, l: nat)
    requires l <= |s|
    ensures ShiftRight(Value(s), 64 * l) == Value(s[l..])
    decreases l
  {
    hide *;
    if l > 0 {
      DropLimb(s);
      ShiftTwice(Value(s), 64, 64 * (l - 1));
      ValueShift(s[1..], l - 1);
      assert s[1..][l - 1..] == s[l..];
    } else {
      NoShift(Value(s));
      assert s[0..] == s;
    }
  }

  lemma NoShift(x: nat)
    ensures ShiftRight(x, 0) == x
  {}

  lemma DropLimb(s: seq<Word>)
    requires |s| > 0
    ensures ShiftRight(Value(s), 64) == Value(s[1..])
  {
    hide ShiftRight, Pow, Value, Scaled;
    TwoTo64();
    ValueIs(s);
    ShiftOutLow(s[0], Value(s[1..]), 64);
  }

  lemma ValueIs(s: seq<Word>)
    requires |s| > 0
    ensures Value(s) == s[0] + Scaled(W, Value(s[1..]))
  {}

  lemma ShiftOutLow(a: nat, b: nat, k: nat)
    requires a < Pow(2, k)
    ensures ShiftRight(a + Scaled(Pow(2, k), b), k) == b
  {
    hide ShiftRight;
    ShiftConcat(a, b, k, k);
    ShiftOut(a, k);
  }

  lemma ShiftBelow(x: nat, bit: nat)
    requires bit <= 64 && x < W
    ensures ShiftRight(x, bit) < Pow(2, 64 - bit)
  {
    hide *;
    TwoTo64();
    LowAndHigh(x, bit);
    PowAdd(2, bit, 64 - bit);
    HighPart(x, LowBits(x, bit), Pow(2, bit), ShiftRight(x, bit), Pow(2, 64 - bit));
  }

  lemma HighPart(x: nat, low: nat, p: nat, s: nat, q: nat)
    requires x == low + p * s && x < p * q
    ensures s < q
  {
    if s >= q { MulMonotone(q, s, p); }
  }

  /** Each window is the corresponding field of the scalar read as one 256-bit number. */
  lemma WindowIsField(s: U256, index: nat, width: nat)
    requires 1 <= width <= 63
    ensures index * width >= 0
    ensures ExtractWindow(s, index, width) == LowBits(ShiftRight(Value(s), index * width), width)
  {
    hide WindowAt, ShiftRight, LowBits, Value;
    MulMonotone(0, index, width);
    WindowAtIsField(s, index * width, width);
  }

  lemma WindowAtIsField(s: U256, offset: nat, width: nat)
    requires 1 <= width <= 63
    ensures WindowAt(s, offset, width) == LowBits(ShiftRight(Value(s), offset), width)
  {
    hide ShiftRight, LowBits, Value, And, Or, Pow;
    var limb, bit := offset / 64, offset % 64;
    ShiftTwice(Value(s), 64 * limb, bit);
    if limb >= 4 {
      PastTheEnd(s, limb, bit, width);
    } else {
      ValueShift(s, limb);
      FieldInLimb(s, limb, bit, width);
    }
  }

  lemma PastTheEnd(s: U256, limb: nat, bit: nat, width: nat)
    requires limb >= 4
    ensures LowBits(ShiftRight(ShiftRight(Value(s), 64 * limb), bit), width) == 0
  {
    hide ShiftRight, LowBits, Pow;
    ShiftTwice(Value(s), 256, 64 * limb - 256);
    ValueShift(s, 4);
    ShiftZero(64 * limb - 256);
    ShiftZero(bit);
    ZeroFits(width);
    LowOfSmall(0, width);
  }

  lemma ZeroFits(width: nat)
    ensures 0 < Pow(2, width)
  {}

  lemma {:induction false} ShiftZero(k: nat)
    ensures ShiftRight(0, k) == 0
  {
    if k > 0 { ShiftZero(k - 1); }
  }

  lemma FieldInLimb(s: U256, limb: nat, bit: nat, width: nat)
    requires 1 <= width <= 63 && limb < 4 && bit < 64
    ensures LowBits(ShiftRight(Value(s[limb..]), bit), width) ==
      if bit + width > 64 && limb + 1 < 4
      then And(Or(ShiftRight(s[limb], bit),
                  Scaled(Pow(2, 64 - bit), And(s[limb + 1], Pow(2, bit + width - 64) - 1))), Pow(2, width) - 1)
      else And(ShiftRight(s[limb], bit), Pow(2, width) - 1)
  {
    hide *;
    var val, rest, k := ShiftRight(s[limb], bit), Value(s[limb + 1..]), 64 - bit;
    ShiftBelow(s[limb], bit);
    ShiftedLimbs(s, limb, bit);
    if bit + width > 64 && limb + 1 < 4 {
      NextLimb(s, limb, bit + width - 64);
      Straddle(val, s[limb + 1], rest, k, bit + width - 64);
    } else {
      AndMask(val, width);
      if bit + width > 64 { NoLimbsLeft(s[limb + 1..]); }
      LowOfConcat(val, rest, k, width);
    }
  }

  lemma NoLimbsLeft(s: seq<Word>)
    requires |s| == 0
    ensures Value(s) == 0
  {}

  lemma LowOfConcat(a: nat, b: nat, k: nat, w: nat)
    requires w <= k || b == 0
    ensures LowBits(a + Scaled(Pow(2, k), b), w) == LowBits(a, w)
  {
    hide LowBits, Pow;
    if w <= k { LowIgnoresHigh(a, b, k, w); }
  }

  lemma ShiftedLimbs(s: U256, limb: nat, bit: nat)
    requires limb < 4 && bit < 64
    ensures ShiftRight(Value(s[limb..]), bit)
         == ShiftRight(s[limb], bit) + Scaled(Pow(2, 64 - bit), Value(s[limb + 1..]))
  {
    TwoTo64();
    assert s[limb..][1..] == s[limb + 1..];
    ShiftConcat(s[limb], Value(s[limb + 1..]), 64, bit);
  }

  lemma NextLimb(s: U256, limb: nat, m: nat)
    requires limb + 1 < 4 && m <= 64
    ensures LowBits(Value(s[limb + 1..]), m) == LowBits(s[limb + 1], m)
  {
    TwoTo64();
    assert s[limb + 1..][1..] == s[limb + 2..];
    LowIgnoresHigh(s[limb + 1], Value(s[limb + 2..]), 64, m);
  }

  /** A window that straddles two limbs: k bits from the lower, m from the higher. */
  lemma Straddle(val: nat, next: nat, rest: nat, k: nat, m: nat)
    requires val < Pow(2, k) && LowBits(rest, m) == LowBits(next, m)
    ensures LowBits(val + Scaled(Pow(2, k), rest), k + m)
         == And(Or(val, Scaled(Pow(2, k), And(next, Pow(2, m) - 1))), Pow(2, k + m) - 1)
  {
    hide And, LowBits, Or;
    var high := LowBits(next, m);
    AndMask(next, m);
    LowConcat(val, rest, k, m);
    OrDisjoint(val, high, k);
    LowAndHigh(next, m);
    FieldFits(val, high, k, m);
    AndMask(val + Pow(2, k) * high, k + m);
    LowOfSmall(val + Pow(2, k) * high, k + m);
  }

  lemma FieldFits(a: nat, b: nat, k: nat, m: nat)
    requires a < Pow(2, k) && b < Pow(2, m)
    ensures 0 <= a + Pow(2, k) * b < Pow(2, k + m)
  {
    hide Pow;
    PowAdd(2, k, m);
    DigitsFit(a, b, Pow(2, k), Pow(2, m));
  }

  lemma DigitsFit(a: nat, b: nat, p: nat, q: nat)
    requires a < p && b < q
    ensures 0 <= a + p * b < p * q
  {
    MulMonotone(0, p, b);
    MulMonotone(b + 1, q, p);
  }

  // ── Commutative groups ───────────────────────────────────────────

  /** The group the points live in; neg is used only to state when results agree. */
  datatype Group<!P(!new, ==)> = Group(zero: P, plus: (P, P) -> P, neg: P -> P)
  {
    ghost predicate Assoc(a: P, b: P, c: P) { plus(plus(a, b), c) == plus(a, plus(b, c)) }
    ghost predicate Comm(a: P, b: P) { plus(a, b) == plus(b, a) }
    ghost predicate Unit(a: P) { plus(a, zero) == a && plus(zero, a) == a }
    ghost predicate Inverse(a: P) { plus(a, neg(a)) == zero }

    ghost predicate Lawful()
    {
      && (forall a, b, c :: Assoc(a, b, c))
      && (forall a, b :: Comm(a, b))
      && (forall a :: Unit(a))
      && (forall a :: Inverse(a))
    }

    /** n-fold sum of a. */
    ghost function Mul(n: nat, a: P): P
    {
      if n == 0 then zero else plus(a, Mul(n - 1, a))
    }

    /** Mixed addition as the program performs it: no case for equal operands, where the chord
        formula's Z coordinate is zero and the identity comes out. */
    function AddAffine(p: P, q: P): P
    {
      if q == zero then p else if p == zero then q else if p == q then zero else plus(p, q)
    }

    /** The operands on which AddAffine is not addition. */
    predicate Collides(p: P, q: P)
    {
      p == q && p != zero
    }

    lemma Swap(a: P, b: P, c: P, d: P)
      requires Lawful()
      ensures plus(plus(a, b), plus(c, d)) == plus(plus(a, c), plus(b, d))
    {
      assert Assoc(a, b, plus(c, d)) && Assoc(b, c, d) && Comm(b, c);
      assert Assoc(c, b, d) && Assoc(a, c, plus(b, d));
    }

    /** Mixed addition is addition unless the operands are equal; then it gives the identity. */
    lemma AddAffineExactly(p: P, q: P)
      requires Lawful()
      ensures AddAffine(p, q) == if p == q then zero else plus(p, q)
    {
      assert Unit(p) && Unit(q);
    }

    lemma AddAffineIsSum(p: P, q: P)
      requires Lawful()
      ensures !Collides(p, q) ==> AddAffine(p, q) == plus(p, q)
      ensures Collides(p, q) ==> plus(AddAffine(p, q), plus(q, q)) == plus(p, q)
    {
      assert Unit(p) && Unit(q) && Unit(plus(q, q));
    }

    lemma {:induction false} MulPlus(n: nat, a: P, b: P)
      requires Lawful()
      ensures Mul(n, plus(a, b)) == plus(Mul(n, a), Mul(n, b))
    {
      if n == 0 {
        assert Unit(zero);
      } else {
        MulPlus(n - 1, a, b);
        Swap(a, b, Mul(n - 1, a), Mul(n - 1, b));
      }
    }

    lemma {:induction false} MulAdd(m: nat, n: nat, a: P)
      requires Lawful()
      ensures Mul(m + n, a) == plus(Mul(m, a), Mul(n, a))
    {
      if m == 0 {
        assert Unit(Mul(n, a));
      } else {
        MulAdd(m - 1, n, a);
        assert Assoc(a, Mul(m - 1, a), Mul(n, a));
      }
    }

    lemma {:induction false} MulZero(n: nat)
      requires Lawful()
      ensures Mul(n, zero) == zero
    {
      if n > 0 {
        MulZero(n - 1);
        assert Unit(zero);
      }
    }

    /** 2^w times a, the effect of w doublings. */
    lemma DoubleStep(w: nat, a: P)
      requires Lawful()
      ensures Mul(Pow(2, w + 1), a) == plus(Mul(Pow(2, w), a), Mul(Pow(2, w), a))
    {
      MulAdd(Pow(2, w), Pow(2, w), a);
    }

    lemma {:induction false} MulMul(m: nat, n: nat, a: P)
      requires Lawful()
      ensures m * n >= 0 && Mul(m, Mul(n, a)) == Mul(m * n, a)
    {
      MulMonotone(0, m, n);
      if m > 0 {
        MulMonotone(0, m - 1, n);
        MulMul(m - 1, n, a);
        assert m * n == n + (m - 1) * n;
        MulAdd(n, (m - 1) * n, a);
      }
    }

    lemma Cancel(a: P, b: P)
      requires Lawful()
      ensures plus(a, b) == a <==> b == zero
    {
      assert Unit(a) && Unit(b) && Inverse(a) && Comm(a, neg(a)) && Assoc(neg(a), a, b);
    }
  }

  // ── Buckets ──────────────────────────────────────────────────────

  /** Sum of B[j..]. */
  ghost function SuffixSum<P(!new)>(g: Group<P>, B: seq<P>, j: nat): P
    requires j <= |B|
    decreases |B| - j
  {
    if j == |B| then g.zero else g.plus(SuffixSum(g, B, j + 1), B[j])
  }

  /** The running sum of suffix sums, from the top bucket down to bucket j. */
  ghost function WeightedFrom<P(!new)>(g: Group<P>, B: seq<P>, j: nat): P
    requires j <= |B|
    decreases |B| - j
  {
    if j == |B| then g.zero else g.plus(WeightedFrom(g, B, j + 1), SuffixSum(g, B, j))
  }

  ghost function Zeros<P(!new)>(g: Group<P>, m: nat): (z: seq<P>)
    ensures |z| == m
  {
    seq(m, _ => g.zero)
  }

  lemma {:induction false} SuffixOfZeros<P(!new)>(g: Group<P>, m: nat, j: nat)
    requires g.Lawful() && j <= m
    ensures SuffixSum(g, Zeros(g, m), j) == g.zero && WeightedFrom(g, Zeros(g, m), j) == g.zero
    decreases m - j
  {
    assert g.Unit(g.zero);
    if j < m { SuffixOfZeros(g, m, j + 1); }
  }

  /** Adding p to bucket t adds it to every suffix sum that reaches t. */
  lemma {:induction false} SuffixAdd<P(!new)>(g: Group<P>, B: seq<P>, B': seq<P>, t: nat, p: P, j: nat)
    requires g.Lawful() && t < |B| && B' == B[t := g.plus(B[t], p)] && j <= |B|
    ensures SuffixSum(g, B', j) == if j <= t then g.plus(SuffixSum(g, B, j), p) else SuffixSum(g, B, j)
    decreases |B| - j
  {
    if j < |B| {
      SuffixAdd(g, B, B', t, p, j + 1);
      var s := SuffixSum(g, B, j + 1);
      if j == t {
        assert g.Assoc(s, B[t], p);
      } else if j < t {
        assert g.Assoc(s, p, B[j]) && g.Comm(p, B[j]) && g.Assoc(s, B[j], p);
      }
    }
  }

  /** and adds p to the weighted sum t - j + 1 times. */
  lemma {:induction false} WeightedAdd<P(!new)>(g: Group<P>, B: seq<P>, B': seq<P>, t: nat, p: P, j: nat)
    requires g.Lawful() && t < |B| && B' == B[t := g.plus(B[t], p)] && j <= |B|
    ensures WeightedFrom(g, B', j) == g.plus(WeightedFrom(g, B, j), g.Mul(if j <= t then t + 1 - j else 0, p))
    decreases |B| - j
  {
    var n := if j <= t then t + 1 - j else 0;
    assert g.Unit(WeightedFrom(g, B, j)) && g.Unit(p);
    if j < |B| {
      WeightedAdd(g, B, B', t, p, j + 1);
      SuffixAdd(g, B, B', t, p, j);
      var u, s := WeightedFrom(g, B, j + 1), SuffixSum(g, B, j);
      if j <= t {
        g.Swap(u, g.Mul(n - 1, p), s, p);
        assert g.Comm(g.Mul(n - 1, p), p);
      } else {
        assert g.Unit(u);
      }
    }
  }

  /** Classical reading of the running sum: bucket t counts t + 1 times. */
  ghost function BucketTotal<P(!new)>(g: Group<P>, B: seq<P>, m: nat): P
    requires m <= |B|
  {
    if m == 0 then g.zero else g.plus(BucketTotal(g, B, m - 1), g.Mul(m, B[m - 1]))
  }

  /** What the distribution loop leaves in the buckets after i points. */
  ghost function Filled<P(!new)>(g: Group<P>, digits: seq<nat>, points: seq<P>, m: nat, i: nat): (B: seq<P>)
    requires i <= |digits| == |points| && forall k :: 0 <= k < |digits| ==> digits[k] <= m
    ensures |B| == m
  {
    if i == 0 then Zeros(g, m)
    else
      var B, d := Filled(g, digits, points, m, i - 1), digits[i - 1];
      if d == 0 then B else B[d - 1 := g.AddAffine(B[d - 1], points[i - 1])]
  }

  /** What the missing equal-operand case loses, bucket by bucket: twice the point at each collision. */
  ghost function Lost<P(!new)>(g: Group<P>, digits: seq<nat>, points: seq<P>, m: nat, i: nat): (L: seq<P>)
    requires i <= |digits| == |points| && forall k :: 0 <= k < |digits| ==> digits[k] <= m
    ensures |L| == m
  {
    if i == 0 then Zeros(g, m)
    else
      var L, d, p := Lost(g, digits, points, m, i - 1), digits[i - 1], points[i - 1];
      if d > 0 && g.Collides(Filled(g, digits, points, m, i - 1)[d - 1], p)
      then L[d - 1 := g.plus(L[d - 1], g.plus(p, p))] else L
  }

  /** d[0] P[0] + ... + d[i-1] P[i-1] */
  ghost function Combination<P(!new)>(g: Group<P>, d: seq<nat>, points: seq<P>, i: nat): P
    requires i <= |d| == |points|
  {
    if i == 0 then g.zero else g.plus(Combination(g, d, points, i - 1), g.Mul(d[i - 1], points[i - 1]))
  }

  /** One point: the weighted bucket sum plus the weighted loss grows by digit * point. */
  lemma PointStep<P(!new)>(g: Group<P>, B: seq<P>, L: seq<P>, B': seq<P>, L': seq<P>, d: nat, p: P)
    requires g.Lawful() && 0 < d <= |B| == |L| && B' == B[d - 1 := g.AddAffine(B[d - 1], p)]
    requires L' == if g.Collides(B[d - 1], p) then L[d - 1 := g.plus(L[d - 1], g.plus(p, p))] else L
    ensures g.plus(WeightedFrom(g, B', 0), WeightedFrom(g, L', 0))
         == g.plus(g.plus(WeightedFrom(g, B, 0), WeightedFrom(g, L, 0)), g.Mul(d, p))
  {
    hide WeightedFrom, Group.Lawful;
    var b, l, x := WeightedFrom(g, B, 0), WeightedFrom(g, L, 0), g.Mul(d, p);
    g.AddAffineIsSum(B[d - 1], p);
    if g.Collides(B[d - 1], p) {
      IdentityIsUnit(g, p);
      assert B == B'[d - 1 := g.plus(B'[d - 1], p)];
      WeightedAdd(g, B', B, d - 1, p, 0);
      WeightedAdd(g, L, L', d - 1, g.plus(p, p), 0);
      g.MulPlus(d, p, p);
      PutBack(g, WeightedFrom(g, B', 0), l, x);
    } else {
      WeightedAdd(g, B, B', d - 1, p, 0);
      SwapLast(g, b, x, l);
    }
  }

  lemma IdentityIsUnit<P(!new)>(g: Group<P>, p: P)
    requires g.Lawful()
    ensures g.Unit(p)
  {}

  /** b + (l + 2x) = ((b + x) + l) + x */
  lemma PutBack<P(!new)>(g: Group<P>, b: P, l: P, x: P)
    requires g.Lawful()
    ensures g.plus(b, g.plus(l, g.plus(x, x))) == g.plus(g.plus(g.plus(b, x), l), x)
  {
    assert g.Assoc(l, x, x) && g.Comm(l, x) && g.Assoc(x, l, x) && g.Assoc(b, x, g.plus(l, x));
    assert g.Assoc(g.plus(b, x), l, x);
  }

  /** (b + x) + l = (b + l) + x */
  lemma SwapLast<P(!new)>(g: Group<P>, b: P, x: P, l: P)
    requires g.Lawful()
    ensures g.plus(g.plus(b, x), l) == g.plus(g.plus(b, l), x)
  {
    assert g.Assoc(b, x, l) && g.Comm(x, l) && g.Assoc(b, l, x);
  }

  lemma {:induction false} WindowTotal<P(!new)>(g: Group<P>, digits: seq<nat>, points: seq<P>, m: nat, i: nat)
    requires g.Lawful() && i <= |digits| == |points| && forall k :: 0 <= k < |digits| ==> digits[k] <= m
    ensures g.plus(WeightedFrom(g, Filled(g, digits, points, m, i), 0), WeightedFrom(g, Lost(g, digits, points, m, i), 0))
         == Combination(g, digits, points, i)
  {
    if i == 0 {
      SuffixOfZeros(g, m, 0);
      assert g.Unit(g.zero);
    } else {
      WindowTotal(g, digits, points, m, i - 1);
      var B, L := Filled(g, digits, points, m, i - 1), Lost(g, digits, points, m, i - 1);
      if digits[i - 1] > 0 {
        PointStep(g, B, L, Filled(g, digits, points, m, i), Lost(g, digits, points, m, i), digits[i - 1], points[i - 1]);
      } else {
        assert g.Unit(Combination(g, digits, points, i - 1));
      }
    }
  }

  /** The running-sum identity: bucket t counts t + 1 times. */
  lemma {:induction false} RunningSum<P(!new)>(g: Group<P>, B: seq<P>, k: nat)
    requires g.Lawful() && k <= |B|
    ensures WeightedFrom(g, B[..k] + Zeros(g, |B| - k), 0) == BucketTotal(g, B, k)
  {
    var C := B[..k] + Zeros(g, |B| - k);
    if k == 0 {
      SuffixOfZeros(g, |B|, 0);
      assert C == Zeros(g, |B|);
    } else {
      var C' := B[..k - 1] + Zeros(g, |B| - k + 1);
      RunningSum(g, B, k - 1);
      assert g.Unit(B[k - 1]);
      assert C == C'[k - 1 := g.plus(C'[k - 1], B[k - 1])];
      WeightedAdd(g, C', C, k - 1, B[k - 1], 0);
    }
  }

  // ── Windows from the top: Horner's rule ──────────────────────────

  function NumWindows(width: nat): (n: nat)
    requires width > 0
    ensures n * width >= 256 && n > 0
  {
    (256 + width - 1) / width
  }

  ghost function Digit(s: U256, k: nat, width: nat): (d: nat)
    requires 1 <= width <= 63
    ensures d <= Pow(2, width) - 1
  {
    DigitBound(s, k, width);
    ExtractWindow(s, k, width)
  }

  ghost function Digits(scalars: seq<U256>, k: nat, width: nat): (d: seq<nat>)
    requires 1 <= width <= 63
    ensures |d| == |scalars| && forall i :: 0 <= i < |d| ==> d[i] <= Pow(2, width) - 1
  {
    seq(|scalars|, i requires 0 <= i < |scalars| => Digit(scalars[i], k, width))
  }

  lemma DigitBound(s: U256, k: nat, width: nat)
    requires 1 <= width <= 63
    ensures ExtractWindow(s, k, width) < Pow(2, width)
  {
    WindowIsField(s, k, width);
    LowAndHigh(ShiftRight(Value(s), k * width), width);
  }

  /** The scalars with everything below window k shifted out. */
  ghost function Heads(scalars: seq<U256>, k: nat, width: nat): (h: seq<nat>)
    ensures |h| == |scalars|
  {
    MulMonotone(0, k, width);
    seq(|scalars|, i requires 0 <= i < |scalars| => ShiftRight(Value(scalars[i]), k * width))
  }

  ghost function Values(scalars: seq<U256>): (v: seq<nat>)
    ensures |v| == |scalars|
  {
    seq(|scalars|, i requires 0 <= i < |scalars| => Value(scalars[i]))
  }

  /** s[0] P[0] + ... + s[n-1] P[n-1], each scalar the plain 256-bit number in its limbs. */
  ghost function Msm<P(!new)>(g: Group<P>, scalars: seq<U256>, points: seq<P>): P
    requires |scalars| == |points|
  {
    Combination(g, Values(scalars), points, |points|)
  }

  lemma HeadStep(s: U256, k: nat, width: nat)
    requires 1 <= width <= 63
    ensures k * width >= 0 && (k + 1) * width >= 0
    ensures ShiftRight(Value(s), k * width)
         == Scaled(Pow(2, width), ShiftRight(Value(s), (k + 1) * width)) + ExtractWindow(s, k, width)
  {
    MulMonotone(0, k, width);
    assert (k + 1) * width == k * width + width;
    ShiftTwice(Value(s), k * width, width);
    LowAndHigh(ShiftRight(Value(s), k * width), width);
    WindowIsField(s, k, width);
  }

  lemma {:induction false} HornerStep<P(!new)>(g: Group<P>, scalars: seq<U256>, points: seq<P>, k: nat, width: nat, i: nat)
    requires g.Lawful() && |scalars| == |points| && 1 <= width <= 63 && i <= |points|
    ensures Combination(g, Heads(scalars, k, width), points, i)
         == g.plus(g.Mul(Pow(2, width), Combination(g, Heads(scalars, k + 1, width), points, i)),
                   Combination(g, Digits(scalars, k, width), points, i))
  {
    hide Pow;
    if i == 0 {
      g.MulZero(Pow(2, width));
      assert g.Unit(g.zero);
    } else {
      HornerStep(g, scalars, points, k, width, i - 1);
      HeadStep(scalars[i - 1], k, width);
      HornerPoint(g, Combination(g, Heads(scalars, k + 1, width), points, i - 1),
                  Combination(g, Digits(scalars, k, width), points, i - 1), points[i - 1],
                  Pow(2, width), Heads(scalars, k + 1, width)[i - 1], Digits(scalars, k, width)[i - 1]);
    }
  }

  lemma HornerPoint<P(!new)>(g: Group<P>, a: P, b: P, p: P, m: nat, h: nat, d: nat)
    requires g.Lawful()
    ensures g.plus(g.plus(g.Mul(m, a), b), g.Mul(Scaled(m, h) + d, p))
         == g.plus(g.Mul(m, g.plus(a, g.Mul(h, p))), g.plus(b, g.Mul(d, p)))
  {
    g.MulAdd(Scaled(m, h), d, p);
    g.MulMul(m, h, p);
    g.MulPlus(m, a, g.Mul(h, p));
    g.Swap(g.Mul(m, a), b, g.Mul(m, g.Mul(h, p)), g.Mul(d, p));
  }

  lemma {:induction false} CombinationOfZeros<P(!new)>(g: Group<P>, d: seq<nat>, points: seq<P>, i: nat)
    requires g.Lawful() && i <= |d| == |points| && forall k :: 0 <= k < |d| ==> d[k] == 0
    ensures Combination(g, d, points, i) == g.zero
  {
    assert g.Unit(g.zero);
    if i > 0 { CombinationOfZeros(g, d, points, i - 1); }
  }

  lemma TopHeads(scalars: seq<U256>, width: nat)
    requires 1 <= width <= 63
    ensures forall i :: 0 <= i < |scalars| ==> Heads(scalars, NumWindows(width), width)[i] == 0
  {
    var n := NumWindows(width);
    forall i | 0 <= i < |scalars| ensures Heads(scalars, n, width)[i] == 0 {
      ShiftTwice(Value(scalars[i]), 256, n * width - 256);
      ValueShift(scalars[i], 4);
      ShiftZero(n * width - 256);
    }
  }

  lemma BottomHeads(scalars: seq<U256>, width: nat)
    ensures Heads(scalars, 0, width) == Values(scalars)
  {}

  // ── What collisions cost ─────────────────────────────────────────

  /** Losses of window k and everything above it, at the weight they have when window k is done. */
  ghost function Deficit<P(!new)>(g: Group<P>, scalars: seq<U256>, points: seq<P>, width: nat, k: nat): P
    requires |scalars| == |points| && 1 <= width <= 63
    decreases NumWindows(width) - k
  {
    if k >= NumWindows(width) then g.zero
    else g.plus(g.Mul(Pow(2, width), Deficit(g, scalars, points, width, k + 1)), WindowLoss(g, scalars, points, width, k))
  }

  ghost function WindowLoss<P(!new)>(g: Group<P>, scalars: seq<U256>, points: seq<P>, width: nat, k: nat): P
    requires |scalars| == |points| && 1 <= width <= 63
  {
    WeightedFrom(g, Lost(g, Digits(scalars, k, width), points, Pow(2, width) - 1, |points|), 0)
  }

  /** No point is ever added to a bucket that already holds it. */
  ghost predicate NoCollisions<P(!new)>(g: Group<P>, scalars: seq<U256>, points: seq<P>, width: nat)
    requires |scalars| == |points| && 1 <= width <= 63
  {
    forall k: nat, i: nat :: k < NumWindows(width) && i < |points| ==> Safe(g, scalars, points, width, k, i)
  }

  ghost predicate Safe<P(!new)>(g: Group<P>, scalars: seq<U256>, points: seq<P>, width: nat, k: nat, i: nat)
    requires i < |scalars| == |points| && 1 <= width <= 63
  {
    var d := Digits(scalars, k, width);
    d[i] > 0 ==> !g.Collides(Filled(g, d, points, Pow(2, width) - 1, i)[d[i] - 1], points[i])
  }

  lemma {:induction false} NothingLost<P(!new)>(g: Group<P>, scalars: seq<U256>, points: seq<P>, width: nat, k: nat, i: nat)
    requires |scalars| == |points| && 1 <= width <= 63 && i <= |points|
    requires k < NumWindows(width) && NoCollisions(g, scalars, points, width)
    ensures Lost(g, Digits(scalars, k, width), points, Pow(2, width) - 1, i) == Zeros(g, Pow(2, width) - 1)
  {
    if i > 0 {
      NothingLost(g, scalars, points, width, k, i - 1);
      assert Safe(g, scalars, points, width, k, i - 1);
    }
  }

  lemma {:induction false} NoDeficit<P(!new)>(g: Group<P>, scalars: seq<U256>, points: seq<P>, width: nat, k: nat)
    requires g.Lawful() && |scalars| == |points| && 1 <= width <= 63
    requires NoCollisions(g, scalars, points, width)
    ensures Deficit(g, scalars, points, width, k) == g.zero
    decreases NumWindows(width) - k
  {
    if k < NumWindows(width) {
      NoDeficit(g, scalars, points, width, k + 1);
      NothingLost(g, scalars, points, width, k, |points|);
      SuffixOfZeros(g, Pow(2, width) - 1, 0);
      g.MulZero(Pow(2, width));
      assert g.Unit(g.zero);
    }
  }

  /** Adding one window to the Horner accumulation. */
  lemma WindowStep<P(!new)>(g: Group<P>, scalars: seq<U256>, points: seq<P>, width: nat, k: nat, r: P, sum: P)
    requires g.Lawful() && |scalars| == |points| && 1 <= width <= 63 && k < NumWindows(width)
    requires g.plus(r, Deficit(g, scalars, points, width, k + 1))
          == Combination(g, Heads(scalars, k + 1, width), points, |points|)
    requires sum == WeightedFrom(g, Filled(g, Digits(scalars, k, width), points, Pow(2, width) - 1, |points|), 0)
    ensures g.plus(g.plus(g.Mul(Pow(2, width), r), sum), Deficit(g, scalars, points, width, k))
         == Combination(g, Heads(scalars, k, width), points, |points|)
  {
    var m, d, l := Pow(2, width), Deficit(g, scalars, points, width, k + 1), WindowLoss(g, scalars, points, width, k);
    HornerStep(g, scalars, points, k, width, |points|);
    WindowTotal(g, Digits(scalars, k, width), points, m - 1, |points|);
    g.MulPlus(m, r, d);
    g.Swap(g.Mul(m, r), sum, g.Mul(m, d), l);
  }

  method PippengerMsm<P(!new, ==)>(g: Group<P>, scalars: seq<U256>, points: seq<P>, width: nat) returns (result: P)
    requires g.Lawful() && |scalars| == |points| && 1 <= width <= 63
    ensures g.plus(result, Deficit(g, scalars, points, width, 0)) == Msm(g, scalars, points)
    ensures result == Msm(g, scalars, points) <==> Deficit(g, scalars, points, width, 0) == g.zero
    ensures NoCollisions(g, scalars, points, width) ==> result == Msm(g, scalars, points)
  {
    hide *;
    if |points| == 0 {
      result := g.zero;
      EmptyInput(g, scalars, points, width);
    } else {
      var numWindows := NumWindows(width);
      result := g.zero;
      TopWindow(g, scalars, points, width);
      var k := numWindows;
      while k > 0
        invariant 0 <= k <= numWindows
        invariant k == numWindows ==> result == g.zero
        invariant g.plus(result, Deficit(g, scalars, points, width, k))
               == Combination(g, Heads(scalars, k, width), points, |points|)
      {
        k := k - 1;
        ghost var before := result;
        DoubledZero(g, width);
        if k < numWindows - 1 {
          result := Doubled(g, result, width);
        }
        var buckets := Distribute(g, scalars, points, k, width);
        var windowSum := Aggregate(g, buckets);
        WindowStep(g, scalars, points, width, k, before, windowSum);
        result := g.plus(result, windowSum);
      }
      BottomHeads(scalars, width);
      MsmIs(g, scalars, points);
    }
    Verdict(g, result, scalars, points, width);
  }

  lemma MsmIs<P(!new)>(g: Group<P>, scalars: seq<U256>, points: seq<P>)
    requires |scalars| == |points|
    ensures Msm(g, scalars, points) == Combination(g, Values(scalars), points, |points|)
  {}

  lemma DoubledZero<P(!new)>(g: Group<P>, width: nat)
    requires g.Lawful()
    ensures g.Mul(Pow(2, width), g.zero) == g.zero
  {
    g.MulZero(Pow(2, width));
  }

  lemma TopWindow<P(!new)>(g: Group<P>, scalars: seq<U256>, points: seq<P>, width: nat)
    requires g.Lawful() && |scalars| == |points| && 1 <= width <= 63
    ensures g.plus(g.zero, Deficit(g, scalars, points, width, NumWindows(width)))
         == Combination(g, Heads(scalars, NumWindows(width), width), points, |points|)
  {
    TopHeads(scalars, width);
    CombinationOfZeros(g, Heads(scalars, NumWindows(width), width), points, |points|);
    assert g.Unit(g.zero);
  }

  lemma EmptyInput<P(!new)>(g: Group<P>, scalars: seq<U256>, points: seq<P>, width: nat)
    requires g.Lawful() && |scalars| == |points| == 0 && 1 <= width <= 63
    ensures g.plus(g.zero, Deficit(g, scalars, points, width, 0)) == Msm(g, scalars, points)
  {
    assert NoCollisions(g, scalars, points, width);
    NoDeficit(g, scalars, points, width, 0);
    assert g.Unit(g.zero);
  }

  lemma Verdict<P(!new)>(g: Group<P>, r: P, scalars: seq<U256>, points: seq<P>, width: nat)
    requires g.Lawful() && |scalars| == |points| && 1 <= width <= 63
    requires g.plus(r, Deficit(g, scalars, points, width, 0)) == Msm(g, scalars, points)
    ensures r == Msm(g, scalars, points) <==> Deficit(g, scalars, points, width, 0) == g.zero
    ensures NoCollisions(g, scalars, points, width) ==> r == Msm(g, scalars, points)
  {
    g.Cancel(r, Deficit(g, scalars, points, width, 0));
    if NoCollisions(g, scalars, points, width) { NoDeficit(g, scalars, points, width, 0); }
  }

  /** width doublings */
  method Doubled<P(!new, ==)>(g: Group<P>, x: P, width: nat) returns (r: P)
    requires g.Lawful()
    ensures r == g.Mul(Pow(2, width), x)
  {
    r := x;
    assert g.Unit(x) && g.Mul(1, x) == g.plus(x, g.Mul(0, x));
    for i := 0 to width
      invariant r == g.Mul(Pow(2, i), x)
    {
      g.DoubleStep(i, x);
      r := g.plus(r, r);
    }
  }

  /** Adds every point to the bucket its window selects; bucket 0 is never stored. */
  method Distribute<P(!new, ==)>(g: Group<P>, scalars: seq<U256>, points: seq<P>, k: nat, width: nat)
    returns (buckets: array<P>)
    requires |scalars| == |points| && 1 <= width <= 63
    ensures fresh(buckets)
    ensures buckets[..] == Filled(g, Digits(scalars, k, width), points, Pow(2, width) - 1, |points|)
  {
    hide ExtractWindow, Pow;
    var numBuckets := Pow(2, width) - 1;
    buckets := new P[numBuckets](_ => g.zero);
    ghost var d := Digits(scalars, k, width);
    assert buckets[..] == Zeros(g, numBuckets);
    for i := 0 to |points|
      invariant buckets[..] == Filled(g, d, points, numBuckets, i)
    {
      var idx := ExtractWindow(scalars[i], k, width);
      assert idx == d[i];
      if idx > 0 {
        buckets[idx - 1] := g.AddAffine(buckets[idx - 1], points[i]);
      }
    }
  }

  /** The running sum from the top bucket. */
  method Aggregate<P(!new, ==)>(g: Group<P>, buckets: array<P>) returns (windowSum: P)
    ensures windowSum == WeightedFrom(g, buckets[..], 0)
  {
    var runningSum := g.zero;
    windowSum := g.zero;
    var j := buckets.Length;
    while j > 0
      invariant 0 <= j <= buckets.Length
      invariant runningSum == SuffixSum(g, buckets[..], j)
      invariant windowSum == WeightedFrom(g, buckets[..], j)
    {
      j := j - 1;
      runningSum := g.plus(runningSum, buckets[j]);
      windowSum := g.plus(windowSum, runningSum);
    }
  }

  const ONE: U256 := [1, 0, 0, 0]

  lemma DigitOfOne(k: nat, width: nat)
    requires 1 <= width <= 63
    ensures Digit(ONE, k, width) == if k == 0 then 1 else 0
  {
    Value4(ONE);
    WindowIsField(ONE, k, width);
    PowMonotone(2, 0, width);
    MulMonotone(0, k, width);
    if k == 0 {
      LowOfSmall(1, width);
    } else {
      MulMonotone(1, k, width);
      ShiftZero(k * width - 1);
      LowOfSmall(0, width);
    }
  }

  lemma {:induction false} UnusedWindow<P(!new)>(g: Group<P>, d: seq<nat>, points: seq<P>, m: nat, i: nat)
    requires i <= |d| == |points| && forall k :: 0 <= k < |d| ==> d[k] == 0
    ensures Lost(g, d, points, m, i) == Zeros(g, m)
  {
    if i > 0 { UnusedWindow(g, d, points, m, i - 1); }
  }

  lemma {:induction false} NoLossAbove<P(!new)>(g: Group<P>, p: P, width: nat, k: nat)
    requires g.Lawful() && 1 <= width <= 63 && k >= 1
    ensures Deficit(g, [ONE, ONE], [p, p], width, k) == g.zero
    decreases NumWindows(width) - k
  {
    if k < NumWindows(width) {
      NoLossAbove(g, p, width, k + 1);
      DigitOfOne(k, width);
      UnusedWindow(g, Digits([ONE, ONE], k, width), [p, p], Pow(2, width) - 1, 2);
      SuffixOfZeros(g, Pow(2, width) - 1, 0);
      g.MulZero(Pow(2, width));
      assert g.Unit(g.zero);
    }
  }

  lemma LossOfPair<P(!new)>(g: Group<P>, d: seq<nat>, p: P, m: nat)
    requires g.Lawful() && p != g.zero && m >= 1 && d == [1, 1]
    ensures WeightedFrom(g, Lost(g, d, [p, p], m, 2), 0) == g.plus(p, p)
  {
    var z := Zeros(g, m);
    assert Lost(g, d, [p, p], m, 0) == z == Filled(g, d, [p, p], m, 0);
    assert Lost(g, d, [p, p], m, 1) == z && Filled(g, d, [p, p], m, 1) == z[0 := p];
    var q := g.plus(p, p);
    assert Lost(g, d, [p, p], m, 2) == z[0 := g.plus(z[0], q)];
    WeightedAdd(g, z, Lost(g, d, [p, p], m, 2), 0, q, 0);
    SuffixOfZeros(g, m, 0);
    assert g.Unit(q) && g.Mul(1, q) == g.plus(q, g.Mul(0, q));
  }

  /** The simplest failing input, at every window width: the same point twice with scalar one is lost entirely. */
  lemma RepeatedPointIsLost<P(!new)>(g: Group<P>, p: P, width: nat)
    requires g.Lawful() && p != g.zero && 1 <= width <= 63
    ensures Deficit(g, [ONE, ONE], [p, p], width, 0) == g.plus(p, p)
    ensures Msm(g, [ONE, ONE], [p, p]) == g.plus(p, p)
  {
    var s, q := [ONE, ONE], g.plus(p, p);
    DigitOfOne(0, width);
    PowMonotone(2, 0, width);
    assert Digits(s, 0, width) == [1, 1];
    LossOfPair(g, [1, 1], p, Pow(2, width) - 1);
    NoLossAbove(g, p, width, 1);
    g.MulZero(Pow(2, width));
    assert g.Unit(q);
    PairSum(g, p);
  }

  lemma PairSum<P(!new)>(g: Group<P>, p: P)
    requires g.Lawful()
    ensures Msm(g, [ONE, ONE], [p, p]) == g.plus(p, p)
  {
    Value4(ONE);
    var v := Values([ONE, ONE]);
    assert v == [1, 1] && g.Unit(p);
    assert g.Mul(1, p) == g.plus(p, g.Mul(0, p));
    assert Combination(g, v, [p, p], 1) == g.plus(Combination(g, v, [p, p], 0), g.Mul(1, p));
  }
}
