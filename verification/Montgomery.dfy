/** 256-bit Montgomery arithmetic on four 64-bit limbs, for the BN254 scalar field modulus. */
module Montgomery {
  import opened Arith
  import opened Bits
  import opened Primes

  const W: nat := 0x1_0000_0000_0000_0000
  const U128: nat := 0x1_0000_0000_0000_0000_0000_0000_0000_0000

  type Word = x: nat | x < W

  /** The number with little-endian base-2^64 digits s. */
  function Value(s: seq<nat>): (v: nat)
  {
    if |s| == 0 then 0 else s[0] + W * Value(s[1..])
  }

  type U256 = s: seq<Word> | |s| == 4 witness [0, 0, 0, 0]

  const MODULUS: U256 := [0x43e1f593f0000001, 0x2833e84879b97091, 0xb85045b68181585d, 0x30644e72e131a029]
  const P: nat := 21888242871839275222246405745257275088548364400416034343698204186575808495617
  const MONT_R: U256 := [0xac96341c4ffffffb, 0x36fc76959f60cd29, 0x666ea36f7879462e, 0x0e0a77c19a07df2f]
  const MONT_R2: U256 := [0x1bb8e645ae216da7, 0x53fe3ab1e35c59e3, 0x8c49833d53bb8085, 0x0216d0b17f4e44a5]
  const INV: Word := 0xc2e1f593efffffff

  /** The inverse of R = 2^256 modulo P. */
  const R_INVERSE: nat := 9915499612839321149637521777990102151350674507940716049588462388200839649614

  /** A reduced Montgomery representative. */
  type Fe = x: U256 | Value(x) < P witness [0, 0, 0, 0]

  /** The residue that a 256-bit number stands for. */
  function Decode(x: U256): (v: nat)
    ensures v < P
  {
    Value(x) * R_INVERSE % P
  }

  // ── Limb sequences as numbers ────────────────────────────────────

  lemma Value4(s: seq<nat>)
    requires |s| == 4
    ensures Value(s) == s[0] + W * (s[1] + W * (s[2] + W * s[3]))
  {
    assert s[1..][1..] == s[2..] && s[2..][1..] == s[3..] && s[3..][1..] == [];
    assert Value(s[3..]) == s[3] + W * Value([]);
    assert Value(s[2..]) == s[2] + W * Value(s[3..]);
  }

  lemma {:induction false} ValueAppend(s: seq<nat>, d: nat)
    ensures Value(s + [d]) == Value(s) + d * Pow(W, |s|)
  {
    if |s| > 0 {
      ValueAppend(s[1..], d);
      assert (s + [d])[1..] == s[1..] + [d];
      MulSwap(W, 1, Pow(W, |s| - 1), d);
      assert W * (d * Pow(W, |s| - 1)) == d * Pow(W, |s|);
    } else {
      assert (s + [d])[1..] == [];
    }
  }

  lemma ValueTake(s: seq<nat>, j: nat)
    requires j < |s|
    ensures Value(s[..j + 1]) == Value(s[..j]) + s[j] * Pow(W, j)
  {
    assert s[..j + 1] == s[..j] + [s[j]];
    ValueAppend(s[..j], s[j]);
  }

  lemma {:induction false} ValueBound(s: seq<nat>)
    requires forall i :: 0 <= i < |s| ==> s[i] < W
    ensures Value(s) < Pow(W, |s|)
  {
    if |s| > 0 {
      ValueBound(s[1..]);
      BoundStep(s[0], Value(s[1..]), Pow(W, |s| - 1));
    }
  }

  lemma BoundStep(d: nat, v: nat, p: nat)
    requires d < W && v < p
    ensures d + W * v < W * p
  {}

  lemma ConstantsAgree()
    ensures Value(MODULUS) == P && Value(MONT_R) < P && Value(MONT_R2) < P
    ensures Value(MONT_R) == Pow(W, 4) % P && Value(MONT_R2) == Pow(W, 4) * Pow(W, 4) % P
    ensures Pow(W, 4) == W * W * W * W
    ensures Pow(W, 4) * R_INVERSE % P == 1
    ensures (INV * MODULUS[0] + 1) % W == 0
    ensures 4 * P < Pow(W, 4)
  {
    Value4(MODULUS);
    Value4(MONT_R);
    Value4(MONT_R2);
    assert Pow(W, 4) == W * (W * (W * (W * Pow(W, 0))));
  }

  // ── CIOS multiplication ──────────────────────────────────────────

  ghost predicate Lanes(t: seq<nat>)
  {
    |t| == 5 && forall i :: 0 <= i < 5 ==> t[i] < W
  }

  /** Storing digit d in lane j and carrying c' accounts for adding s at that position. */
  lemma Lane(r: seq<nat>, d: nat, c: int, c': int, total: int, s: int, j: nat)
    requires j < |r| && Value(r[..j]) + c * Pow(W, j) == total && d + c' * W == s + c
    ensures Value(r[j := d][..j + 1]) + c' * Pow(W, j + 1) == total + s * Pow(W, j)
  {
    var u, p := r[j := d], Pow(W, j);
    ValueTake(u, j);
    assert u[..j] == r[..j];
    CarryStep(d, c', s, c, p);
  }

  lemma CarryStep(d: int, c': int, s: int, c: int, p: int)
    requires d + c' * W == s + c
    ensures d * p + c' * (W * p) == s * p + c * p
  {
    assert (d + c' * W) * p == d * p + c' * (W * p);
  }

  lemma TakeMulAdd(t: seq<nat>, x: seq<nat>, k: nat, j: nat)
    requires j < |t| && j < |x|
    ensures Value(t[..j + 1]) + Value(x[..j + 1]) * k
         == Value(t[..j]) + Value(x[..j]) * k + (t[j] + x[j] * k) * Pow(W, j)
  {
    ValueTake(t, j);
    ValueTake(x, j);
    MulAddStep(Value(x[..j]), t[j], x[j], k, Pow(W, j));
  }

  lemma MulAddStep(v: int, t: int, x: int, k: int, p: int)
    ensures t * p + (v + x * p) * k == v * k + (t + x * k) * p
  {}

  /** t += x * k, leaving normalised lanes. The sum must fit the five lanes. */
  method MulAddRow(t: seq<nat>, x: U256, k: Word) returns (r: seq<nat>)
    requires Lanes(t) && Value(t) + Value(x) * k < Pow(W, 5)
    ensures Lanes(r) && Value(r) == Value(t) + Value(x) * k
  {
    hide *;
    r := t;
    var carry: nat := 0;
    NothingAdded(t, x, k);
    for j := 0 to 4
      invariant |r| == |t| == 5 && Partial(r, t, j) && carry < W
      invariant Accounts(r, t, x, k, carry, j)
    {
      LaneLeft(r, t, j);
      LaneFits(t[j], x[j], k, carry);
      var sum := MulAdd(r[j], x[j], k, carry);
      assert sum < U128;                      // the u128 lane does not overflow
      MulAddLane(r, t, x, k, carry, sum, j);
      LaneStored(r, t, j, sum);
      carry := sum / W;
      r := r[j := sum % W];
    }
    LaneLeft(r, t, 4);
    assert r[4] + carry < U128;
    AllLimbs(r, t, x, k, carry);
    LastLane(r, t, carry, Value(x) * k);
    r := r[4 := r[4] + carry];
  }

  function MulAdd(t: nat, x: nat, k: nat, carry: nat): nat
  {
    MulMonotone(0, x, k);
    t + x * k + carry
  }

  ghost predicate Accounts(r: seq<nat>, t: seq<nat>, x: U256, k: nat, carry: nat, j: nat)
  {
    |r| == |t| == 5 && j <= 4 && Value(r[..j]) + carry * Pow(W, j) == Value(t[..j]) + Value(x[..j]) * k
  }

  /** Lanes before j are rewritten, the others are still those of t. */
  ghost predicate Partial(r: seq<nat>, t: seq<nat>, j: nat)
  {
    && |r| == 5 && j < 5 && Lanes(t) && r[j..] == t[j..]
    && forall i :: 0 <= i < j ==> r[i] < W
  }

  lemma NothingAdded(t: seq<nat>, x: U256, k: Word)
    requires Lanes(t)
    ensures |t| == 5 && Partial(t, t, 0) && 0 < W
    ensures Accounts(t, t, x, k, 0, 0)
  {}

  lemma LaneLeft(r: seq<nat>, t: seq<nat>, j: nat)
    requires Partial(r, t, j)
    ensures |r| == |t| == 5 && j < 5 && r[j] == t[j] < W && 2 * W < U128
  {
    assert r[j] == r[j..][0] == t[j];
  }

  lemma LaneStored(r: seq<nat>, t: seq<nat>, j: nat, sum: nat)
    requires j < 4 && Partial(r, t, j)
    ensures |r| == 5 && Partial(r[j := sum % W], t, j + 1)
  {}

  lemma AllLimbs(r: seq<nat>, t: seq<nat>, x: U256, k: nat, carry: nat)
    requires Accounts(r, t, x, k, carry, 4)
    ensures Value(x) * k >= 0 && Value(r[..4]) + carry * Pow(W, 4) == Value(t[..4]) + Value(x) * k
  {
    hide Value, Pow;
    assert x[..4] == x;
    MulMonotone(0, Value(x), k);
  }

  lemma LastLane(r: seq<nat>, t: seq<nat>, carry: nat, added: nat)
    requires Partial(r, t, 4) && Value(r[..4]) + carry * Pow(W, 4) == Value(t[..4]) + added
    requires Value(t) + added < Pow(W, 5)
    ensures var u := r[4 := r[4] + carry]; Lanes(u) && Value(u) == Value(t) + added
  {
    hide Pow, Value;
    LaneLeft(r, t, 4);
    TopLane(r, t, carry, added, 4);
    TopLaneFitsSeq(r[4 := r[4] + carry]);
  }

  lemma MulAddLane(r: seq<nat>, t: seq<nat>, x: U256, k: Word, carry: nat, sum: nat, j: nat)
    requires |r| == |t| == 5 && j < 4 && r[j] == t[j] && Accounts(r, t, x, k, carry, j)
    requires sum == MulAdd(r[j], x[j], k, carry)
    ensures Accounts(r[j := sum % W], t, x, k, sum / W, j + 1)
  {
    Lane(r, sum % W, carry, sum / W, Value(t[..j]) + Value(x[..j]) * k, t[j] + x[j] * k, j);
    TakeMulAdd(t, x, k, j);
  }

  lemma TopLane(r: seq<nat>, t: seq<nat>, carry: nat, x: nat, j: nat)
    requires |r| == |t| == j + 1 && r[j] == t[j]
    requires Value(r[..j]) + carry * Pow(W, j) == Value(t[..j]) + x
    ensures Value(r[j := r[j] + carry]) == Value(t) + x
  {
    hide *;
    var u := r[j := r[j] + carry];
    assert u[..j] == r[..j] && t[..j + 1] == t && u[..j + 1] == u;
    ValueTake(t, j);
    ValueTake(u, j);
    DistributeBoth(t[j], carry, Pow(W, j));
  }

  lemma TopLaneFitsSeq(u: seq<nat>)
    requires |u| == 5 && Value(u) < Pow(W, 5)
    ensures u[4] < W
  {
    assert u[..5] == u;
    ValueTake(u, 4);
    TopLaneFits(Value(u[..4]), u[4]);
  }

  lemma TopLaneFits(v: nat, d: nat)
    requires v + d * Pow(W, 4) < Pow(W, 5)
    ensures d < W
  {
    assert Pow(W, 5) == W * Pow(W, 4);
    if d >= W { MulMonotone(W, d, Pow(W, 4)); }
  }

  lemma LaneFits(t: nat, x: nat, k: nat, c: nat)
    requires t < W && x < W && k < W && c < W
    ensures MulAdd(t, x, k, c) < U128 && MulAdd(t, x, k, c) / W < W
  {
    MulMonotone(x, W - 1, k);
    MulMonotone(k, W - 1, W - 1);
  }

  /** One outer iteration: t := (t + a*bi + m*p) / 2^64, with m chosen so that the division is exact. */
  method MontRow(t: seq<nat>, a: U256, bi: Word) returns (r: seq<nat>)
    requires Lanes(t) && Value(t) < 2 * P && Value(a) < P
    ensures Lanes(r) && |r| == 5 && Value(r) < 2 * P && r[4] == 0
    ensures exists m: nat :: Value(r) * W == Value(t) + Value(a) * bi + Times(m, P)
  {
    ConstantsAgree();
    RowFits(Value(t), Value(a), bi, 0);
    var s := MulAddRow(t, a, bi);
    var m := s[0] * INV % W;
    RowFits(Value(t), Value(a), bi, m);
    var u := MulAddRow(s, MODULUS, m);
    LowLimbZero(s, u, m);
    r := [u[1], u[2], u[3], u[4], 0];
    assert r == u[1..] + [0];
    ValueAppend(u[1..], 0);
    assert P * m == Times(m, P);
    assert Value(r) * W == Value(t) + Value(a) * bi + Times(m, P);
  }

  lemma RowFits(t: nat, a: nat, bi: nat, m: nat)
    requires t < 2 * P && a < P && bi < W && m < W
    ensures t + a * bi + m * P < 2 * P * W < Pow(W, 5)
    ensures t + a * bi < Pow(W, 5)
  {
    ConstantsAgree();
    assert Pow(W, 5) == W * Pow(W, 4);
    MulMonotone(a, P, bi);
    MulMonotone(bi, W - 1, P);
    MulMonotone(m, W - 1, P);
  }

  /** The choice of m makes the low limb zero. */
  lemma LowLimbZero(s: seq<nat>, u: seq<nat>, m: nat)
    requires Lanes(s) && Lanes(u) && m == s[0] * INV % W && Value(u) == Value(s) + P * m
    ensures u[0] == 0
  {
    hide *;
    var p0, p', q := ModulusDigits();
    FirstDigit(s);
    FirstDigit(u);
    Gather(u[0], s[0], p0, p', m, Value(s[1..]), Value(u[1..]));
    CongIntro(u[0], s[0] + m * p0, Value(s[1..]) + p' * m - Value(u[1..]), W);
    LowDigitCancels(u[0], s[0], m, p0, q);
  }

  lemma FirstDigit(s: seq<nat>)
    requires Lanes(s)
    ensures |s| == 5 && s[0] < W && Value(s) == s[0] + W * Value(s[1..])
  {}

  lemma ModulusDigits() returns (p0: nat, p': nat, q: nat)
    ensures P == p0 + W * p' && INV * p0 + 1 == W * q
  {
    ConstantsAgree();
    p0, p', q := MODULUS[0], Value(MODULUS[1..]), (INV * MODULUS[0] + 1) / W;
  }

  lemma LowDigitCancels(u: Word, s: Word, m: nat, p0: nat, q: nat)
    requires INV * p0 + 1 == W * q && m == s * INV % W && Cong(u, s + m * p0, W)
    ensures u == 0
  {
    hide *;
    CongMod(s * INV, W);
    CongRefl(p0, W);
    CongMul(m, s * INV, p0, p0, W);
    CongRefl(s, W);
    CongAdd(s, s, m * p0, s * INV * p0, W);
    CancelTerm(s, INV, p0, q);
    CongIntro(s + s * INV * p0, 0, s * q, W);
    CongTrans(s + m * p0, s + s * INV * p0, 0, W);
    CongTrans(u, s + m * p0, 0, W);
    CongUnique(u, 0, W);
  }

  lemma CancelTerm(s: int, i: int, p: int, q: int)
    requires i * p + 1 == W * q
    ensures s + s * i * p == (s * q) * W
  {
    MulAssoc(s, i, p);
    assert s + s * (i * p) == s * (i * p + 1);
    assert s * (W * q) == (s * q) * W;
  }

  lemma Gather(u: int, s: int, p: int, p': int, m: int, sv: int, uv: int)
    requires u + W * uv == s + W * sv + (p + W * p') * m
    ensures u == s + m * p + (sv + p' * m - uv) * W
  {
    assert (p + W * p') * m == p * m + W * (p' * m);
  }

  /** a * b * 2^-256 modulo P, reduced: a below the modulus, b any 256-bit number. */
  method MontMul(a: Fe, b: U256) returns (r: Fe)
    ensures Cong(Value(r) * Pow(W, 4), Value(a) * Value(b), P)
    ensures Decode(r) == Decode(a) * Decode(b) % P
  {
    hide *;
    var t: seq<nat> := [0, 0, 0, 0, 0];
    NothingMultiplied(a, b);
    for i := 0 to 4
      invariant Lanes(t) && |t| == 5 && t[4] == 0 && Value(t) < 2 * P
      invariant Cong(Value(t) * Pow(W, i), Value(a) * Value(b[..i]), P)
    {
      ghost var before := t;
      t := MontRow(t, a, b[i]);
      ghost var m: nat :| Value(t) * W == Value(before) + Value(a) * b[i] + Times(m, P);
      ValueTake(b, i);
      NextPower(i);
      MulStep(Value(t), Value(before), Value(a), b[i], m, Pow(W, i), Value(b[..i]));
    }
    assert b[..4] == b;
    FourLanes(t);
    var result: U256 := [t[0], t[1], t[2], t[3]];
    ghost var v := Value(result);
    var reduce := GteModulus(result);
    if reduce {
      result := SubModulus(result);
    }
    ReduceCong(v, Value(result), Pow(W, 4), Value(a) * Value(b));
    r := result;
    DecodeProduct(a, b, r);
  }

  lemma NextPower(i: nat)
    ensures Pow(W, i + 1) == W * Pow(W, i)
  {}

  lemma NothingMultiplied(a: U256, b: U256)
    ensures Lanes([0, 0, 0, 0, 0]) && Value([0, 0, 0, 0, 0]) == 0 < 2 * P
    ensures Cong(0 * Pow(W, 0), Value(a) * Value(b[..0]), P)
  {
    hide Value, Pow;
    EmptyLanes();
    NoLimbs(b);
    CongRefl(0, P);
  }

  lemma EmptyLanes()
    ensures Lanes([0, 0, 0, 0, 0]) && Value([0, 0, 0, 0, 0]) == 0
  {
    ZeroValue(5);
    assert [0, 0, 0, 0, 0] == seq(5, _ => 0);
  }

  lemma NoLimbs(b: seq<nat>)
    ensures Value(b[..0]) == 0
  {}

  lemma FourLanes(t: seq<nat>)
    requires Lanes(t) && t[4] == 0
    ensures t[0] < W && t[1] < W && t[2] < W && t[3] < W && Value([t[0], t[1], t[2], t[3]]) == Value(t)
  {
    assert t == [t[0], t[1], t[2], t[3]] + [0];
    ValueAppend([t[0], t[1], t[2], t[3]], 0);
  }

  lemma {:induction false} ZeroValue(n: nat)
    ensures Value(seq(n, _ => 0)) == 0
  {
    if n > 0 {
      ZeroValue(n - 1);
      assert seq(n, _ => 0)[1..] == seq(n - 1, _ => 0);
    }
  }

  lemma MulStep(t': int, t: int, a: int, bi: int, m: int, p: int, bv: int)
    requires t' * W == t + a * bi + Times(m, P) && Cong(t * p, a * bv, P)
    ensures Cong(t' * (W * p), a * (bv + bi * p), P)
  {
    var k := CongFactor(t * p, a * bv, P);
    calc {
      t' * (W * p);
      { MulAssoc(t', W, p); }
      (t + a * bi + m * P) * p;
      t * p + a * bi * p + m * P * p;
      { assert m * P * p == m * p * P; }
      a * bv + k * P + a * bi * p + m * p * P;
      { assert (k + m * p) * P == k * P + m * p * P; assert a * (bv + bi * p) == a * bv + a * bi * p; }
      a * (bv + bi * p) + (k + m * p) * P;
    }
    CongIntro(t' * (W * p), a * (bv + bi * p), k + m * p, P);
  }

  lemma ReduceCong(v: nat, r: nat, p: int, ab: int)
    requires Cong(v * p, ab, P) && (r == v || r == v - P)
    ensures Cong(r * p, ab, P)
  {
    if r == v - P {
      assert (v - P) * p == v * p + (-p) * P;
      CongIntro(r * p, v * p, -p, P);
      CongTrans(r * p, v * p, ab, P);
    }
  }

  lemma DecodeCong(x: U256)
    ensures Cong(Decode(x), Value(x) * R_INVERSE, P)
  {
    CongMod(Value(x) * R_INVERSE, P);
  }

  /** Decode is the only residue v with v * 2^256 = Value(x) modulo P. */
  lemma DecodeUnique(x: U256, v: nat)
    requires v < P && Cong(v * Pow(W, 4), Value(x), P)
    ensures Decode(x) == v
  {
    ConstantsAgree();
    ModToCong(Pow(W, 4) * R_INVERSE, 1, P);
    CongScale(v, Pow(W, 4) * R_INVERSE, 1, P);
    CongMul(v * Pow(W, 4), Value(x), R_INVERSE, R_INVERSE, P) by { CongRefl(R_INVERSE, P); }
    MulAssoc(v, Pow(W, 4), R_INVERSE);
    CongSym(v * (Pow(W, 4) * R_INVERSE), v, P);
    CongTrans(v, v * (Pow(W, 4) * R_INVERSE), Value(x) * R_INVERSE, P);
    CongToMod(v, Value(x) * R_INVERSE, P);
    CongMod(v, P);
    CongUnique(v, v % P, P) by { CongMod(v, P); }
  }

  lemma DecodeProduct(a: U256, b: U256, r: U256)
    ensures Cong(Value(r) * Pow(W, 4), Value(a) * Value(b), P) ==> Decode(r) == Decode(a) * Decode(b) % P
  {
    var u, i, x, y, z := Pow(W, 4), R_INVERSE, Value(a), Value(b), Value(r);
    if Cong(z * u, x * y, P) {
      ConstantsAgree();
      ModToCong(u * i, 1, P);
      ProductOfResidues(x, y, z, u, i, P);
      DecodeCong(a);
      DecodeCong(b);
      CongMul(Decode(a), x * i, Decode(b), y * i, P);
      CongSym(Decode(a) * Decode(b), (x * i) * (y * i), P);
      CongTrans(z * i, (x * i) * (y * i), Decode(a) * Decode(b), P);
      CongToMod(z * i, Decode(a) * Decode(b), P);
    }
  }

  /** z u = x y and u i = 1 give z i = (x i)(y i). */
  lemma ProductOfResidues(x: int, y: int, z: int, u: int, i: int, q: int)
    requires Cong(z * u, x * y, q) && Cong(u * i, 1, q)
    ensures Cong(z * i, (x * i) * (y * i), q)
  {
    CongMul(z * u, x * y, i * i, i * i, q) by { CongRefl(i * i, q); }
    MulSwap(x, i, y, i);
    Regrouped(z, u, i);
    CongScale(z * i, u * i, 1, q);
    CongSym(z * i * (u * i), z * i, q);
    CongTrans(z * i, z * i * (u * i), (x * i) * (y * i), q);
  }

  lemma Regrouped(z: int, u: int, i: int)
    ensures z * u * (i * i) == z * i * (u * i)
  {
    MulSwap(z, u, i, i);
  }

  // ── Comparison, addition, subtraction ────────────────────────────

  method GteModulus(x: U256) returns (ge: bool)
    ensures ge <==> Value(x) >= P
  {
    ConstantsAgree();
    var i := 4;
    while i > 0
      invariant 0 <= i <= 4
      invariant x[i..] == MODULUS[i..]
    {
      i := i - 1;
      if x[i] > MODULUS[i] {
        CompareAt(MODULUS, x, i);
        return true;
      }
      if x[i] < MODULUS[i] {
        CompareAt(x, MODULUS, i);
        return false;
      }
      assert x[i..] == [x[i]] + x[i + 1..] && MODULUS[i..] == [x[i]] + MODULUS[i + 1..];
    }
    assert x == MODULUS;
    ge := true;
  }

  lemma {:induction false} ValueSplit(s: seq<nat>, j: nat)
    requires j <= |s|
    ensures Value(s) == Value(s[..j]) + Pow(W, j) * Value(s[j..])
    decreases |s| - j
  {
    if j == |s| {
      assert s[..j] == s;
    } else {
      ValueSplit(s, j + 1);
      ValueTake(s, j);
      assert s[j..][1..] == s[j + 1..];
      SplitStep(s[j], Value(s[j + 1..]), Pow(W, j));
    }
  }

  lemma SplitStep(d: int, v: int, p: int)
    ensures d * p + W * p * v == p * (d + W * v)
  {}

  /** The highest limb that differs decides the order. */
  lemma CompareAt(x: U256, y: U256, i: nat)
    requires i < 4 && x[i] < y[i] && x[i + 1..] == y[i + 1..]
    ensures Value(x) < Value(y)
  {
    hide Value, Pow;
    ValueSplit(x, i + 1);
    ValueSplit(y, i + 1);
    ValueTake(x, i);
    ValueTake(y, i);
    ValueBound(x[..i]);
    DigitDecides(Value(x[..i]), Value(y[..i]), x[i], y[i], Pow(W, i));
  }

  lemma DigitDecides(u: nat, v: nat, d: nat, e: nat, p: nat)
    requires u < p && d < e
    ensures u + d * p < v + e * p
  {
    MulMonotone(d + 1, e, p);
  }

  function OverflowingAdd(x: Word, y: Word): (r: (Word, bool))
    ensures r.0 + (if r.1 then W else 0) == x + y
  {
    if x + y < W then (x + y, false) else (x + y - W, true)
  }

  function OverflowingSub(x: Word, y: Word): (r: (Word, bool))
    ensures r.0 - (if r.1 then W else 0) == x - y
  {
    if x >= y then (x - y, false) else (x - y + W, true)
  }

  /** Limb-wise addition; the last carry is returned. */
  method AddLimbs(a: U256, b: U256) returns (r: U256, carry: Word)
    ensures carry <= 1 && Value(r) + carry * Pow(W, 4) == Value(a) + Value(b)
  {
    r := [0, 0, 0, 0];
    carry := 0;
    for i := 0 to 4
      invariant |r| == 4 && carry <= 1
      invariant Value(r[..i]) + carry * Pow(W, i) == Value(a[..i]) + Value(b[..i])
    {
      var (s1, c1) := OverflowingAdd(a[i], b[i]);
      var (s2, c2) := OverflowingAdd(s1, carry);
      var carry' := (if c1 then 1 else 0) + (if c2 then 1 else 0);
      Lane(r, s2, carry, carry', Value(a[..i]) + Value(b[..i]), (a[i] as int) + (b[i] as int), i);
      TakeSum(a, b, i);
      r, carry := r[i := s2], carry';
    }
    assert r[..4] == r && a[..4] == a && b[..4] == b;
  }

  lemma TakeSum(a: seq<nat>, b: seq<nat>, i: nat)
    requires i < |a| && i < |b|
    ensures Value(a[..i + 1]) + Value(b[..i + 1]) == Value(a[..i]) + Value(b[..i]) + (a[i] + b[i]) * Pow(W, i)
    ensures Value(a[..i + 1]) - Value(b[..i + 1]) == Value(a[..i]) - Value(b[..i]) + (a[i] - b[i]) * Pow(W, i)
  {
    ValueTake(a, i);
    ValueTake(b, i);
    DistributeBoth(a[i], b[i], Pow(W, i));
  }

  lemma DistributeBoth(a: int, b: int, p: int)
    ensures (a + b) * p == a * p + b * p
    ensures (a - b) * p == a * p - b * p
  {}

  method SubLimbs(a: U256, b: U256) returns (r: U256, borrow: Word)
    ensures borrow <= 1 && Value(r) - borrow * Pow(W, 4) == Value(a) - Value(b)
  {
    hide Pow;
    r := [0, 0, 0, 0];
    borrow := 0;
    for i := 0 to 4
      invariant |r| == 4 && borrow <= 1
      invariant Value(r[..i]) - borrow * Pow(W, i) == Value(a[..i]) - Value(b[..i])
    {
      var (d1, b1) := OverflowingSub(a[i], b[i]);
      var (d2, b2) := OverflowingSub(d1, borrow);
      var borrow' := (if b1 then 1 else 0) + (if b2 then 1 else 0);
      Lane(r, d2, -(borrow as int), -(borrow' as int), Value(a[..i]) - Value(b[..i]), (a[i] as int) - (b[i] as int), i);
      TakeSum(a, b, i);
      r, borrow := r[i := d2], borrow';
    }
    assert r[..4] == r && a[..4] == a && b[..4] == b;
  }

  lemma BorrowDecides(v: nat, borrow: nat, d: int)
    requires v < Pow(W, 4) && borrow <= 1 && v - borrow * Pow(W, 4) == d
    ensures borrow == (if d < 0 then 1 else 0)
  {}

  method SubModulus(x: U256) returns (r: U256)
    requires Value(x) >= P
    ensures Value(r) == Value(x) - P
  {
    ConstantsAgree();
    var borrow;
    r, borrow := SubLimbs(x, MODULUS);
    ValueBound(r);
    BorrowDecides(Value(r), borrow, Value(x) - P);
  }

  method MontAdd(a: Fe, b: Fe) returns (r: Fe)
    ensures Value(r) == (Value(a) + Value(b)) % P
    ensures Decode(r) == (Decode(a) + Decode(b)) % P
  {
    hide Pow, Value;
    ConstantsAgree();
    var s, carry := AddLimbs(a, b);
    assert carry == 0;
    var reduce := GteModulus(s);
    if reduce {
      s := SubModulus(s);
    }
    r := s;
    WrapOnce(Value(a) + Value(b), Value(r));
    DecodeLinear(a, b);
  }

  method MontSub(a: Fe, b: Fe) returns (r: Fe)
    ensures Value(r) == (Value(a) - Value(b)) % P
    ensures Decode(r) == (Decode(a) - Decode(b)) % P
  {
    hide Value;
    ConstantsAgree();
    var d, borrow := SubLimbs(a, b);
    ValueBound(d);
    BorrowDecides(Value(d), borrow, Value(a) - Value(b));
    if borrow > 0 {
      ghost var before := Value(d);
      var carry;
      d, carry := AddLimbs(d, MODULUS);
      ValueBound(d);
    }
    r := d;
    WrapOnce(Value(a) - Value(b), Value(r));
    DecodeLinear(a, b);
  }

  lemma WrapOnce(s: int, v: nat)
    requires v < P && (v == s || v == s - P || v == s + P)
    ensures s % P == v
  {
    var k := if v == s then 0 else if v == s - P then 1 else -1;
    CongIntro(s, v, k, P);
    CongToMod(s, v, P);
  }

  lemma DecodeLinear(a: U256, b: U256)
    ensures ((Value(a) + Value(b)) % P) * R_INVERSE % P == (Decode(a) + Decode(b)) % P
    ensures ((Value(a) - Value(b)) % P) * R_INVERSE % P == (Decode(a) - Decode(b)) % P
  {
    hide *;
    var x, y := Value(a), Value(b);
    DecodeCong(a);
    DecodeCong(b);
    DistributeBoth(x, y, R_INVERSE);
    CongAdd(Decode(a), x * R_INVERSE, Decode(b), y * R_INVERSE, P);
    DecodeResidue(x + y, Decode(a) + Decode(b));
    DecodeResidue(x - y, Decode(a) - Decode(b));
  }

  lemma DecodeResidue(s: int, d: int)
    requires Cong(d, s * R_INVERSE, P)
    ensures (s % P) * R_INVERSE % P == d % P
  {
    CongMod(s, P);
    CongMul(s % P, s, R_INVERSE, R_INVERSE, P) by { CongRefl(R_INVERSE, P); }
    CongSym(d, s * R_INVERSE, P);
    CongTrans((s % P) * R_INVERSE, s * R_INVERSE, d, P);
    CongToMod((s % P) * R_INVERSE, d, P);
  }

  // ── Conversion ───────────────────────────────────────────────────

  const ZERO: Fe := [0, 0, 0, 0]

  lemma UnitsDecode()
    ensures Value(MONT_R) < P && Decode(MONT_R) == 1 && Decode(ZERO) == 0
  {
    hide Value;
    ConstantsAgree();
    ZeroValue(4);
    assert ZERO == seq(4, _ => 0);
  }

  method ToMontgomery(x: Fe) returns (r: Fe)
    ensures Decode(r) == Value(x)
  {
    ConstantsAgree();
    r := MontMul(x, MONT_R2);
    var u := Pow(W, 4);
    ModToCong(Value(MONT_R2), u * u, P);
    CongScale(Value(x), Value(MONT_R2), u * u, P);
    CongTrans(Value(r) * u, Value(x) * Value(MONT_R2), Value(x) * (u * u), P);
    MulAssoc(Value(x), u, u);
    CancelR(Value(r), Value(x) * u);
    CongSym(Value(r), Value(x) * u, P);
    DecodeUnique(r, Value(x));
  }

  /** 2^256 is invertible modulo P, primality aside. */
  lemma CancelR(a: int, b: int)
    requires Cong(a * Pow(W, 4), b * Pow(W, 4), P)
    ensures Cong(a, b, P)
  {
    ConstantsAgree();
    var u, i := Pow(W, 4), R_INVERSE;
    ModToCong(u * i, 1, P);
    CongMul(a * u, b * u, i, i, P) by { CongRefl(i, P); }
    MulAssoc(a, u, i);
    MulAssoc(b, u, i);
    CongScale(a, u * i, 1, P);
    CongScale(b, u * i, 1, P);
    CongSym(a * (u * i), a, P);
    CongTrans(a, a * (u * i), b * (u * i), P);
    CongTrans(a, b * (u * i), b, P);
  }

  const RAW_ONE: U256 := [1, 0, 0, 0]

  method FromMontgomery(x: Fe) returns (r: Fe)
    ensures Value(r) == Decode(x)
  {
    r := MontMul(x, RAW_ONE);
    Value4(RAW_ONE);
    DecodeUnique(x, Value(r));
  }

  method FromU64(val: Word) returns (r: Fe)
    ensures Decode(r) == val
  {
    var raw: U256 := [val, 0, 0, 0];
    Value4(raw);
    ConstantsAgree();
    r := ToMontgomery(raw);
  }

  // ── Exponentiation ───────────────────────────────────────────────

  /** a if flag is 0, b if flag is 1, selected by masking instead of branching. */
  function SelectWord(a: Word, b: Word, flag: Word): nat
  {
    var mask := (W - flag) % W;      // 0 - flag, wrapping
    Xor(a, And(mask, Xor(a, b)))
  }

  lemma SelectWordSelects(a: Word, b: Word, flag: Word)
    requires flag <= 1
    ensures SelectWord(a, b, flag) == if flag == 0 then a else b
  {
    hide Xor, Pow;
    assert Pow(2, 64) == W by { TwoTo64(); }
    XorBounded(a, b, 64);
    if flag == 0 {
      XorZero(a);
    } else {
      AndAllOnes(Xor(a, b), 64);
      XorCancels(a, b);
    }
  }

  lemma TwoTo64()
    ensures Pow(2, 64) == W
  {
    hide Pow;
    TwoTo8();
    PowAdd(2, 8, 8);
    PowAdd(2, 16, 16);
    PowAdd(2, 32, 32);
  }

  lemma TwoTo8()
    ensures Pow(2, 8) == 256
  {}

  method ConditionalSelect(a: Fe, b: Fe, flag: Word) returns (r: Fe)
    requires flag <= 1
    ensures r == if flag == 0 then a else b
  {
    forall i | 0 <= i < 4 ensures SelectWord(a[i], b[i], flag) == if flag == 0 then a[i] else b[i] {
      SelectWordSelects(a[i], b[i], flag);
    }
    var s: seq<nat> := [SelectWord(a[0], b[0], flag), SelectWord(a[1], b[1], flag),
                        SelectWord(a[2], b[2], flag), SelectWord(a[3], b[3], flag)];
    assert s == if flag == 0 then a else b;
    r := s;
  }

  /** The exponent bits not yet consumed when bit `bit` of limb i is next. */
  function Remaining(exp: U256, i: nat, bit: nat): nat
    requires i < 4 && bit <= 64
  {
    ShiftRight(exp[i], bit) + Scaled(Pow(2, 64 - bit), Value(exp[i + 1..]))
  }

  function Scaled(k: nat, v: nat): nat
  {
    MulMonotone(0, k, v);
    k * v
  }

  lemma ScaledTwice(k: nat, v: nat)
    ensures Scaled(Pow(2, k + 1), v) == 2 * Scaled(Pow(2, k), v)
  {
    MulAssoc(2, Pow(2, k), v);
  }

  lemma RemainingStep(exp: U256, i: nat, bit: nat)
    requires i < 4 && bit < 64
    ensures Remaining(exp, i, bit) % 2 == ShiftRight(exp[i], bit) % 2
    ensures Remaining(exp, i, bit) / 2 == Remaining(exp, i, bit + 1)
  {
    hide ShiftRight, Scaled, Pow, Value;
    ShiftOnce(exp[i], bit);
    ScaledTwice(63 - bit, Value(exp[i + 1..]));
  }

  lemma RemainingEnds(exp: U256, i: nat)
    requires i < 4
    ensures Remaining(exp, i, 0) == Value(exp[i..])
    ensures Remaining(exp, i, 64) == Value(exp[i + 1..])
  {
    TwoTo64();
    ShiftOut(exp[i], 64);
    assert exp[i..][1..] == exp[i + 1..];
  }

  /** Square-and-multiply over all 256 bits: the exponent is the four limbs as one number. */
  method MontPow(x: Fe, exp: U256) returns (result: Fe)
    ensures Cong(Decode(result), Pow(Decode(x), Value(exp)), P)
  {
    UnitsDecode();
    result := MONT_R;
    var base := x;
    ghost var total := Pow(Decode(x), Value(exp));
    assert exp[0..] == exp;
    CongRefl(total, P);
    for i := 0 to 4
      invariant Cong(Decode(result) * Pow(Decode(base), Value(exp[i..])), total, P)
    {
      RemainingEnds(exp, i);
      for bit := 0 to 64
        invariant Cong(Decode(result) * Pow(Decode(base), Remaining(exp, i, bit)), total, P)
      {
        var flag := ShiftRight(exp[i], bit) % 2;       // (word >> bit) & 1
        var product := MontMul(result, base);
        var selected := ConditionalSelect(result, product, flag);
        var square := MontMul(base, base);
        RemainingStep(exp, i, bit);
        PowBit(Decode(result), Decode(base), Remaining(exp, i, bit), Decode(selected), Decode(square), total);
        result, base := selected, square;
      }
    }
    assert exp[4..] == [];
  }

  lemma PowBit(r: nat, b: nat, e: nat, r': nat, b': nat, total: int)
    requires Cong(r * Pow(b, e), total, P) && b' == b * b % P
    requires r' == if e % 2 == 1 then r * b % P else r
    ensures Cong(r' * Pow(b', e / 2), total, P)
  {
    var q := Pow(b * b, e / 2);
    PowHalve(b, e);
    CongMod(b * b, P);
    CongPow(b', b * b, e / 2, P);
    if e % 2 == 1 {
      CongMod(r * b, P);
      CongMul(r', r * b, Pow(b', e / 2), q, P);
      MulAssoc(r, b, q);
    } else {
      CongScale(r, Pow(b', e / 2), q, P);
    }
    CongTrans(r' * Pow(b', e / 2), r * Pow(b, e), total, P);
  }

  const P_MINUS_2: U256 := [0x43e1f593efffffff, 0x2833e84879b97091, 0xb85045b68181585d, 0x30644e72e131a029]

  /** x^(p-2); with P prime, the inverse of every nonzero residue, and zero for zero. */
  method MontInv(x: Fe) returns (r: Fe)
    ensures IsPrime(P) && Decode(x) != 0 ==> Cong(Decode(x) * Decode(r), 1, P)
    ensures Decode(x) == 0 ==> Decode(r) == 0
  {
    r := MontPow(x, P_MINUS_2);
    ghost var e := Value(P_MINUS_2);
    assert e == P - 2 by { Value4(P_MINUS_2); }
    ghost var d := Decode(x);
    if d == 0 {
      assert Pow(0, e) == 0;
      CongUnique(Decode(r), 0, P);
    } else if IsPrime(P) {
      FermatInverse(d, Decode(r), e);
    }
  }

  lemma FermatInverse(d: nat, v: int, e: nat)
    requires IsPrime(P) && 0 < d < P && e == P - 2 && Cong(v, Pow(d, e), P)
    ensures Cong(d * v, 1, P)
  {
    SmallNonzero(d, P);
    Fermat(d, P);
    CongScale(d, v, Pow(d, e), P);
    assert Pow(d, e + 1) == d * Pow(d, e);
    CongTrans(d * v, d * Pow(d, e), 1, P);
  }
}
