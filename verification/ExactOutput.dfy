/** The cycle output in exact arithmetic: a x / (b + c x), hence concave profit; and how the integer simulation compares. */
module ExactOutput {
  import opened Amm
  import opened Arith
  import opened Shadow
  import opened Solver

  /** a x / (b + c x) */
  datatype Mobius = Mobius(a: real, b: real, c: real)
  {
    ghost predicate Ok()
    {
      a >= 0.0 && b > 0.0 && c >= 0.0
    }

    function At(x: real): real
      requires Ok() && x >= 0.0
    {
      Divisor(b, c, x);
      a * x / (b + c * x)
    }
  }

  lemma Divisor(b: real, c: real, x: real)
    requires b > 0.0 && c >= 0.0 && x >= 0.0
    ensures b + c * x >= b
  {
    NonNegative(c, x);
  }

  lemma NonNegative(x: real, y: real)
    requires x >= 0.0 && y >= 0.0
    ensures x * y >= 0.0
  {}

  lemma Positive(x: real, y: real)
    requires x > 0.0 && y > 0.0
    ensures x * y > 0.0
  {}

  lemma OrderTimes(x: real, y: real, z: real)
    requires x <= y && z >= 0.0
    ensures x * z <= y * z
  {}

  // ── One hop and a chain of hops ──────────────────────────────────

  function FeeKept(p: Pool): (r: real)
    requires FeeOk(p)
    ensures 0.0 <= r <= 1.0
  {
    FractionBounds((p.feeDen - p.feeNum) as real, p.feeDen as real);
    (p.feeDen - p.feeNum) as real / p.feeDen as real
  }

  lemma FractionBounds(n: real, d: real)
    requires 0.0 <= n <= d && d > 0.0
    ensures 0.0 <= n / d <= 1.0 && n / d * d == n
  {}

  ghost predicate Funded(h: Hops)
    requires h.Ok()
  {
    forall k :: 0 <= k < |h.indices| ==> h.Pool(k).specX > 0 && h.Pool(k).specY > 0
  }

  function ReserveIn(p: Pool, d: bool): nat { if d then p.specX else p.specY }
  function ReserveOut(p: Pool, d: bool): nat { if d then p.specY else p.specX }

  /** rout * f x / (rin + f x), f the share the fee leaves. */
  function ExactHop(p: Pool, d: bool, x: real): real
    requires FeeOk(p) && ReserveIn(p, d) > 0 && x >= 0.0
  {
    NonNegative(FeeKept(p), x);
    ReserveOut(p, d) as real * (FeeKept(p) * x) / (ReserveIn(p, d) as real + FeeKept(p) * x)
  }

  function Exact(h: Hops, x: real, k: nat): (y: real)
    requires h.Ok() && Funded(h) && k <= |h.indices| && x >= 0.0
    ensures y >= 0.0
  {
    if k == 0 then x
    else
      var p, d, before := h.Pool(k - 1), h.directions[k - 1], Exact(h, x, k - 1);
      HopNonNegative(p, d, before);
      ExactHop(p, d, before)
  }

  lemma HopNonNegative(p: Pool, d: bool, x: real)
    requires FeeOk(p) && ReserveIn(p, d) > 0 && x >= 0.0
    ensures ExactHop(p, d, x) >= 0.0
  {
    NonNegative(FeeKept(p), x);
    NonNegative(ReserveOut(p, d) as real, FeeKept(p) * x);
    QuotientNonNegative(ReserveOut(p, d) as real * (FeeKept(p) * x), ReserveIn(p, d) as real + FeeKept(p) * x);
  }

  lemma QuotientNonNegative(n: real, d: real)
    requires n >= 0.0 && d > 0.0
    ensures n / d >= 0.0
  {}

  /** The coefficients of the first k hops, built from reserves and fees. */
  function Coefficients(h: Hops, k: nat): (m: Mobius)
    requires h.Ok() && Funded(h) && k <= |h.indices|
    ensures m.Ok()
  {
    if k == 0 then Mobius(1.0, 1.0, 0.0)
    else
      var m, p, d := Coefficients(h, k - 1), h.Pool(k - 1), h.directions[k - 1];
      After(m, ReserveIn(p, d) as real, ReserveOut(p, d) as real, FeeKept(p))
  }

  function After(m: Mobius, rin: real, rout: real, f: real): (r: Mobius)
    requires m.Ok() && rin > 0.0 && rout >= 0.0 && f >= 0.0
    ensures r.Ok()
  {
    NonNegative(rout, f);
    NonNegative(rout * f, m.a);
    Positive(rin, m.b);
    NonNegative(rin, m.c);
    NonNegative(f, m.a);
    Mobius(rout * f * m.a, rin * m.b, rin * m.c + f * m.a)
  }

  /** A hop after a x / (b + c x) is again of that form. */
  lemma HopComposes(m: Mobius, rin: real, rout: real, f: real, x: real)
    requires m.Ok() && rin > 0.0 && rout >= 0.0 && f >= 0.0 && x >= 0.0
    ensures m.At(x) >= 0.0 && rin + f * m.At(x) > 0.0
    ensures rout * (f * m.At(x)) / (rin + f * m.At(x)) == After(m, rin, rout, f).At(x)
  {
    hide Mobius.At, After;
    var y := m.At(x);
    AtTimes(m, x);
    NonNegative(f, y);
    var top, bottom := rout * (f * y), rin + f * y;
    QuotientTimes(top, bottom);
    AfterTimes(m, rin, rout, f, x, y, top / bottom);
    AtUnique(After(m, rin, rout, f), x, top / bottom);
  }

  lemma AfterTimes(m: Mobius, rin: real, rout: real, f: real, x: real, y: real, q: real)
    requires m.Ok() && rin > 0.0 && rout >= 0.0 && f >= 0.0
    requires y * (m.b + m.c * x) == m.a * x && q * (rin + f * y) == rout * (f * y)
    ensures var r := After(m, rin, rout, f); r.Ok() && q * (r.b + r.c * x) == r.a * x
  {
    var s := m.b + m.c * x;
    ScaledTop(rout, f, y, s, m.a, x);
    ScaledBottom(rin, f, y, s, m, x);
    TimesTwice(q, rin + f * y, s, rout * (f * y));
  }

  lemma AtTimes(m: Mobius, x: real)
    requires m.Ok() && x >= 0.0
    ensures m.At(x) >= 0.0 && m.b + m.c * x > 0.0 && m.At(x) * (m.b + m.c * x) == m.a * x
  {
    Divisor(m.b, m.c, x);
    NonNegative(m.a, x);
    QuotientNonNegative(m.a * x, m.b + m.c * x);
    QuotientTimes(m.a * x, m.b + m.c * x);
  }

  lemma AtUnique(m: Mobius, x: real, q: real)
    requires m.Ok() && x >= 0.0 && q * (m.b + m.c * x) == m.a * x
    ensures m.At(x) == q
  {
    Divisor(m.b, m.c, x);
    QuotientUnique(q, m.a * x, m.b + m.c * x);
  }

  lemma TimesTwice(q: real, d: real, s: real, n: real)
    requires q * d == n
    ensures q * (d * s) == n * s
  {}

  lemma QuotientTimes(n: real, d: real)
    requires d > 0.0
    ensures n / d * d == n
  {}

  lemma ScaledTop(rout: real, f: real, y: real, s: real, a: real, x: real)
    requires y * s == a * x
    ensures rout * (f * y) * s == rout * f * a * x
  {
    assert rout * (f * y) * s == rout * f * (y * s);
  }

  lemma ScaledBottom(rin: real, f: real, y: real, s: real, m: Mobius, x: real)
    requires s == m.b + m.c * x && y * s == m.a * x
    ensures (rin + f * y) * s == rin * m.b + (rin * m.c + f * m.a) * x
  {
    assert (rin + f * y) * s == rin * s + f * (y * s);
    assert rin * s == rin * m.b + rin * m.c * x;
    assert f * (m.a * x) == f * m.a * x;
  }

  lemma QuotientUnique(q: real, n: real, d: real)
    requires d > 0.0 && q * d == n
    ensures n / d == q
  {}

  /** The exact output of any chain of hops is a x / (b + c x). */
  lemma {:induction false} ExactIsMobius(h: Hops, x: real, k: nat)
    requires h.Ok() && Funded(h) && k <= |h.indices| && x >= 0.0
    ensures Exact(h, x, k) == Coefficients(h, k).At(x)
  {
    hide Mobius.At, After, ExactHop, FeeKept;
    if k > 0 {
      ExactIsMobius(h, x, k - 1);
      HopOfMobius(Coefficients(h, k - 1), h.Pool(k - 1), h.directions[k - 1], x);
    } else {
      IdentityAt(x);
    }
  }

  lemma IdentityAt(x: real)
    requires x >= 0.0
    ensures Mobius(1.0, 1.0, 0.0).Ok() && Mobius(1.0, 1.0, 0.0).At(x) == x
  {}

  lemma HopOfMobius(m: Mobius, p: Pool, d: bool, x: real)
    requires m.Ok() && FeeOk(p) && ReserveIn(p, d) > 0 && x >= 0.0
    ensures var r := After(m, ReserveIn(p, d) as real, ReserveOut(p, d) as real, FeeKept(p));
            m.At(x) >= 0.0 && r.Ok() && ExactHop(p, d, m.At(x)) == r.At(x)
  {
    hide Mobius.At, After;
    HopComposes(m, ReserveIn(p, d) as real, ReserveOut(p, d) as real, FeeKept(p), x);
  }

  // ── Concavity ────────────────────────────────────────────────────

  /** f(x) - f(z) = a b (x - z) / (u w), with u, w the two divisors. */
  lemma Difference(m: Mobius, x: real, z: real)
    requires m.Ok() && x >= 0.0 && z >= 0.0
    ensures var u, w := m.b + m.c * x, m.b + m.c * z;
            u > 0.0 && w > 0.0 && (m.At(x) - m.At(z)) * (u * w) == m.a * m.b * (x - z)
  {
    hide Mobius.At;
    var u, w := m.b + m.c * x, m.b + m.c * z;
    AtTimes(m, x);
    AtTimes(m, z);
    CrossTerms(m.At(x), m.At(z), u, w, m.a, m.b, m.c, x, z);
  }

  lemma CrossTerms(p: real, q: real, u: real, w: real, a: real, b: real, c: real, x: real, z: real)
    requires p * u == a * x && q * w == a * z && u == b + c * x && w == b + c * z
    ensures (p - q) * (u * w) == a * b * (x - z)
  {
    SplitDifference(p, q, u, w);
    DivisorTimes(a, x, b, c, z);
    DivisorTimes(a, z, b, c, x);
    assert a * x * (c * z) == a * z * (c * x);
    assert a * b * (x - z) == a * x * b - a * z * b;
  }

  lemma SplitDifference(p: real, q: real, u: real, w: real)
    ensures (p - q) * (u * w) == p * u * w - q * w * u
  {}

  lemma DivisorTimes(a: real, x: real, b: real, c: real, z: real)
    ensures a * x * (b + c * z) == a * x * b + a * x * (c * z)
  {}

  lemma MobiusMonotone(m: Mobius, x: real, y: real)
    requires m.Ok() && 0.0 <= x <= y
    ensures m.At(x) <= m.At(y)
  {
    hide Mobius.At;
    Difference(m, y, x);
    var u, w := m.b + m.c * y, m.b + m.c * x;
    NonNegative(m.a, m.b);
    NonNegative(m.a * m.b, y - x);
    Positive(u, w);
    SignOf(m.At(y) - m.At(x), u * w);
  }

  lemma SignOf(p: real, d: real)
    requires d > 0.0 && p * d >= 0.0
    ensures p >= 0.0
  {
    if p < 0.0 { NegativeTimes(p, d); }
  }

  lemma NegativeTimes(p: real, d: real)
    requires p < 0.0 && d > 0.0
    ensures p * d < 0.0
  {}

  /** The chord never lies above the curve. */
  lemma MobiusConcave(m: Mobius, x: real, y: real, t: real)
    requires m.Ok() && 0.0 <= x <= y && 0.0 <= t <= 1.0
    ensures t * x + (1.0 - t) * y >= 0.0
    ensures m.At(t * x + (1.0 - t) * y) >= t * m.At(x) + (1.0 - t) * m.At(y)
  {
    NonNegative(t, x);
    NonNegative(1.0 - t, y);
    ConcaveAt(m, x, y, t, t * x + (1.0 - t) * y);
  }

  lemma ConcaveAt(m: Mobius, x: real, y: real, t: real, z: real)
    requires m.Ok() && 0.0 <= x <= y && 0.0 <= t <= 1.0 && z == t * x + (1.0 - t) * y && z >= 0.0
    ensures m.At(z) >= t * m.At(x) + (1.0 - t) * m.At(y)
  {
    hide Mobius.At;
    Difference(m, x, z);
    Difference(m, y, z);
    Weights(x, y, t, z);
    Products(m.a, m.b, t, y - x);
    DivisorOrder(m, x, y);
    Balance(m.At(x) - m.At(z), m.At(y) - m.At(z), m.b + m.c * x, m.b + m.c * y, m.b + m.c * z, m.a * m.b, t, y - x);
    Centred(t, m.At(x), m.At(y), m.At(z));
  }

  lemma Centred(t: real, p: real, q: real, r: real)
    ensures t * (p - r) + (1.0 - t) * (q - r) == t * p + (1.0 - t) * q - r
  {}

  lemma Products(a: real, b: real, t: real, d: real)
    requires a >= 0.0 && b >= 0.0 && 0.0 <= t <= 1.0 && d >= 0.0
    ensures a * b * (t * ((1.0 - t) * d)) >= 0.0
  {
    NonNegative(a, b);
    NonNegative(1.0 - t, d);
    NonNegative(t, (1.0 - t) * d);
    NonNegative(a * b, t * ((1.0 - t) * d));
  }

  lemma DivisorOrder(m: Mobius, x: real, y: real)
    requires m.Ok() && 0.0 <= x <= y
    ensures m.b + m.c * x <= m.b + m.c * y
  {
    OrderTimes(x, y, m.c);
    assert x * m.c == m.c * x && y * m.c == m.c * y;
  }

  lemma Weights(x: real, y: real, t: real, z: real)
    requires z == t * x + (1.0 - t) * y
    ensures x - z == -((1.0 - t) * (y - x)) && y - z == t * (y - x)
  {}

  /** t p + (1-t) q has the sign of v - u turned around. */
  lemma Balance(p: real, q: real, u: real, v: real, w: real, k: real, t: real, d: real)
    requires 0.0 < u <= v && w > 0.0 && k * (t * ((1.0 - t) * d)) >= 0.0
    requires p * (u * w) == k * -((1.0 - t) * d) && q * (v * w) == k * (t * d)
    ensures t * p + (1.0 - t) * q <= 0.0
  {
    var g := k * (t * ((1.0 - t) * d));
    assert t * p * (u * w) == -g by { assert t * (p * (u * w)) == t * p * (u * w); assert t * (k * -((1.0 - t) * d)) == -g; }
    assert (1.0 - t) * q * (v * w) == g by { assert (1.0 - t) * (q * (v * w)) == (1.0 - t) * q * (v * w); assert (1.0 - t) * (k * (t * d)) == g; }
    OppositeShares(t * p, (1.0 - t) * q, u * w, v * w, g) by { Positive(u, w); OrderTimes(u, v, w); }
  }

  lemma OppositeShares(r: real, s: real, m: real, n: real, g: real)
    requires 0.0 < m <= n && g >= 0.0 && r * m == -g && s * n == g
    ensures r + s <= 0.0
  {
    SignOf(s, n);
    OrderTimes(m, n, s);
    assert (-(r + s)) * m == g - s * m && s * m == m * s && s * n == n * s;
    SignOf(-(r + s), m);
  }

  ghost function ExactProfit(h: Hops, x: real): real
    requires h.Ok() && Funded(h) && x >= 0.0
  {
    Exact(h, x, |h.indices|) - x
  }

  /** The exact profit of a cycle of any length is concave in its input. */
  lemma ProfitIsConcave(h: Hops, x: real, y: real, t: real)
    requires h.Ok() && Funded(h) && 0.0 <= x <= y && 0.0 <= t <= 1.0
    ensures t * x + (1.0 - t) * y >= 0.0
    ensures ExactProfit(h, t * x + (1.0 - t) * y) >= t * ExactProfit(h, x) + (1.0 - t) * ExactProfit(h, y)
  {
    hide Exact, Coefficients, Mobius.At;
    var m, z, n := Coefficients(h, |h.indices|), t * x + (1.0 - t) * y, |h.indices|;
    MobiusConcave(m, x, y, t);
    ExactIsMobius(h, x, n);
    ExactIsMobius(h, y, n);
    ExactIsMobius(h, z, n);
    Spread(t, m.At(x), x);
    Spread(1.0 - t, m.At(y), y);
  }

  lemma Spread(t: real, f: real, x: real)
    ensures t * (f - x) == t * f - t * x
  {}

  /** Hence it has no valley: between two inputs the profit never drops below both. */
  lemma ProfitHasNoValley(h: Hops, x: real, z: real, y: real)
    requires h.Ok() && Funded(h) && 0.0 <= x < z < y
    ensures ExactProfit(h, z) >= ExactProfit(h, x) || ExactProfit(h, z) >= ExactProfit(h, y)
  {
    hide *;
    var t := (y - z) / (y - x);
    QuotientTimes(y - z, y - x);
    Share(t, x, y, z);
    ProfitIsConcave(h, x, y, t);
    WeightedMean(t, ExactProfit(h, x), ExactProfit(h, y), ExactProfit(h, z));
  }

  lemma Share(t: real, x: real, y: real, z: real)
    requires x < z < y && t * (y - x) == y - z
    ensures 0.0 <= t <= 1.0 && t * x + (1.0 - t) * y == z
  {
    SignOf(t, y - x);
    assert (1.0 - t) * (y - x) == z - x;
    SignOf(1.0 - t, y - x);
  }

  lemma WeightedMean(t: real, p: real, q: real, r: real)
    requires 0.0 <= t <= 1.0 && r >= t * p + (1.0 - t) * q
    ensures r >= p || r >= q
  {
    if p <= q { MeanAtLeast(t, p, q); } else { MeanAtLeast(1.0 - t, q, p); }
  }

  lemma MeanAtLeast(t: real, p: real, q: real)
    requires 0.0 <= t <= 1.0 && p <= q
    ensures t * p + (1.0 - t) * q >= p
  {
    NonNegative(1.0 - t, q - p);
    assert (1.0 - t) * (q - p) == (1.0 - t) * q - p + t * p;
  }

  // ── The integer simulation never pays less than exact arithmetic ──

  lemma HopMonotone(p: Pool, d: bool, x: real, y: real)
    requires FeeOk(p) && ReserveIn(p, d) > 0 && 0.0 <= x <= y
    ensures ExactHop(p, d, x) <= ExactHop(p, d, y)
  {
    hide Mobius.At, After, ExactHop, FeeKept;
    var m := Mobius(1.0, 1.0, 0.0);
    IdentityAt(x);
    IdentityAt(y);
    HopOfMobius(m, p, d, x);
    HopOfMobius(m, p, d, y);
    MobiusMonotone(After(m, ReserveIn(p, d) as real, ReserveOut(p, d) as real, FeeKept(p)), x, y);
  }

  lemma HopNotBelowExact(p: Pool, d: bool, a: nat)
    requires FeeOk(p) && p.specX > 0 && p.specY > 0
    ensures SimSwap(p, a, d) as real >= ExactHop(p, d, a as real)
  {
    hide SimSwap, FeeKept, ExactHop;
    var rin, rout := ReserveIn(p, d) as real, ReserveOut(p, d) as real;
    var e := FeeKept(p) * a as real;
    NonNegative(FeeKept(p), a as real);
    HopFormula(p, d, a as real, e);
    HopAbove(p, d, a, e);
    QuotientAtMostReal(rout * e, rin + e, SimSwap(p, a, d) as real);
  }

  lemma HopAbove(p: Pool, d: bool, a: nat, e: real)
    requires FeeOk(p) && p.specX > 0 && p.specY > 0 && e == FeeKept(p) * a as real
    ensures ReserveOut(p, d) as real * e <= SimSwap(p, a, d) as real * (ReserveIn(p, d) as real + e)
  {
    hide SimSwap, FeeKept;
    HopInteger(p, d, a);
    ExactFee(p, a);
    IntegerToReal(SimSwap(p, a, d), ReserveIn(p, d), ReserveOut(p, d), p.feeDen, a * (p.feeDen - p.feeNum), e);
  }

  lemma HopInteger(p: Pool, d: bool, a: nat)
    requires FeeOk(p) && p.specX > 0 && p.specY > 0
    ensures var n := a * (p.feeDen - p.feeNum);
            n >= 0 && ReserveOut(p, d) * n <= SimSwap(p, a, d) * (ReserveIn(p, d) * p.feeDen + n)
  {
    hide SwapOut;
    NotBelowExact(ReserveIn(p, d), ReserveOut(p, d), p.feeNum, p.feeDen, a);
    MulMonotone(0, a, p.feeDen - p.feeNum);
  }

  lemma HopFormula(p: Pool, d: bool, x: real, e: real)
    requires FeeOk(p) && ReserveIn(p, d) > 0 && x >= 0.0 && e == FeeKept(p) * x && e >= 0.0
    ensures ExactHop(p, d, x) == ReserveOut(p, d) as real * e / (ReserveIn(p, d) as real + e)
  {}

  lemma ExactFee(p: Pool, a: nat)
    requires FeeOk(p)
    ensures FeeKept(p) * a as real * p.feeDen as real == (a * (p.feeDen - p.feeNum)) as real
  {
    var n, d := (p.feeDen - p.feeNum) as real, p.feeDen as real;
    FractionBounds(n, d);
    assert FeeKept(p) * a as real * d == FeeKept(p) * d * a as real;
    assert (a * (p.feeDen - p.feeNum)) as real == a as real * n;
  }

  lemma IntegerToReal(out: nat, rin: nat, rout: nat, den: nat, n: nat, e: real)
    requires den > 0 && rout * n <= out * (rin * den + n) && e * den as real == n as real
    ensures rout as real * e <= out as real * (rin as real + e)
  {
    var d := den as real;
    assert (rout * n) as real == rout as real * n as real;
    assert (out * (rin * den + n)) as real == out as real * (rin as real * d + n as real);
    Factored(out as real, rin as real, rout as real, d, e);
    SignOf(out as real * (rin as real + e) - rout as real * e, d);
  }

  lemma Factored(out: real, rin: real, rout: real, d: real, e: real)
    ensures (out * (rin + e) - rout * e) * d == out * (rin * d + e * d) - rout * (e * d)
  {
    assert out * (rin + e) * d == out * (rin * d + e * d);
    assert rout * e * d == rout * (e * d);
  }

  lemma QuotientAtMostReal(n: real, d: real, b: real)
    requires d > 0.0 && n <= b * d
    ensures n / d <= b
  {
    QuotientTimes(n, d);
    assert (b - n / d) * d == b * d - n;
    SignOf(b - n / d, d);
  }

  lemma {:induction false} SimulationNotBelowExact(h: Hops, a: nat, k: nat)
    requires h.Ok() && Funded(h) && k <= |h.indices|
    ensures h.Amount(a, k) as real >= Exact(h, a as real, k)
  {
    if k > 0 {
      var p, d := h.Pool(k - 1), h.directions[k - 1];
      SimulationNotBelowExact(h, a, k - 1);
      HopMonotone(p, d, Exact(h, a as real, k - 1), h.Amount(a, k - 1) as real);
      HopNotBelowExact(p, d, h.Amount(a, k - 1));
    }
  }
}
