/** Jacobian point arithmetic on y^2 = x^3 + b modulo a prime q above 3. Coordinates are integer
    representatives of residues, so every equation between them is a congruence modulo q. */
module Curve {
  import opened Arith
  import opened Primes

  datatype Affine = Affine(x: int, y: int, infinity: bool)

  /** (x, y, z) stands for (x / z^2, y / z^3); z = 0 for the identity. */
  datatype Jacobian = Jacobian(x: int, y: int, z: int)
  {
    predicate IsIdentity(q: nat)
      requires q > 0
    {
      z % q == 0
    }
  }

  ghost predicate Field(q: nat)
  {
    IsPrime(q) && q > 3
  }

  function Double(p: Jacobian, q: nat): Jacobian
    requires q > 0
  {
    if p.IsIdentity(q) then p
    else
      var xx, yy, zz := p.x * p.x, p.y * p.y, p.z * p.z;
      var yyyy := yy * yy;
      var s0 := (p.x + yy) * (p.x + yy) - xx - yyyy;
      var s := s0 + s0;
      var m := xx + xx + xx;
      var t := m * m - s - s;
      var y2 := yyyy + yyyy;
      var y4 := y2 + y2;
      var y8 := y4 + y4;
      Jacobian(t, m * (s - t) - y8, (p.y + p.z) * (p.y + p.z) - yy - zz)
  }

  function Add(p: Jacobian, r: Jacobian, q: nat): Jacobian
    requires q > 0
  {
    if p.IsIdentity(q) then r
    else if r.IsIdentity(q) then p
    else
      var z1z1, z2z2 := p.z * p.z, r.z * r.z;
      var u1, u2 := p.x * z2z2, r.x * z1z1;
      var s1, s2 := p.y * r.z * z2z2, r.y * p.z * z1z1;
      var h, d := u2 - u1, s2 - s1;
      if h % q == 0 && d % q == 0 then Double(p, q)
      else
        var hh := h * h;
        var hhh := h * hh;
        var v := u1 * hh;
        var x3 := d * d - hhh - v - v;
        Jacobian(x3, d * (v - x3) - s1 * hhh, p.z * r.z * h)
  }

  function AddAffine(p: Jacobian, r: Affine, q: nat): Jacobian
    requires q > 0
  {
    if r.infinity then p
    else if p.IsIdentity(q) then Jacobian(r.x, r.y, 1)
    else
      var z1z1 := p.z * p.z;
      var u2, s2 := r.x * z1z1, r.y * p.z * z1z1;
      var h := u2 - p.x;
      var hh := h * h;
      var hhh := h * hh;
      var d := s2 - p.y;
      var v := p.x * hh;
      var x3 := d * d - hhh - v - v;
      Jacobian(x3, d * (v - x3) - p.y * hhh, p.z * h)
  }

  // ── What a triple represents ─────────────────────────────────────

  function Cube(a: int): int { a * a * a }

  ghost predicate Represents(p: Jacobian, x: int, y: int, q: nat)
  {
    && !Cong(p.z, 0, q)
    && Cong(p.x, x * (p.z * p.z), q)
    && Cong(p.y, y * Cube(p.z), q)
  }

  ghost predicate OnCurve(x: int, y: int, b: int, q: nat)
  {
    Cong(y * y, Cube(x) + b, q)
  }

  ghost predicate Identity(p: Jacobian, q: nat)
  {
    Cong(p.z, 0, q)
  }

  lemma ZeroTest(a: int, q: nat)
    requires q > 0
    ensures a % q == 0 <==> Cong(a, 0, q)
  {
    CongMod(a, q);
    if Cong(a, 0, q) { CongToMod(a, 0, q); }
  }

  /** The third intersection of the line with slope k through (x1, y1) with the curve, reflected. */
  function ThirdX(k: int, x1: int, x2: int): int { k * k - x1 - x2 }

  function ThirdY(k: int, x1: int, y1: int, x3: int): int { k * (x1 - x3) - y1 }

  /** The chord through (x1, y1) and (x2, y2), or the tangent when they are equal, has slope k. */
  ghost predicate Slope(k: int, x1: int, y1: int, x2: int, y2: int, q: nat)
  {
    if Cong(x1, x2, q) then Cong(y1, y2, q) && Cong(k * (2 * y1), 3 * (x1 * x1), q)
    else Cong(k * (x2 - x1), y2 - y1, q)
  }

  /** From the scaled forms of slope and coordinates to a triple representing the third point:
      shared by doubling and both additions. */
  lemma FromSlope(x3: int, y3: int, z: int, k: int, x1: int, x2: int, y1: int, m: int, v: int, w: int, hhh: int, q: nat)
    requires !Cong(z, 0, q)
    requires Cong(m, k * z, q) && Cong(v, x1 * (z * z), q) && Cong(w, y1 * Cube(z), q)
    requires Cong(hhh, (x2 - x1) * (z * z), q)
    requires x3 == m * m - hhh - v - v && y3 == m * (v - x3) - w
    ensures Represents(Jacobian(x3, y3, z), ThirdX(k, x1, x2), ThirdY(k, x1, y1, ThirdX(k, x1, x2)), q)
  {
    hide Cong;
    var c := ThirdX(k, x1, x2);
    CongMul(m, k * z, m, k * z, q);
    MulSwap(k, z, k, z);
    CongAdd(m * m, (k * k) * (z * z), hhh, (x2 - x1) * (z * z), q);
    CongAdd(m * m - hhh, (k * k) * (z * z) - (x2 - x1) * (z * z), v, x1 * (z * z), q);
    CongAdd(m * m - hhh - v, (k * k) * (z * z) - (x2 - x1) * (z * z) - x1 * (z * z), v, x1 * (z * z), q);
    CollectX(k, x1, x2, z * z);
    assert Cong(x3, c * (z * z), q);
    CongAdd(v, x1 * (z * z), x3, c * (z * z), q);
    DistributeRight(x1, c, z * z);
    CongMul(m, k * z, v - x3, (x1 - c) * (z * z), q);
    CongAdd(m * (v - x3), k * z * ((x1 - c) * (z * z)), w, y1 * Cube(z), q);
    CollectY(k, x1 - c, y1, z);
  }

  lemma DistributeRight(a: int, b: int, z: int)
    ensures (a - b) * z == a * z - b * z
  {}

  lemma CollectX(k: int, x1: int, x2: int, zz: int)
    ensures (k * k) * zz - (x2 - x1) * zz - x1 * zz - x1 * zz == ThirdX(k, x1, x2) * zz
  {}

  lemma CollectY(k: int, d: int, y1: int, z: int)
    ensures k * z * (d * (z * z)) - y1 * Cube(z) == (k * d - y1) * Cube(z)
  {
    MulSwap(k, z, d, z * z);
    assert z * (z * z) == Cube(z) by { MulAssoc(z, z, z); }
  }

  // ── Doubling ─────────────────────────────────────────────────────

  lemma DoubleForm(p: Jacobian, q: nat)
    requires q > 0 && !p.IsIdentity(q)
    ensures var m, s := 3 * (p.x * p.x), 4 * (p.x * (p.y * p.y));
            var x3 := m * m - s - s;
            Double(p, q) == Jacobian(x3, m * (s - x3) - 8 * ((p.y * p.y) * (p.y * p.y)), 2 * (p.y * p.z))
  {
    BinomialSquare(p.x, p.y * p.y);
    BinomialSquare(p.y, p.z);
  }

  lemma BinomialSquare(a: int, b: int)
    ensures (a + b) * (a + b) - a * a - b * b == 2 * (a * b)
  {}

  lemma TangentScaling(p: Jacobian, x: int, y: int, k: int, q: nat)
    requires Cong(p.x, x * (p.z * p.z), q) && Cong(p.y, y * Cube(p.z), q)
    requires Cong(k * (2 * y), 3 * (x * x), q)
    ensures var z := 2 * (p.y * p.z);
            && Cong(3 * (p.x * p.x), k * z, q)
            && Cong(4 * (p.x * (p.y * p.y)), x * (z * z), q)
            && Cong(8 * ((p.y * p.y) * (p.y * p.y)), y * Cube(z), q)
  {
    var z := 2 * (p.y * p.z);
    SlopeScaling(p, x, y, k, q);
    // 4 x1 y^2
    CongMul(p.x, x * (p.z * p.z), 4 * (p.y * p.y), 4 * (p.y * p.y), q) by { CongRefl(4 * (p.y * p.y), q); }
    SquareOfZ(x, p.y, p.z);
    assert p.x * (4 * (p.y * p.y)) == 4 * (p.x * (p.y * p.y)) by { MulShuffle4(p.x, p.y * p.y); }
    // 8 y^4
    CongMul(p.y, y * Cube(p.z), 8 * Cube(p.y), 8 * Cube(p.y), q) by { CongRefl(8 * Cube(p.y), q); }
    CubeOfZ(y, p.y, p.z);
    FourthPower(p.y);
  }

  lemma MulShuffle4(a: int, b: int)
    ensures a * (4 * b) == 4 * (a * b)
  {}

  lemma FourthPower(y: int)
    ensures y * (8 * Cube(y)) == 8 * ((y * y) * (y * y))
  {}

  lemma SquareOfZ(x: int, y: int, z: int)
    ensures x * (z * z) * (4 * (y * y)) == x * ((2 * (y * z)) * (2 * (y * z)))
  {
    MulSwap(y, z, y, z);
    MulAssoc(x, z * z, 4 * (y * y));
    assert (2 * (y * z)) * (2 * (y * z)) == 4 * ((y * y) * (z * z)) by { MulSwap(2, y * z, 2, y * z); }
    assert (z * z) * (4 * (y * y)) == 4 * ((y * y) * (z * z)) by { MulShuffle4(z * z, y * y); }
  }

  lemma CubeOfZ(b: int, y: int, z: int)
    ensures b * Cube(z) * (8 * Cube(y)) == b * Cube(2 * (y * z))
  {
    CubeProduct(2, y * z);
    CubeProduct(y, z);
    MulAssoc(b, Cube(z), 8 * Cube(y));
    assert Cube(z) * (8 * Cube(y)) == 8 * (Cube(y) * Cube(z)) by { Commute8(Cube(z), Cube(y)); }
  }

  lemma Commute8(a: int, b: int)
    ensures a * (8 * b) == 8 * (b * a)
  {}

  lemma CubeProduct(a: int, b: int)
    ensures Cube(a * b) == Cube(a) * Cube(b)
  {
    MulSwap(a, b, a, b);
    MulSwap(a * a, b * b, a, b);
  }

  lemma SlopeScaling(p: Jacobian, x: int, y: int, k: int, q: nat)
    requires Cong(p.x, x * (p.z * p.z), q) && Cong(p.y, y * Cube(p.z), q)
    requires Cong(k * (2 * y), 3 * (x * x), q)
    ensures Cong(3 * (p.x * p.x), k * (2 * (p.y * p.z)), q)
  {
    var z := p.z;
    var zz := z * z;
    CongMul(p.x, x * zz, p.x, x * zz, q);
    CongScale(3, p.x * p.x, (x * zz) * (x * zz), q);
    MulSwap(x, zz, x, zz);
    CongScale(zz * zz, k * (2 * y), 3 * (x * x), q);
    CongScale(k * 2 * z, p.y, y * Cube(z), q);
    SlopeLeft(k, y, z, zz);
    SlopeRight(k, p.y, z);
    assert zz * zz * (3 * (x * x)) == 3 * ((x * x) * (zz * zz)) by { Commute3(zz * zz, x * x); }
    CongSym(k * 2 * z * p.y, k * 2 * z * (y * Cube(z)), q);
    CongSym(zz * zz * (k * (2 * y)), zz * zz * (3 * (x * x)), q);
    CongTrans(3 * (p.x * p.x), zz * zz * (3 * (x * x)), zz * zz * (k * (2 * y)), q);
    CongTrans(3 * (p.x * p.x), k * 2 * z * (y * Cube(z)), k * 2 * z * p.y, q);
  }

  lemma Commute3(a: int, b: int)
    ensures a * (3 * b) == 3 * (b * a)
  {}

  lemma SlopeLeft(k: int, y: int, z: int, zz: int)
    requires zz == z * z
    ensures zz * zz * (k * (2 * y)) == k * 2 * z * (y * Cube(z))
  {
    assert zz * zz == z * Cube(z) by { MulAssoc(z * z, z, z); }
    MulSwap(k * 2, z, y, Cube(z));
    assert k * (2 * y) == k * 2 * y by { MulAssoc(k, 2, y); }
    assert z * Cube(z) * (k * 2 * y) == (k * 2 * y) * (z * Cube(z));
  }

  lemma SlopeRight(k: int, y: int, z: int)
    ensures k * 2 * z * y == k * (2 * (y * z))
  {
    MulAssoc(k, 2, z * y);
    MulAssoc(k * 2, z, y);
  }

  lemma SmallUnits(q: nat)
    requires Field(q)
    ensures !Cong(1, 0, q) && !Cong(2, 0, q) && !Cong(3, 0, q)
  {
    SmallNonzero(1, q);
    SmallNonzero(2, q);
    SmallNonzero(3, q);
  }

  lemma ProductNonzero(a: int, b: int, q: nat)
    requires IsPrime(q)
    ensures Cong(a * b, 0, q) <==> Cong(a, 0, q) || Cong(b, 0, q)
  {
    if Cong(a * b, 0, q) { NoZeroDivisors(a, b, q); }
    if Cong(a, 0, q) { CongMul(a, 0, b, b, q) by { CongRefl(b, q); } }
    if Cong(b, 0, q) { CongScale(a, b, 0, q); }
  }

  lemma CubeNonzero(a: int, q: nat)
    requires IsPrime(q)
    ensures Cong(Cube(a), 0, q) <==> Cong(a, 0, q)
  {
    ProductNonzero(a, a, q);
    ProductNonzero(a * a, a, q);
  }

  lemma CongZero(a: int, b: int, q: nat)
    requires Cong(a, b, q)
    ensures Cong(a, 0, q) <==> Cong(b, 0, q)
  {
    CongSym(a, b, q);
    if Cong(a, 0, q) { CongTrans(b, a, 0, q); }
    if Cong(b, 0, q) { CongTrans(a, b, 0, q); }
  }

  /** A represented point has Y = 0 exactly when y = 0. */
  lemma VerticalTangent(p: Jacobian, x: int, y: int, q: nat)
    requires Field(q) && Represents(p, x, y, q)
    ensures Cong(2 * (p.y * p.z), 0, q) <==> Cong(y, 0, q)
  {
    SmallUnits(q);
    ProductNonzero(2, p.y * p.z, q);
    ProductNonzero(p.y, p.z, q);
    CongZero(p.y, y * Cube(p.z), q);
    ProductNonzero(y, Cube(p.z), q);
    CubeNonzero(p.z, q);
  }

  /** Doubling gives the tangent's third point, or the identity when the tangent is vertical. */
  lemma DoubleCorrect(p: Jacobian, x: int, y: int, k: int, q: nat)
    requires Field(q) && Represents(p, x, y, q)
    ensures Cong(y, 0, q) ==> Identity(Double(p, q), q)
    ensures !Cong(y, 0, q) && Cong(k * (2 * y), 3 * (x * x), q) ==>
      Represents(Double(p, q), ThirdX(k, x, x), ThirdY(k, x, y, ThirdX(k, x, x)), q)
  {
    ZeroTest(p.z, q);
    DoubleForm(p, q);
    VerticalTangent(p, x, y, q);
    if !Cong(y, 0, q) && Cong(k * (2 * y), 3 * (x * x), q) {
      TangentScaling(p, x, y, k, q);
      var z, m, s := 2 * (p.y * p.z), 3 * (p.x * p.x), 4 * (p.x * (p.y * p.y));
      CongRefl(0, q);
      assert (x - x) * (z * z) == 0;
      FromSlope(m * m - s - s, m * (s - (m * m - s - s)) - 8 * ((p.y * p.y) * (p.y * p.y)), z, k, x, x, y,
                m, s, 8 * ((p.y * p.y) * (p.y * p.y)), 0, q);
    }
  }

  // ── Chords ───────────────────────────────────────────────────────

  /** Coordinates brought to the common denominator c. */
  ghost predicate Scaled(u: int, s: int, x: int, y: int, c: int, q: nat)
  {
    Cong(u, x * (c * c), q) && Cong(s, y * Cube(c), q)
  }

  lemma CommonDenominator(p: Jacobian, x: int, y: int, c: int, q: nat)
    requires Represents(p, x, y, q)
    ensures Scaled(p.x * (c * c), p.y * c * (c * c), x, y, p.z * c, q)
  {
    var cc := c * c;
    CongMul(p.x, x * (p.z * p.z), cc, cc, q) by { CongRefl(cc, q); }
    MulSwap(p.z, c, p.z, c);
    MulAssoc(x, p.z * p.z, cc);
    CongMul(p.y, y * Cube(p.z), Cube(c), Cube(c), q) by { CongRefl(Cube(c), q); }
    CubeProduct(p.z, c);
    MulAssoc(y, Cube(p.z), Cube(c));
    MulAssoc(p.y, c, cc);
    assert c * cc == Cube(c) by { MulAssoc(c, c, c); }
  }

  lemma ChordScaling(u1: int, s1: int, u2: int, s2: int, x1: int, y1: int, x2: int, y2: int, c: int, k: int, q: nat)
    requires Scaled(u1, s1, x1, y1, c, q) && Scaled(u2, s2, x2, y2, c, q)
    requires Cong(k * (x2 - x1), y2 - y1, q)
    ensures var h := u2 - u1;
            var z := c * h;
            && Cong(s2 - s1, k * z, q)
            && Cong(u1 * (h * h), x1 * (z * z), q)
            && Cong(s1 * (h * (h * h)), y1 * Cube(z), q)
            && Cong(h * (h * h), (x2 - x1) * (z * z), q)
  {
    hide Cong;
    var h, cc, c3 := u2 - u1, c * c, Cube(c);
    var z := c * h;
    CongAdd(u2, x2 * cc, u1, x1 * cc, q);
    DistributeRight(x2, x1, cc);
    CongAdd(s2, y2 * c3, s1, y1 * c3, q);
    DistributeRight(y2, y1, c3);
    // s2 - s1 = (y2 - y1) c^3 = k (x2 - x1) c^3 = k c h
    CongScale(c3, k * (x2 - x1), y2 - y1, q);
    CongScale(k * c, h, (x2 - x1) * cc, q);
    ChordLine(k, x2 - x1, c, h);
    assert c3 * (y2 - y1) == (y2 - y1) * c3;
    CongSym(c3 * (k * (x2 - x1)), (y2 - y1) * c3, q);
    CongSym(k * c * h, k * c * ((x2 - x1) * cc), q);
    CongTrans(s2 - s1, (y2 - y1) * c3, c3 * (k * (x2 - x1)), q);
    CongTrans(s2 - s1, c3 * (k * (x2 - x1)), k * z, q);
    // the h^2 and h^3 multiples
    MulSwap(c, h, c, h);
    CongMul(u1, x1 * cc, h * h, h * h, q) by { CongRefl(h * h, q); }
    MulAssoc(x1, cc, h * h);
    CongMul(h, (x2 - x1) * cc, h * h, h * h, q) by { CongRefl(h * h, q); }
    MulAssoc(x2 - x1, cc, h * h);
    CongMul(s1, y1 * c3, Cube(h), Cube(h), q) by { CongRefl(Cube(h), q); }
    CubeProduct(c, h);
    MulAssoc(y1, c3, Cube(h));
    assert h * (h * h) == Cube(h) by { MulAssoc(h, h, h); }
  }

  lemma ChordLine(k: int, d: int, c: int, h: int)
    ensures Cube(c) * (k * d) == k * c * (d * (c * c))
    ensures k * c * h == k * (c * h)
  {
    assert Cube(c) == c * (c * c) by { MulAssoc(c, c, c); }
    MulSwap(k, c, d, c * c);
    assert Cube(c) * (k * d) == (k * d) * Cube(c);
    MulAssoc(k, c, h);
  }

  /** The chord formula on scaled coordinates, with z = c h. */
  lemma ChordCorrect(u1: int, s1: int, u2: int, s2: int, x1: int, y1: int, x2: int, y2: int, c: int, k: int, q: nat)
    requires Field(q) && !Cong(c, 0, q) && !Cong(x1, x2, q)
    requires Scaled(u1, s1, x1, y1, c, q) && Scaled(u2, s2, x2, y2, c, q)
    requires Cong(k * (x2 - x1), y2 - y1, q)
    ensures var h, d := u2 - u1, s2 - s1;
            var v, hhh := u1 * (h * h), h * (h * h);
            var x3 := d * d - hhh - v - v;
            Represents(Jacobian(x3, d * (v - x3) - s1 * hhh, c * h),
                       ThirdX(k, x1, x2), ThirdY(k, x1, y1, ThirdX(k, x1, x2)), q)
  {
    var h, d := u2 - u1, s2 - s1;
    var v, hhh := u1 * (h * h), h * (h * h);
    var x3 := d * d - hhh - v - v;
    ChordScaling(u1, s1, u2, s2, x1, y1, x2, y2, c, k, q);
    DifferenceVanishes(u1, s1, u2, s2, x1, y1, x2, y2, c, q);
    ProductNonzero(c, h, q);
    FromSlope(x3, d * (v - x3) - s1 * hhh, c * h, k, x1, x2, y1, d, v, s1 * hhh, hhh, q);
  }

  /** h and d vanish exactly when the abscissas, respectively ordinates, agree. */
  lemma DifferenceVanishes(u1: int, s1: int, u2: int, s2: int, x1: int, y1: int, x2: int, y2: int, c: int, q: nat)
    requires Field(q) && !Cong(c, 0, q)
    requires Scaled(u1, s1, x1, y1, c, q) && Scaled(u2, s2, x2, y2, c, q)
    ensures Cong(u2 - u1, 0, q) <==> Cong(x1, x2, q)
    ensures Cong(s2 - s1, 0, q) <==> Cong(y1, y2, q)
  {
    hide Cong, Cube, IsPrime;
    ProductNonzero(c, c, q);
    ScaledDifference(u1, u2, x1, x2, c * c, q);
    CubeNonzero(c, q);
    ScaledDifference(s1, s2, y1, y2, Cube(c), q);
  }

  lemma ScaledDifference(u1: int, u2: int, x1: int, x2: int, m: int, q: nat)
    requires Field(q) && !Cong(m, 0, q) && Cong(u1, x1 * m, q) && Cong(u2, x2 * m, q)
    ensures Cong(u2 - u1, 0, q) <==> Cong(x1, x2, q)
  {
    hide Cong, IsPrime;
    CongAdd(u2, x2 * m, u1, x1 * m, q);
    DistributeRight(x2, x1, m);
    CongZero(u2 - u1, (x2 - x1) * m, q);
    ProductNonzero(x2 - x1, m, q);
    ZeroDifference(x2, x1, q);
  }

  lemma ZeroDifference(a: int, b: int, q: nat)
    ensures Cong(a - b, 0, q) <==> Cong(b, a, q)
  {
    CongRefl(b, q);
    CongRefl(a, q);
    if Cong(a - b, 0, q) {
      CongAdd(a - b, 0, b, b, q);
      CongSym(a, b, q);
    }
    if Cong(b, a, q) {
      CongAdd(a, a, b, a, q);
    }
  }

  // ── The group operation the formulas should compute ──────────────

  /** res is the sum of the finite points (x1, y1) and (x2, y2) by the chord-and-tangent rule. */
  ghost predicate IsSum(res: Jacobian, x1: int, y1: int, x2: int, y2: int, q: nat)
  {
    if Cong(x1, x2, q) && Cong(y1, -y2, q) then Identity(res, q)
    else exists k :: Slope(k, x1, y1, x2, y2, q)
                     && Represents(res, ThirdX(k, x1, x2), ThirdY(k, x1, y1, ThirdX(k, x1, x2)), q)
  }

  lemma SameAbscissa(x1: int, y1: int, x2: int, y2: int, b: int, q: nat)
    requires Field(q) && OnCurve(x1, y1, b, q) && OnCurve(x2, y2, b, q) && Cong(x1, x2, q)
    ensures Cong(y1, y2, q) || Cong(y1, -y2, q)
  {
    CongMul(x1, x2, x1, x2, q);
    CongMul(x1 * x1, x2 * x2, x1, x2, q);
    CongRefl(b, q);
    CongAdd(Cube(x1), Cube(x2), b, b, q);
    CongTrans(y1 * y1, Cube(x1) + b, Cube(x2) + b, q);
    CongSym(y2 * y2, Cube(x2) + b, q);
    CongTrans(y1 * y1, Cube(x2) + b, y2 * y2, q);
    ZeroDifference(y2 * y2, y1 * y1, q);
    CongSym(y1 * y1, y2 * y2, q);
    ZeroDifference(y1 * y1, y2 * y2, q);
    assert (y1 - y2) * (y1 - -y2) == y1 * y1 - y2 * y2;
    NoZeroDivisors(y1 - y2, y1 - -y2, q);
    ZeroDifference(y1, y2, q);
    ZeroDifference(y1, -y2, q);
    if Cong(y1 - y2, 0, q) { CongSym(y2, y1, q); } else { CongSym(-y2, y1, q); }
  }

  lemma SelfInverse(y1: int, y2: int, q: nat)
    requires Field(q) && Cong(y1, y2, q)
    ensures Cong(y1, -y2, q) <==> Cong(y1, 0, q)
  {
    SmallUnits(q);
    if Cong(y1, -y2, q) {
      CongAdd(y1, -y2, y1, y2, q);
      ProductNonzero(2, y1, q);
    }
    if Cong(y1, 0, q) {
      CongZero(y1, y2, q);
      CongScale(-1, y2, 0, q);
      CongSym(-1 * y2, 0, q);
      CongTrans(y1, 0, -y2, q);
    }
  }

  lemma TangentSlope(x: int, y: int, q: nat) returns (k: int)
    requires Field(q) && !Cong(y, 0, q)
    ensures Cong(k * (2 * y), 3 * (x * x), q)
  {
    SmallUnits(q);
    ProductNonzero(2, y, q);
    var i := HasInverse(2 * y, q);
    k := 3 * (x * x) * i;
    MulAssoc(3 * (x * x), i, 2 * y);
    assert i * (2 * y) == 2 * y * i;
    CongScale(3 * (x * x), 2 * y * i, 1, q);
  }

  lemma ChordSlope(x1: int, y1: int, x2: int, y2: int, q: nat) returns (k: int)
    requires Field(q) && !Cong(x1, x2, q)
    ensures Cong(k * (x2 - x1), y2 - y1, q)
  {
    ZeroDifference(x2, x1, q);
    var i := HasInverse(x2 - x1, q);
    k := (y2 - y1) * i;
    MulAssoc(y2 - y1, i, x2 - x1);
    assert i * (x2 - x1) == (x2 - x1) * i;
    CongScale(y2 - y1, (x2 - x1) * i, 1, q);
  }

  lemma DoubleIsSum(p: Jacobian, x: int, y: int, x2: int, y2: int, q: nat)
    requires Field(q) && Represents(p, x, y, q) && Cong(x, x2, q) && Cong(y, y2, q)
    ensures Cong(y, 0, q) ==> Identity(Double(p, q), q)
    ensures IsSum(Double(p, q), x, y, x2, y2, q)
  {
    SelfInverse(y, y2, q);
    if Cong(y, 0, q) {
      DoubleCorrect(p, x, y, 0, q);
    } else {
      var k := TangentSlope(x, y, q);
      DoubleCorrect(p, x, y, k, q);
      assert Slope(k, x, y, x2, y2, q);
      MoveX2(Double(p, q), k, x, y, x2, q);
    }
  }

  lemma MoveX2(r: Jacobian, k: int, x: int, y: int, x2: int, q: nat)
    requires Cong(x, x2, q) && Represents(r, ThirdX(k, x, x), ThirdY(k, x, y, ThirdX(k, x, x)), q)
    ensures Represents(r, ThirdX(k, x, x2), ThirdY(k, x, y, ThirdX(k, x, x2)), q)
  {
    var a, b, zz := ThirdX(k, x, x), ThirdX(k, x, x2), r.z * r.z;
    CongRefl(k * k - x, q);
    CongAdd(k * k - x, k * k - x, x, x2, q);
    CongMul(a, b, zz, zz, q) by { CongRefl(zz, q); }
    CongTrans(r.x, a * zz, b * zz, q);
    CongRefl(x, q);
    CongAdd(x, x, a, b, q);
    CongScale(k, x - a, x - b, q);
    CongRefl(y, q);
    CongAdd(k * (x - a), k * (x - b), y, y, q);
    CongMul(ThirdY(k, x, y, a), ThirdY(k, x, y, b), Cube(r.z), Cube(r.z), q) by { CongRefl(Cube(r.z), q); }
    CongTrans(r.y, ThirdY(k, x, y, a) * Cube(r.z), ThirdY(k, x, y, b) * Cube(r.z), q);
  }

  /** Addition of two finite curve points: chord, tangent and inverse cases alike. */
  lemma AddIsSum(p: Jacobian, r: Jacobian, x1: int, y1: int, x2: int, y2: int, b: int, q: nat)
    requires Field(q) && Represents(p, x1, y1, q) && Represents(r, x2, y2, q)
    requires OnCurve(x1, y1, b, q) && OnCurve(x2, y2, b, q)
    ensures IsSum(Add(p, r, q), x1, y1, x2, y2, q)
  {
    ZeroTest(p.z, q);
    ZeroTest(r.z, q);
    CommonDenominator(p, x1, y1, r.z, q);
    CommonDenominator(r, x2, y2, p.z, q);
    var c := p.z * r.z;
    assert r.z * p.z == c;
    var u1, s1 := p.x * (r.z * r.z), p.y * r.z * (r.z * r.z);
    var u2, s2 := r.x * (p.z * p.z), r.y * p.z * (p.z * p.z);
    ProductNonzero(p.z, r.z, q);
    DifferenceVanishes(u1, s1, u2, s2, x1, y1, x2, y2, c, q);
    ZeroTest(u2 - u1, q);
    ZeroTest(s2 - s1, q);
    if !Cong(x1, x2, q) {
      var k := ChordSlope(x1, y1, x2, y2, q);
      ChordCorrect(u1, s1, u2, s2, x1, y1, x2, y2, c, k, q);
      assert Slope(k, x1, y1, x2, y2, q);
    } else if Cong(y1, y2, q) {
      DoubleIsSum(p, x1, y1, x2, y2, q);
    } else {
      SameAbscissa(x1, y1, x2, y2, b, q);
      ProductNonzero(c, u2 - u1, q);
    }
  }

  /** The operands for which mixed addition lacks a case: the same finite point, not of order two. */
  ghost predicate MissingCase(x1: int, y1: int, x2: int, y2: int, q: nat)
  {
    Cong(x1, x2, q) && Cong(y1, y2, q) && !Cong(y1, 0, q)
  }

  /** Mixed addition computes the sum of two finite curve points exactly when they are not the same
      point, points of order two aside; on the same point it returns the identity. */
  lemma AddAffineIsSum(p: Jacobian, r: Affine, x1: int, y1: int, b: int, q: nat)
    requires Field(q) && Represents(p, x1, y1, q) && !r.infinity
    requires OnCurve(x1, y1, b, q) && OnCurve(r.x, r.y, b, q)
    ensures IsSum(AddAffine(p, r, q), x1, y1, r.x, r.y, q) <==> !MissingCase(x1, y1, r.x, r.y, q)
    ensures MissingCase(x1, y1, r.x, r.y, q) ==> Identity(AddAffine(p, r, q), q)
  {
    hide Cong;
    ZeroTest(p.z, q);
    var c := p.z;
    var u1, s1, u2, s2 := p.x, p.y, r.x * (c * c), r.y * c * (c * c);
    MulAssoc(r.y, c, c * c);
    assert c * (c * c) == Cube(c) by { MulAssoc(c, c, c); }
    CongRefl(u2, q);
    CongRefl(s2, q);
    DifferenceVanishes(u1, s1, u2, s2, x1, y1, r.x, r.y, c, q);
    ProductNonzero(c, u2 - u1, q);
    SmallUnits(q);
    if !Cong(x1, r.x, q) {
      var k := ChordSlope(x1, y1, r.x, r.y, q);
      ChordCorrect(u1, s1, u2, s2, x1, y1, r.x, r.y, c, k, q);
      assert Slope(k, x1, y1, r.x, r.y, q);
    } else {
      SameAbscissa(x1, y1, r.x, r.y, b, q);
      if Cong(y1, r.y, q) { SelfInverse(y1, r.y, q); }
    }
  }

  /** The identity is neutral in all three operations. */
  lemma IdentityCases(p: Jacobian, r: Jacobian, a: Affine, q: nat)
    requires Field(q)
    ensures Identity(p, q) ==> Add(p, r, q) == r && Identity(Double(p, q), q)
    ensures Identity(r, q) ==> Add(p, r, q) == p || Identity(Add(p, r, q), q)
    ensures a.infinity ==> AddAffine(p, a, q) == p
    ensures !a.infinity && Identity(p, q) ==> Represents(AddAffine(p, a, q), a.x, a.y, q)
  {
    ZeroTest(p.z, q);
    ZeroTest(r.z, q);
    SmallUnits(q);
    CongRefl(a.x, q);
    CongRefl(a.y, q);
  }

  // ── Closure: the third point is on the curve ─────────────────────

  /** The cubic minus the squared line differs from the product over the three roots by a linear
      remainder; alpha and beta are its coefficients. */
  lemma LineMeetsCurve(k: int, c: int, x1: int, x2: int, b: int)
    ensures var x3 := ThirdX(k, x1, x2);
            var alpha, beta := -2 * k * c - (x1 * x2 + (x1 + x2) * x3), b - c * c + x1 * x2 * x3;
            && Cube(x1) + b - (c + k * x1) * (c + k * x1) == alpha * x1 + beta
            && Cube(x2) + b - (c + k * x2) * (c + k * x2) == alpha * x2 + beta
            && Cube(x3) + b - (c + k * x3) * (c + k * x3) == alpha * x3 + beta
  {
    var x3 := ThirdX(k, x1, x2);
    LineAt(k, c, x1, x2, x3, b, x1);
    LineAt(k, c, x1, x2, x3, b, x2);
    LineAt(k, c, x1, x2, x3, b, x3);
  }

  lemma LineAt(k: int, c: int, x1: int, x2: int, x3: int, b: int, e: int)
    requires k * k == x1 + x2 + x3 && (e == x1 || e == x2 || e == x3)
    ensures Cube(e) + b - (c + k * e) * (c + k * e)
         == (-2 * k * c - (x1 * x2 + (x1 + x2) * x3)) * e + (b - c * c + x1 * x2 * x3)
  {
    SquareLine(k, c, e);
    Vieta(x1, x2, x3, e);
    LineTerms(k, c, e, x1 * x2 + (x1 + x2) * x3);
  }

  lemma LineTerms(k: int, c: int, e: int, s: int)
    ensures (-2 * k * c - s) * e == -(2 * k * c * e) - s * e
  {}

  lemma SquareLine(k: int, c: int, e: int)
    ensures (c + k * e) * (c + k * e) == c * c + 2 * k * c * e + (k * k) * (e * e)
  {
    MulSwap(k, e, k, e);
  }

  lemma Vieta(x1: int, x2: int, x3: int, e: int)
    requires e == x1 || e == x2 || e == x3
    ensures Cube(e) - (x1 + x2 + x3) * (e * e) + (x1 * x2 + (x1 + x2) * x3) * e - x1 * x2 * x3 == 0
  {
    if e == x1 { VietaFirst(e, x2, x3); }
    else if e == x2 { VietaFirst(e, x1, x3); }
    else { VietaFirst(e, x1, x2); }
  }

  lemma VietaFirst(e: int, u: int, v: int)
    ensures Cube(e) - (e + u + v) * (e * e) + (e * u + (e + u) * v) * e - e * u * v == 0
    ensures Cube(e) - (u + e + v) * (e * e) + (u * e + (u + e) * v) * e - u * e * v == 0
    ensures Cube(e) - (u + v + e) * (e * e) + (u * v + (u + v) * e) * e - u * v * e == 0
  {}

  /** Where the remainder vanishes identically the third point satisfies the curve equation. */
  lemma ThirdFromRemainder(k: int, x1: int, y1: int, x2: int, b: int, alpha: int, beta: int, q: nat)
    requires OnCurve(x1, y1, b, q)
    requires var x3, c := ThirdX(k, x1, x2), y1 - k * x1;
             && alpha == -2 * k * c - (x1 * x2 + (x1 + x2) * x3) && beta == b - c * c + x1 * x2 * x3
    requires Cong(alpha, 0, q)
    ensures OnCurve(ThirdX(k, x1, x2), ThirdY(k, x1, y1, ThirdX(k, x1, x2)), b, q)
  {
    hide Cong;
    var x3, c := ThirdX(k, x1, x2), y1 - k * x1;
    var y3 := ThirdY(k, x1, y1, x3);
    LineMeetsCurve(k, c, x1, x2, b);
    assert c + k * x1 == y1;
    CongSym(y1 * y1, Cube(x1) + b, q);
    ZeroDifference(Cube(x1) + b, y1 * y1, q);
    CongSym(Cube(x1) + b, y1 * y1, q);
    assert Cong(alpha * x1 + beta, 0, q);
    CongMul(alpha, 0, x3 - x1, x3 - x1, q) by { CongRefl(x3 - x1, q); }
    CongAdd(alpha * (x3 - x1), 0, alpha * x1 + beta, 0, q);
    assert alpha * (x3 - x1) + (alpha * x1 + beta) == alpha * x3 + beta by { LinearShift(alpha, x3, x1, beta); }
    assert c + k * x3 == -y3 by { LineValue(k, x1, y1, x3); }
    assert (-y3) * (-y3) == y3 * y3;
    ZeroDifference(Cube(x3) + b, y3 * y3, q);
  }

  lemma LinearShift(a: int, x: int, y: int, b: int)
    ensures a * (x - y) + (a * y + b) == a * x + b
  {}

  lemma LineValue(k: int, x1: int, y1: int, x3: int)
    ensures y1 - k * x1 + k * x3 == -(k * (x1 - x3) - y1)
  {}

  lemma ChordClosed(k: int, x1: int, y1: int, x2: int, y2: int, b: int, q: nat)
    requires Field(q) && OnCurve(x1, y1, b, q) && OnCurve(x2, y2, b, q)
    requires !Cong(x1, x2, q) && Cong(k * (x2 - x1), y2 - y1, q)
    ensures OnCurve(ThirdX(k, x1, x2), ThirdY(k, x1, y1, ThirdX(k, x1, x2)), b, q)
  {
    var x3, c := ThirdX(k, x1, x2), y1 - k * x1;
    var alpha, beta := -2 * k * c - (x1 * x2 + (x1 + x2) * x3), b - c * c + x1 * x2 * x3;
    LineMeetsCurve(k, c, x1, x2, b);
    assert c + k * x1 == y1;
    RemainderZero(x1, y1, y1, b, q) by { CongRefl(y1, q); }
    CongRefl(y1, q);
    CongAdd(y1, y1, k * (x2 - x1), y2 - y1, q);
    assert c + k * x2 == y1 + k * (x2 - x1) by { LineValue(k, x1, y1, x2); }
    RemainderZero(x2, y2, c + k * x2, b, q);
    CongAdd(alpha * x2 + beta, 0, alpha * x1 + beta, 0, q);
    assert (alpha * x2 + beta) - (alpha * x1 + beta) == alpha * (x2 - x1) by { LinearShift(alpha, x2, x1, beta); }
    NoZeroDivisors(alpha, x2 - x1, q);
    ZeroDifference(x2, x1, q);
    ThirdFromRemainder(k, x1, y1, x2, b, alpha, beta, q);
  }

  lemma RemainderZero(x: int, y: int, line: int, b: int, q: nat)
    requires OnCurve(x, y, b, q) && Cong(line, y, q)
    ensures Cong(Cube(x) + b - line * line, 0, q)
  {
    CongMul(line, y, line, y, q);
    CongTrans(line * line, y * y, Cube(x) + b, q);
    CongSym(line * line, Cube(x) + b, q);
    ZeroDifference(line * line, Cube(x) + b, q);
    ZeroDifference(Cube(x) + b, line * line, q);
    CongSym(Cube(x) + b, line * line, q);
  }

  lemma TangentClosed(k: int, x: int, y: int, b: int, q: nat)
    requires Field(q) && OnCurve(x, y, b, q) && Cong(k * (2 * y), 3 * (x * x), q)
    ensures OnCurve(ThirdX(k, x, x), ThirdY(k, x, y, ThirdX(k, x, x)), b, q)
  {
    var x3, c := ThirdX(k, x, x), y - k * x;
    var alpha, beta := -2 * k * c - (x * x + (x + x) * x3), b - c * c + x * x * x3;
    TangentRemainder(k, x, y);
    CongSym(k * (2 * y), 3 * (x * x), q);
    ZeroDifference(3 * (x * x), k * (2 * y), q);
    CongSym(3 * (x * x), k * (2 * y), q);
    ThirdFromRemainder(k, x, y, x, b, alpha, beta, q);
  }

  lemma TangentRemainder(k: int, x: int, y: int)
    ensures -2 * k * (y - k * x) - (x * x + (x + x) * ThirdX(k, x, x)) == 3 * (x * x) - k * (2 * y)
  {
    assert (x + x) * (k * k - x - x) == 2 * (x * (k * k)) - 4 * (x * x);
    assert -2 * k * (y - k * x) == 2 * (x * (k * k)) - k * (2 * y) by { TangentExpand(k, x, y); }
  }

  lemma TangentExpand(k: int, x: int, y: int)
    ensures -2 * k * (y - k * x) == 2 * (x * (k * k)) - k * (2 * y)
  {
    assert k * (k * x) == x * (k * k) by { MulShuffleKK(k, x); }
  }

  lemma MulShuffleKK(k: int, x: int)
    ensures k * (k * x) == x * (k * k)
  {}

  /** Finite results of all three operations lie on the curve again. */
  lemma SumOnCurve(k: int, x1: int, y1: int, x2: int, y2: int, b: int, q: nat)
    requires Field(q) && OnCurve(x1, y1, b, q) && OnCurve(x2, y2, b, q) && Slope(k, x1, y1, x2, y2, q)
    ensures OnCurve(ThirdX(k, x1, x2), ThirdY(k, x1, y1, ThirdX(k, x1, x2)), b, q)
  {
    if Cong(x1, x2, q) {
      TangentClosed(k, x1, y1, b, q);
      MoveOnCurve(k, x1, y1, x2, b, q);
    } else {
      ChordClosed(k, x1, y1, x2, y2, b, q);
    }
  }

  lemma MoveOnCurve(k: int, x: int, y: int, x2: int, b: int, q: nat)
    requires Cong(x, x2, q) && OnCurve(ThirdX(k, x, x), ThirdY(k, x, y, ThirdX(k, x, x)), b, q)
    ensures OnCurve(ThirdX(k, x, x2), ThirdY(k, x, y, ThirdX(k, x, x2)), b, q)
  {
    var a, c := ThirdX(k, x, x), ThirdX(k, x, x2);
    var u, v := ThirdY(k, x, y, a), ThirdY(k, x, y, c);
    CongRefl(k * k - x, q);
    CongRefl(x, q);
    CongRefl(y, q);
    CongRefl(b, q);
    CongAdd(k * k - x, k * k - x, x, x2, q);
    CongAdd(x, x, a, c, q);
    CongScale(k, x - a, x - c, q);
    CongAdd(k * (x - a), k * (x - c), y, y, q);
    CongMul(u, v, u, v, q);
    CongMul(a, c, a, c, q);
    CongMul(a * a, c * c, a, c, q);
    CongAdd(Cube(a), Cube(c), b, b, q);
    CongSym(u * u, v * v, q);
    CongTrans(v * v, u * u, Cube(a) + b, q);
    CongTrans(v * v, Cube(a) + b, Cube(c) + b, q);
  }

  /** The Jacobian form of the curve equation. */
  ghost predicate JacobianOnCurve(p: Jacobian, b: int, q: nat)
  {
    Cong(p.y * p.y, Cube(p.x) + b * (Cube(p.z) * Cube(p.z)), q)
  }

  lemma JacobianEquation(p: Jacobian, x: int, y: int, b: int, q: nat)
    requires Field(q) && Represents(p, x, y, q) && OnCurve(x, y, b, q)
    ensures JacobianOnCurve(p, b, q)
  {
    var zz, c3 := p.z * p.z, Cube(p.z);
    CongMul(p.y, y * c3, p.y, y * c3, q);
    MulSwap(y, c3, y, c3);
    CongMul(y * y, Cube(x) + b, c3 * c3, c3 * c3, q) by { CongRefl(c3 * c3, q); }
    CongMul(p.x, x * zz, p.x, x * zz, q);
    CongMul(p.x * p.x, (x * zz) * (x * zz), p.x, x * zz, q);
    CubeProduct(x, zz);
    CubeProduct(p.z, p.z);
    assert (Cube(x) + b) * (c3 * c3) == Cube(x) * Cube(zz) + b * (c3 * c3) by { DistributeSum(Cube(x), b, c3 * c3); }
    CongRefl(b * (c3 * c3), q);
    CongAdd(Cube(p.x), Cube(x * zz), b * (c3 * c3), b * (c3 * c3), q);
    CongTrans(p.y * p.y, (y * y) * (c3 * c3), Cube(x * zz) + b * (c3 * c3), q);
    CongSym(Cube(p.x) + b * (c3 * c3), Cube(x * zz) + b * (c3 * c3), q);
    CongTrans(p.y * p.y, Cube(x * zz) + b * (c3 * c3), Cube(p.x) + b * (c3 * c3), q);
  }

  lemma DistributeSum(a: int, b: int, c: int)
    ensures (a + b) * c == a * c + b * c
  {}

  // ── Back to affine coordinates ───────────────────────────────────

  /** (X / Z^2, Y / Z^3) with the inverse of Z taken as Z^(q-2). */
  function ToAffine(p: Jacobian, q: nat): Affine
    requires q > 1
  {
    if p.IsIdentity(q) then Affine(0, 0, true)
    else
      var i := Pow(p.z, q - 2);
      var i2 := i * i;
      Affine(p.x * i2, p.y * (i2 * i), false)
  }

  lemma ToAffineRepresents(p: Jacobian, q: nat)
    requires Field(q)
    ensures ToAffine(p, q).infinity <==> Identity(p, q)
    ensures !Identity(p, q) ==> Represents(p, ToAffine(p, q).x, ToAffine(p, q).y, q)
  {
    ZeroTest(p.z, q);
    if !Identity(p, q) {
      var i, z := Pow(p.z, q - 2), p.z;
      Fermat(z, q);
      assert Pow(z, q - 1) == z * i;
      CongMul(z * i, 1, z * i, 1, q);
      MulSwap(z, i, z, i);
      CongMul((z * z) * (i * i), 1, z * i, 1, q);
      MulSwap(z * z, i * i, z, i);
      Restore(p.x, i * i, z * z, q);
      assert Cube(z) == z * z * z;
      Restore(p.y, i * i * i, Cube(z), q);
    }
  }

  lemma Restore(a: int, i: int, z: int, q: nat)
    requires Cong(z * i, 1, q)
    ensures Cong(a, a * i * z, q)
  {
    MulAssoc(a, i, z);
    CongScale(a, z * i, 1, q);
    assert a * (i * z) == a * (z * i);
    CongSym(a * (z * i), a, q);
  }

  // ── Residues decide what a triple represents ─────────────────────

  ghost predicate SameResidues(r: Jacobian, j: Jacobian, q: nat)
  {
    Cong(r.x, j.x, q) && Cong(r.y, j.y, q) && Cong(r.z, j.z, q)
  }

  lemma RepresentsMoves(r: Jacobian, j: Jacobian, x: int, y: int, q: nat)
    requires SameResidues(r, j, q) && Represents(j, x, y, q)
    ensures Represents(r, x, y, q)
  {
    hide Cube;
    CongZero(r.z, j.z, q);
    CubeMoves(r.z, j.z, q);
    CoordinateMoves(r.x, j.x, x, r.z * r.z, j.z * j.z, q);
    CoordinateMoves(r.y, j.y, y, Cube(r.z), Cube(j.z), q);
  }

  lemma CubeMoves(a: int, b: int, q: nat)
    requires Cong(a, b, q)
    ensures Cong(a * a, b * b, q) && Cong(Cube(a), Cube(b), q)
  {
    CongMul(a, b, a, b, q);
    CongMul(a * a, b * b, a, b, q);
  }

  lemma CoordinateMoves(a: int, b: int, x: int, m: int, n: int, q: nat)
    requires Cong(a, b, q) && Cong(b, x * n, q) && Cong(m, n, q)
    ensures Cong(a, x * m, q)
  {
    CongScale(x, m, n, q);
    CongSym(x * m, x * n, q);
    CongTrans(a, b, x * n, q);
    CongTrans(a, x * n, x * m, q);
  }

  lemma SumMoves(r: Jacobian, j: Jacobian, x1: int, y1: int, x2: int, y2: int, q: nat)
    requires SameResidues(r, j, q) && IsSum(j, x1, y1, x2, y2, q)
    ensures IsSum(r, x1, y1, x2, y2, q)
  {
    CongZero(r.z, j.z, q);
    if !(Cong(x1, x2, q) && Cong(y1, -y2, q)) {
      var k :| Slope(k, x1, y1, x2, y2, q)
               && Represents(j, ThirdX(k, x1, x2), ThirdY(k, x1, y1, ThirdX(k, x1, x2)), q);
      RepresentsMoves(r, j, ThirdX(k, x1, x2), ThirdY(k, x1, y1, ThirdX(k, x1, x2)), q);
    }
  }

  lemma FactorMoves(a: int, x: int, x': int, m: int, q: nat)
    requires Cong(a, x * m, q) && Cong(x', x, q)
    ensures Cong(a, x' * m, q)
  {
    CongSym(x', x, q);
    CongRefl(m, q);
    CongMul(x, x', m, m, q);
    CongTrans(a, x * m, x' * m, q);
  }

  /** Any triple with the residues of the sum represents the chord-and-tangent sum, in every case. */
  lemma ResiduesOfSum(r: Jacobian, p: Jacobian, s: Jacobian, x1: int, y1: int, x2: int, y2: int, b: int, q: nat)
    requires Field(q) && OnCurve(x1, y1, b, q) && OnCurve(x2, y2, b, q)
    requires Represents(p, x1, y1, q) && Represents(s, x2, y2, q) && SameResidues(r, Add(p, s, q), q)
    ensures IsSum(r, x1, y1, x2, y2, q)
  {
    AddIsSum(p, s, x1, y1, x2, y2, b, q);
    SumMoves(r, Add(p, s, q), x1, y1, x2, y2, q);
  }

  /** and one with the residues of a mixed sum exactly outside the missing case. */
  lemma ResiduesOfMixedSum(r: Jacobian, p: Jacobian, a: Affine, x1: int, y1: int, b: int, q: nat)
    requires Field(q) && !a.infinity && OnCurve(x1, y1, b, q) && OnCurve(a.x, a.y, b, q)
    requires Represents(p, x1, y1, q) && SameResidues(r, AddAffine(p, a, q), q)
    ensures IsSum(r, x1, y1, a.x, a.y, q) <==> !MissingCase(x1, y1, a.x, a.y, q)
  {
    hide AddAffine, IsSum, MissingCase, Cong, OnCurve, Represents, IsPrime;
    var j := AddAffine(p, a, q);
    AddAffineIsSum(p, a, x1, y1, b, q);
    SameResiduesBack(r, j, q);
    if IsSum(r, x1, y1, a.x, a.y, q) { SumMoves(j, r, x1, y1, a.x, a.y, q); }
    if IsSum(j, x1, y1, a.x, a.y, q) { SumMoves(r, j, x1, y1, a.x, a.y, q); }
  }

  lemma SameResiduesBack(r: Jacobian, j: Jacobian, q: nat)
    requires SameResidues(r, j, q)
    ensures SameResidues(j, r, q)
  {
    CongSym(r.x, j.x, q);
    CongSym(r.y, j.y, q);
    CongSym(r.z, j.z, q);
  }

  /** Coordinates with the residues of the affine form are represented too. */
  lemma ResiduesOfAffine(p: Jacobian, x: int, y: int, q: nat)
    requires Field(q) && !Identity(p, q) && Cong(x, ToAffine(p, q).x, q) && Cong(y, ToAffine(p, q).y, q)
    ensures Represents(p, x, y, q)
  {
    hide ToAffine, Cong, IsPrime, Cube;
    var a := ToAffine(p, q);
    ToAffineRepresents(p, q);
    FactorMoves(p.x, a.x, x, p.z * p.z, q);
    FactorMoves(p.y, a.y, y, Cube(p.z), q);
  }
}
