/**
 * The chord and tangent law of the curve b * y^2 = x^3 + 486662 * x^2 + x in x-coordinates, modulo any n: the formulas
 * of the ladder are its quotients.
 */
module ChordTangent {
  import opened Arith
  import opened MontgomeryLadder

  // ---- identities behind the law ----

  function Cubic(x: int): int {
    x * (Sq(x) + 486662 * x + 1)
  }

  function Slope(x: int): int {
    3 * Sq(x) + 973324 * x + 1
  }

  lemma TangentIdentity(x: int)
    ensures Sq(Slope(x)) - 4 * Cubic(x) * (486662 + 2 * x) == Sq(Sq(x) - 1)
  {
  }

  lemma DoubleScaled(x: int, z: int)
    ensures DoubleX(x * z, z) == Sq(Sq(z)) * Sq(Sq(x) - 1)
    ensures DoubleZ(x * z, z) == Sq(Sq(z)) * (4 * Cubic(x))
  {
  }

  lemma SumScaled(u: int, x2: int, z2: int, x3: int, z3: int)
    ensures SumX(x2 * z2, z2, x3 * z3, z3) == 4 * Sq(z2 * z3) * Sq(x2 * x3 - 1)
    ensures SumZ(u, x2 * z2, z2, x3 * z3, z3) == 4 * Sq(z2 * z3) * (u * Sq(x3 - x2))
  {
    var g, t, d := z2 * z3, x2 * x3 - 1, x3 - x2;
    var v, w := (x2 * z2) * (x3 * z3) - z2 * z3, (x2 * z2) * z3 - z2 * (x3 * z3);
    assert v == t * g && w == -d * g;
    SqProduct(t, g); SqProduct(-d, g);
    assert Sq(-d) == Sq(d);
    hide Sq;
    Regroup(u, Sq(g), Sq(d)); Regroup(1, Sq(g), Sq(t));
  }

  lemma SqProduct(a: int, g: int)
    ensures Sq(a * g) == Sq(g) * Sq(a)
  {
  }

  lemma Regroup(u: int, g: int, d: int)
    ensures 4 * u * (g * d) == 4 * g * (u * d) == 4 * (g * (u * d)) && 4 * g * u == 4 * u * g
  {
  }

  /** The x-coordinate of a doubled point: a tangent of slope lam at (x, y), on the curve with the coefficient b. */
  lemma TangentLaw(b: int, x: int, y: int, lam: int, xr: int, n: int)
    requires n > 0 && Cong(b * (y * y), Cubic(x), n) && Cong(lam * (2 * (b * y)), Slope(x), n)
    requires Cong(xr, b * Sq(lam) - 486662 - 2 * x, n)
    ensures Cong(4 * Cubic(x) * xr, Sq(Sq(x) - 1), n)
  {
    var f, g, h, e := Cubic(x), Slope(x), b * Sq(lam), lam * (2 * (b * y));
    CongMul(e, g, e, g, n);
    TangentSquare(b, y, lam);
    TangentIdentity(x);
    assert Cong(Sq(e), Sq(g), n);
    hide Cong, Cubic, Slope, Sq;
    TangentModulo(b * (y * y), f, h, xr, 486662 + 2 * x, Sq(g), n);
  }

  lemma TangentModulo(t: int, f: int, h: int, xr: int, c: int, g: int, n: int)
    requires n > 0 && Cong(t, f, n) && Cong(4 * (t * h), g, n) && Cong(xr, h - c, n)
    ensures Cong(4 * f * xr, g - 4 * f * c, n)
  {
    CongMul(t, f, h, h, n);
    CongMul(4, 4, t * h, f * h, n);
    CongMul(4 * f, 4 * f, xr, h - c, n);
    assert 4 * f * (h - c) == 4 * (f * h) - 4 * f * c by { MulDistrib(4 * f, h, c); MulAssoc(4, f, h); }
    CongAdd(4 * (f * h), g, 4 * f * c, 4 * f * c, n);
  }

  lemma TangentSquare(b: int, y: int, lam: int)
    ensures Sq(lam * (2 * (b * y))) == 4 * ((b * (y * y)) * (b * Sq(lam)))
  {
  }

  /** From a slope lam with lam * d = y3 - y2, d = x3 - x2: the scaled x-coordinate of the sum. */
  lemma ChordScaled(b: int, d: int, dy: int, lam: int, xr: int, c: int, n: int)
    requires n > 0 && Cong(lam * d, dy, n) && Cong(xr, b * Sq(lam) - c, n)
    ensures Cong(Sq(d) * xr, b * Sq(dy) - Sq(d) * c, n)
  {
    CongMul(lam * d, dy, lam * d, dy, n);
    CongMul(b, b, Sq(lam * d), Sq(dy), n);
    CongMul(Sq(d), Sq(d), xr, b * Sq(lam) - c, n);
    assert Sq(d) * (b * Sq(lam) - c) == b * Sq(lam * d) - Sq(d) * c by { ChordSquare(b, d, lam, c); }
    CongAdd(b * Sq(lam * d), b * Sq(dy), Sq(d) * c, Sq(d) * c, n);
  }

  lemma ChordSquare(b: int, d: int, lam: int, c: int)
    ensures Sq(d) * (b * Sq(lam) - c) == b * Sq(lam * d) - Sq(d) * c
  {
  }

  /** With the sum s and the product p of two x-coordinates. */
  lemma SymmetricIdentity(s: int, p: int, c: int, q: int, f: int, e: int)
    requires q == s * c + (1 - p) && f == s * s * c - 2 * (p * c) + s * (1 - p) && e == s * s - 4 * p
    ensures Sq(q) - 2 * c * f + e * (c * c) == Sq(p - 1)
  {
  }

  lemma PowerSums(x: int, y: int, s: int, p: int)
    requires s == x + y && p == x * y
    ensures x * x * x + y * y * y == s * (s * s) - 3 * (s * p) && x * x + y * y == s * s - 2 * p
  {
  }

  lemma PowerDifferences(x: int, y: int, d: int, s: int, p: int)
    requires d == y - x && s == x + y && p == x * y
    ensures y * y * y - x * x * x == d * (s * s - p) && y * y - x * x == d * s
  {
  }

  lemma CubicPowers(x: int)
    ensures Cubic(x) == x * x * x + 486662 * (x * x) + x
  {
  }

  lemma CubicDifference(x2: int, x3: int, s: int, p: int, c: int)
    requires s == x2 + x3 && p == x2 * x3 && c == 486662 + s
    ensures Cubic(x3) - Cubic(x2) == (x3 - x2) * (s * c + (1 - p))
  {
    hide Cubic;
    CubicPowers(x2); CubicPowers(x3);
    PowerDifferences(x2, x3, x3 - x2, s, p);
    DifferenceOfPowers(x3 - x2, s, p, c, x3 * x3 * x3 - x2 * x2 * x2, x3 * x3 - x2 * x2);
  }

  lemma DifferenceOfPowers(d: int, s: int, p: int, c: int, cubes: int, squares: int)
    requires c == 486662 + s && cubes == d * (s * s - p) && squares == d * s
    ensures cubes + 486662 * squares + d == d * (s * c + (1 - p))
  {
  }

  lemma CubicSum(x2: int, x3: int, s: int, p: int, c: int)
    requires s == x2 + x3 && p == x2 * x3 && c == 486662 + s
    ensures Cubic(x3) + Cubic(x2) == s * s * c - 2 * (p * c) + s * (1 - p)
  {
    hide Cubic;
    CubicPowers(x2); CubicPowers(x3);
    PowerSums(x2, x3, s, p);
    SumOfPowers(s, p, c, x2 * x2 * x2 + x3 * x3 * x3, x2 * x2 + x3 * x3);
  }

  lemma SumOfPowers(s: int, p: int, c: int, cubes: int, squares: int)
    requires c == 486662 + s && cubes == s * (s * s) - 3 * (s * p) && squares == s * s - 2 * p
    ensures cubes + 486662 * squares + s == s * s * c - 2 * (p * c) + s * (1 - p)
  {
  }

  /** The product of the x-coordinates of sum and difference, still scaled. */
  lemma ChordIdentity(x2: int, x3: int, d: int, c: int)
    requires d == x3 - x2 && c == 486662 + x2 + x3
    ensures Sq(Cubic(x3) - Cubic(x2)) - 2 * (Sq(d) * c) * (Cubic(x3) + Cubic(x2)) + Sq(Sq(d) * c)
         == Sq(d) * Sq(x2 * x3 - 1)
  {
    var s, p := x2 + x3, x2 * x3;
    var q, f, e := s * c + (1 - p), Cubic(x3) + Cubic(x2), Sq(d);
    CubicDifference(x2, x3, s, p, c); CubicSum(x2, x3, s, p, c);
    assert e == s * s - 4 * p by { SquareOfDifference(x2, x3); }
    hide Cubic, Sq;
    SymmetricIdentity(s, p, c, q, f, e);
    FactorSquare(d, q, c, f, e, p);
  }

  lemma SquareOfDifference(x: int, y: int)
    ensures Sq(y - x) == (x + y) * (x + y) - 4 * (x * y)
  {
  }

  lemma FactorSquare(d: int, q: int, c: int, f: int, e: int, p: int)
    requires Sq(d) == e && Sq(q) - 2 * c * f + e * (c * c) == Sq(p - 1)
    ensures Sq(d * q) - 2 * (e * c) * f + Sq(e * c) == e * Sq(p - 1)
  {
    assert Sq(d * q) == e * Sq(q) by { assert (d * q) * (d * q) == (d * d) * (q * q); }
    assert e * (Sq(q) - 2 * c * f + e * (c * c)) == e * Sq(q) - 2 * (e * c) * f + (e * c) * (e * c);
  }

  lemma ChordProduct(b: int, y2: int, y3: int, e: int)
    ensures (b * Sq(y3 - y2) - e) * (b * Sq(y3 + y2) - e)
         == Sq(b * Sq(y3) - b * Sq(y2)) - 2 * e * (b * Sq(y3) + b * Sq(y2)) + Sq(e)
  {
  }

  /** The same with the values of the cubic, which the curve equation provides, in place of b * y^2. */
  lemma ChordModulo(b: int, y2: int, y3: int, f2: int, f3: int, e: int, n: int)
    requires n > 0 && Cong(b * Sq(y2), f2, n) && Cong(b * Sq(y3), f3, n)
    ensures Cong((b * Sq(y3 - y2) - e) * (b * Sq(y3 + y2) - e), Sq(f3 - f2) - 2 * e * (f3 + f2) + Sq(e), n)
  {
    var g2, g3 := b * Sq(y2), b * Sq(y3);
    ChordProduct(b, y2, y3, e);
    CongAdd(g3, f3, g2, f2, n);
    CongMul(g3 - g2, f3 - f2, g3 - g2, f3 - f2, n);
    CongMul(2 * e, 2 * e, g3 + g2, f3 + f2, n);
    CongAdd(Sq(g3 - g2), Sq(f3 - f2), 2 * e * (g3 + g2), 2 * e * (f3 + f2), n);
    CongAdd(Sq(g3 - g2) - 2 * e * (g3 + g2), Sq(f3 - f2) - 2 * e * (f3 + f2), Sq(e), Sq(e), n);
  }

  /**
   * The x-coordinates xs of the sum and xd of the difference of (x2, y2) and (x3, y3), from the chords through
   * (x2, y2) and (x2, -y2); w is the inverse of x3 - x2.
   */
  lemma ChordLaw(b: int, x2: int, y2: int, x3: int, y3: int, lam: int, mu: int, xs: int, xd: int, w: int, n: int)
    requires n > 0 && Cong(b * Sq(y2), Cubic(x2), n) && Cong(b * Sq(y3), Cubic(x3), n)
    requires Cong(lam * (x3 - x2), y3 - y2, n) && Cong(xs, b * Sq(lam) - (486662 + x2 + x3), n)
    requires Cong(mu * (x3 - x2), y3 + y2, n) && Cong(xd, b * Sq(mu) - (486662 + x2 + x3), n)
    requires Cong((x3 - x2) * w, 1, n)
    ensures Cong((xs * xd) * Sq(x3 - x2), Sq(x2 * x3 - 1), n)
  {
    var d, c := x3 - x2, 486662 + x2 + x3;
    ChordIdentity(x2, x3, d, c);
    hide Cubic, Cong, Sq;
    var r := Sq(d);
    var e := r * c;
    ChordScaled(b, d, y3 - y2, lam, xs, c, n);
    ChordScaled(b, d, y3 + y2, mu, xd, c, n);
    ChordModulo(b, y2, y3, Cubic(x2), Cubic(x3), e, n);
    ProductModulo(r, xs, xd, b * Sq(y3 - y2) - e, b * Sq(y3 + y2) - e, r * Sq(x2 * x3 - 1), n);
    CancelSquare((xs * xd) * r, Sq(x2 * x3 - 1), d, w, r * ((xs * xd) * r), n);
  }

  lemma ProductModulo(r: int, x: int, y: int, a: int, b: int, t: int, n: int)
    requires n > 0 && Cong(r * x, a, n) && Cong(r * y, b, n) && Cong(a * b, t, n)
    ensures Cong(r * ((x * y) * r), t, n)
  {
    CongMul(r * x, a, r * y, b, n);
    assert (r * x) * (r * y) == r * ((x * y) * r) by { MulAssoc(r * x, r, y); MulSwap(x, r, y); MulAssoc(r, x, r * y); }
  }

  lemma CancelSquare(x: int, y: int, d: int, w: int, z: int, n: int)
    requires n > 0 && Cong(d * w, 1, n) && Cong(z, Sq(d) * y, n) && z == Sq(d) * x
    ensures Cong(x, y, n)
  {
    UnitSquare(d, w, n);
    assert z == x * Sq(d) && Sq(d) * y == y * Sq(d);
    CongCancel(x, y, Sq(d), Sq(w), n);
  }

  lemma UnitSquare(d: int, w: int, n: int)
    requires n > 0 && Cong(d * w, 1, n)
    ensures Cong(Sq(d) * Sq(w), 1, n)
  {
    CongMul(d * w, 1, d * w, 1, n);
    assert (d * w) * (d * w) == Sq(d) * Sq(w);
  }

  // ---- the laws in projective coordinates ----

  /** A common factor k of (x : z) drops out of the quotient. */
  lemma Ratio(x: int, z: int, k: int, v: int, w: int, a: int, n: int)
    requires n > 0 && Cong(x, k * w, n) && Cong(z, k * v, n) && Cong(v * a, w, n)
    ensures Cong(x, a * z, n)
  {
    CongMul(k, k, v * a, w, n);
    CongMul(a, a, z, k * v, n);
    assert a * (k * v) == k * (v * a);
  }

  lemma DoubleRatio(x: int, z: int, a: int, b: int, y: int, lam: int, xr: int, n: int)
    requires n > 0 && Cong(x, a * z, n) && Cong(b * (y * y), Cubic(a), n) && Cong(lam * (2 * (b * y)), Slope(a), n)
    requires Cong(xr, b * Sq(lam) - 486662 - 2 * a, n)
    ensures Cong(DoubleX(x, z), xr * DoubleZ(x, z), n) && Cong(DoubleZ(x, z), Sq(Sq(z)) * (4 * Cubic(a)), n)
  {
    hide Cubic, Sq, DoubleX, DoubleZ, Slope;
    TangentLaw(b, a, y, lam, xr, n);
    DoubleCong(x, a * z, z, n);
    DoubleScaled(a, z);
    Ratio(DoubleX(x, z), DoubleZ(x, z), Sq(Sq(z)), 4 * Cubic(a), Sq(Sq(a) - 1), xr, n);
  }

  lemma DoubleCong(x: int, x': int, z: int, n: int)
    requires n > 0 && Cong(x, x', n)
    ensures Cong(DoubleX(x, z), DoubleX(x', z), n) && Cong(DoubleZ(x, z), DoubleZ(x', z), n)
  {
    CongMul(x, x', x, x', n);
    CongMul(x, x', z, z, n);
    var p, p', s, s' := x * z, x' * z, Sq(x), Sq(x');
    CongAdd(s, s', Sq(z), Sq(z), n);
    CongMul(s - Sq(z), s' - Sq(z), s - Sq(z), s' - Sq(z), n);
    CongMul(486662, 486662, p, p', n);
    CongAdd(s, s', 486662 * p, 486662 * p', n);
    CongAdd(s + 486662 * p, s' + 486662 * p', Sq(z), Sq(z), n);
    CongMul(4, 4, p, p', n);
    CongMul(4 * p, 4 * p', s + 486662 * p + Sq(z), s' + 486662 * p' + Sq(z), n);
  }

  lemma SumCong(x1: int, x2: int, x2': int, z2: int, x3: int, x3': int, z3: int, n: int)
    requires n > 0 && Cong(x2, x2', n) && Cong(x3, x3', n)
    ensures Cong(SumX(x2, z2, x3, z3), SumX(x2', z2, x3', z3), n)
    ensures Cong(SumZ(x1, x2, z2, x3, z3), SumZ(x1, x2', z2, x3', z3), n)
  {
    CongMul(x2, x2', x3, x3', n);
    CongMul(x2, x2', z3, z3, n);
    CongMul(z2, z2, x3, x3', n);
    var p, p', d, d' := x2 * x3 - z2 * z3, x2' * x3' - z2 * z3, x2 * z3 - z2 * x3, x2' * z3 - z2 * x3';
    CongAdd(x2 * x3, x2' * x3', z2 * z3, z2 * z3, n);
    CongAdd(x2 * z3, x2' * z3, z2 * x3, z2 * x3', n);
    CongMul(p, p', p, p', n);
    CongMul(d, d', d, d', n);
    hide Sq;
    CongMul(4, 4, Sq(p), Sq(p'), n);
    CongMul(4 * x1, 4 * x1, Sq(d), Sq(d'), n);
  }

  /** a2, a3 are the affine x-coordinates, u that of the difference and xs that of the sum. */
  lemma SumRatio(x2: int, z2: int, x3: int, z3: int, a2: int, a3: int, u: int, xs: int, n: int)
    requires n > 0 && Cong(x2, a2 * z2, n) && Cong(x3, a3 * z3, n)
    requires Cong((u * Sq(a3 - a2)) * xs, Sq(a2 * a3 - 1), n)
    ensures Cong(SumX(x2, z2, x3, z3), xs * SumZ(u, x2, z2, x3, z3), n)
    ensures Cong(SumZ(u, x2, z2, x3, z3), 4 * Sq(z2 * z3) * (u * Sq(a3 - a2)), n)
  {
    hide Sq, SumX, SumZ;
    SumCong(u, x2, a2 * z2, z2, x3, a3 * z3, z3, n);
    SumScaled(u, a2, z2, a3, z3);
    Ratio(SumX(x2, z2, x3, z3), SumZ(u, x2, z2, x3, z3), 4 * Sq(z2 * z3), u * Sq(a3 - a2), Sq(a2 * a3 - 1), xs, n);
  }
}
