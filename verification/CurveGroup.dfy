/**
 * The points of the curve and of its twist modulo an odd n, infinity included, and the ladder step on them. X25519 has
 * n = 2^255 - 19; the proofs need no more of n than IsField says.
 */
module CurveGroup {
  import opened Arith
  import opened Fermat
  import opened Field51
  import opened MontgomeryLadder
  import opened ChordTangent

  // ---- numbers modulo n ----

  type Odd = n: nat | n % 2 == 1 && n > 1 witness 3

  /** An odd prime that does not divide 486662^2 - 4. */
  ghost predicate IsField(n: Odd) {
    Prime(n) && n > 236839902240
  }

  ghost predicate Inverse(x: int, w: int, n: Odd) {
    Cong(x * w, 1, n)
  }

  ghost predicate Unit(x: int, n: Odd) {
    exists w :: Inverse(x, w, n)
  }

  lemma UnitMul(x: int, y: int, n: Odd)
    requires Unit(x, n) && Unit(y, n)
    ensures Unit(x * y, n)
  {
    var v, w :| Inverse(x, v, n) && Inverse(y, w, n);
    CongMul(x * v, 1, y * w, 1, n);
    assert (x * v) * (y * w) == (x * y) * (v * w);
    assert Inverse(x * y, v * w, n);
  }

  lemma UnitFactor(x: int, y: int, n: Odd)
    requires Unit(x * y, n)
    ensures Unit(x, n) && Unit(y, n)
  {
    hide Cong;
    var w :| Inverse(x * y, w, n);
    MulAssoc(x, y, w); Rotate(x, y, w);
    assert Inverse(x, y * w, n) && Inverse(y, x * w, n);
  }

  lemma UnitCong(x: int, y: int, n: Odd)
    requires Unit(x, n) && Cong(x, y, n)
    ensures Unit(y, n)
  {
    var w :| Inverse(x, w, n);
    CongMul(x, y, w, w, n);
    assert Inverse(y, w, n);
  }

  lemma UnitTwo(n: Odd)
    ensures Unit(2, n)
  {
    CongIntro(2 * ((n + 1) / 2), 1, 1, n);
    assert Inverse(2, (n + 1) / 2, n);
  }

  lemma Field(x: int, n: Odd)
    requires IsField(n)
    ensures Unit(x, n) || Cong(x, 0, n)
  {
    CongMod(x, n);
    if Red(x, n) > 0 {
      InverseByPower(n, Red(x, n));
      var w := Pow(Red(x, n), n - 2) % n;
      hide IsField, Prime, Pow;
      InverseOfResidue(x, Red(x, n), w, n);
      assert Inverse(x, w, n);
    }
  }

  lemma InverseOfResidue(x: int, y: int, w: int, n: int)
    requires n > 1 && Cong(y, x, n) && y * w % n == 1
    ensures Cong(x * w, 1, n)
  {
    CongMul(y, x, w, w, n);
    DivModUnique(1, n, 0, 1);
  }

  lemma ZeroMul(x: int, y: int, n: Odd)
    requires Cong(x, 0, n)
    ensures Cong(x * y, 0, n) && Cong(y * x, 0, n)
  {
    CongMul(x, 0, y, y, n);
  }

  lemma UnitNotZero(x: int, n: Odd)
    requires Unit(x, n)
    ensures !Cong(x, 0, n)
  {
    if Cong(x, 0, n) {
      var w :| Inverse(x, w, n);
      ZeroMul(x, w, n);
    }
  }

  // ---- the group ----

  datatype Point = Infinity | Affine(x: int, y: int)

  function Negate(p: Point): Point {
    if p.Infinity? then Infinity else Affine(p.x, -p.y)
  }

  ghost predicate Same(p: Point, q: Point, n: Odd) {
    if p.Infinity? || q.Infinity? then p.Infinity? && q.Infinity? else Cong(p.x, q.x, n) && Cong(p.y, q.y, n)
  }

  /** The points of b * y^2 = x^3 + 486662 * x^2 + x modulo n: the curve for b = 1, its twist for a non-square b. */
  ghost predicate OnCurve(b: int, p: Point, n: Odd) {
    p.Affine? ==> Cong(b * Sq(p.y), Cubic(p.x), n)
  }

  /** r is the third point on the line of slope lam through p and q, mirrored. */
  ghost predicate Third(b: int, p: Point, q: Point, lam: int, r: Point, n: Odd)
    requires p.Affine? && q.Affine?
  {
    && r.Affine? && Cong(r.x, b * Sq(lam) - (486662 + p.x + q.x), n)
    && Cong(r.y, lam * (p.x - r.x) - p.y, n)
  }

  ghost predicate Tangent(b: int, p: Point, lam: int, n: Odd)
    requires p.Affine?
  {
    Cong(lam * (2 * (b * p.y)), Slope(p.x), n)
  }

  ghost predicate Chord(p: Point, q: Point, lam: int, n: Odd)
    requires p.Affine? && q.Affine?
  {
    Cong(lam * (q.x - p.x), q.y - p.y, n)
  }

  /** r = p + q by the chord and tangent law. */
  ghost predicate Sum(b: int, p: Point, q: Point, r: Point, n: Odd) {
    if p.Infinity? then Same(r, q, n)
    else if q.Infinity? then Same(r, p, n)
    else if !Cong(p.x, q.x, n) then exists lam :: Chord(p, q, lam, n) && Third(b, p, q, lam, r, n)
    else if Cong(p.y + q.y, 0, n) then r.Infinity?
    else exists lam :: Tangent(b, p, lam, n) && Third(b, p, p, lam, r, n)
  }

  /** (x : z) stands for the x-coordinate of p, (1 : 0) and its multiples for infinity. */
  ghost predicate Stands(x: int, z: int, p: Point, n: Odd) {
    if p.Infinity? then Unit(x, n) && Cong(z, 0, n) else Unit(z, n) && Cong(x, p.x * z, n)
  }

  lemma UnitSq(x: int, n: Odd)
    requires Unit(x, n)
    ensures Unit(Sq(x), n)
  {
    UnitMul(x, x, n);
  }

  lemma UnitFour(x: int, n: Odd)
    requires Unit(x, n)
    ensures Unit(4 * x, n)
  {
    UnitTwo(n);
    UnitMul(2, x, n); UnitMul(2, 2 * x, n);
    assert 2 * (2 * x) == 4 * x;
  }

  lemma CongSym(x: int, y: int, n: Odd)
    requires Cong(x, y, n)
    ensures Cong(y, x, n)
  {
  }

  /** Doubling a point of order other than two. */
  lemma DoubleFinite(b: int, p: Point, lam: int, r: Point, x: int, z: int, n: Odd)
    requires p.Affine? && OnCurve(b, p, n) && Unit(b, n) && Unit(p.y, n) && Tangent(b, p, lam, n)
        && Third(b, p, p, lam, r, n)
    requires Stands(x, z, p, n)
    ensures Stands(DoubleX(x, z), DoubleZ(x, z), r, n)
  {
    DoubleRatio(x, z, p.x, b, p.y, lam, r.x, n);
    UnitSq(p.y, n); UnitMul(b, Sq(p.y), n); UnitCong(b * Sq(p.y), Cubic(p.x), n);
    hide Cubic, Sq, DoubleX, DoubleZ, Cong, Unit, Slope;
    UnitSq(z, n); UnitSq(Sq(z), n);
    UnitFour(Cubic(p.x), n);
    UnitMul(Sq(Sq(z)), 4 * Cubic(p.x), n);
    CongSym(DoubleZ(x, z), Sq(Sq(z)) * (4 * Cubic(p.x)), n);
    UnitCong(Sq(Sq(z)) * (4 * Cubic(p.x)), DoubleZ(x, z), n);
  }

  /** A point of order two: the cubic vanishes, and then x^2 - 1 does not, since 486662^2 - 4 does not. */
  lemma OrderTwo(x: int, n: Odd)
    requires IsField(n) && Cong(Cubic(x), 0, n)
    ensures Unit(Sq(x) - 1, n)
  {
    Field(Sq(x) - 1, n);
    if Cong(Sq(x) - 1, 0, n) {
      OrderTwoModulo(x, n);
      hide Cubic, Sq;
      DivModUnique(236839902240, n, 0, 236839902240);
    }
  }

  lemma OrderTwoModulo(x: int, n: int)
    requires n > 0 && Cong(Cubic(x), 0, n) && Cong(Sq(x) - 1, 0, n)
    ensures Cong(236839902240, 0, n)
  {
    // 486662^2 - 4 is a combination of the two
    var f, e, v := Cubic(x), Sq(x) - 1, 2 * x - 486662;
    var k := v * (x + 486662) + 4;
    CongMul(v, v, f, 0, n);
    CongMul(k, k, e, 0, n);
    CongAdd(k * e, 0, v * f, 0, n);
    assert k * e - v * f == 236839902240;
  }

  /** The doubling of the step is doubling on the curve, for every point. */
  lemma DoubleOnCurve(b: int, p: Point, r: Point, x: int, z: int, n: Odd)
    requires IsField(n) && Unit(b, n) && OnCurve(b, p, n) && Sum(b, p, p, r, n) && Stands(x, z, p, n)
    ensures Stands(DoubleX(x, z), DoubleZ(x, z), r, n)
  {
    if p.Infinity? {
      DoubleOfInfinity(x, z, n);
    } else if Cong(p.y + p.y, 0, n) {
      DoubleVanishes(b, p, x, z, n);
    } else {
      var lam :| Tangent(b, p, lam, n) && Third(b, p, p, lam, r, n);
      Field(p.y, n);
      assert Unit(p.y, n) by {
        if Cong(p.y, 0, n) { CongAdd(p.y, 0, p.y, 0, n); }
      }
      DoubleFinite(b, p, lam, r, x, z, n);
    }
  }

  lemma DoubleOfInfinity(x: int, z: int, n: Odd)
    requires Unit(x, n) && Cong(z, 0, n)
    ensures Unit(DoubleX(x, z), n) && Cong(DoubleZ(x, z), 0, n)
  {
    hide Cong, Unit;
    ZeroMul(z, z, n);
    CongSelf(Sq(x), n);
    CongAdd(Sq(x), Sq(x), Sq(z), 0, n);
    UnitSq(x, n);
    CongSym(Sq(x) - Sq(z), Sq(x), n);
    UnitCong(Sq(x), Sq(x) - Sq(z), n);
    UnitSq(Sq(x) - Sq(z), n);
    var t := 4 * x * (Sq(x) + 486662 * (x * z) + Sq(z));
    ZeroMul(z, t, n);
    assert DoubleZ(x, z) == z * t by { ZFirst(x, z, Sq(x) + 486662 * (x * z) + Sq(z)); }
  }

  lemma ZFirst(x: int, z: int, t: int)
    ensures 4 * (x * z) * t == z * (4 * x * t)
  {
  }

  lemma CongSelf(x: int, n: Odd)
    ensures Cong(x, x, n)
  {
  }

  lemma DoubleVanishes(b: int, p: Point, x: int, z: int, n: Odd)
    requires IsField(n) && p.Affine? && OnCurve(b, p, n) && Cong(p.y + p.y, 0, n) && Unit(z, n) && Cong(x, p.x * z, n)
    ensures Unit(DoubleX(x, z), n) && Cong(DoubleZ(x, z), 0, n)
  {
    hide IsField, Cubic, DoubleX, DoubleZ, Cong, Unit;
    HalfZero(p.y, n);
    ZeroMul(p.y, b * p.y, n);
    assert b * Sq(p.y) == p.y * (b * p.y) by { MulSwap(b, p.y, p.y); }
    hide Sq;
    CongSym(b * Sq(p.y), Cubic(p.x), n);
    CongTrans(Cubic(p.x), b * Sq(p.y), 0, n);
    OrderTwo(p.x, n);
    DoubleCong(x, p.x * z, z, n);
    DoubleScaled(p.x, z);
    var k, e := Sq(Sq(z)), Sq(Sq(p.x) - 1);
    UnitSq(z, n); UnitSq(Sq(z), n); UnitSq(Sq(p.x) - 1, n);
    UnitMul(k, e, n);
    CongSym(DoubleX(x, z), k * e, n);
    UnitCong(k * e, DoubleX(x, z), n);
    ZeroMul(Cubic(p.x), 4, n);
    ZeroMul(4 * Cubic(p.x), k, n);
    CongTrans(DoubleZ(x, z), k * (4 * Cubic(p.x)), 0, n);
  }

  lemma HalfZero(y: int, n: Odd)
    requires IsField(n) && Cong(y + y, 0, n)
    ensures Cong(y, 0, n)
  {
    hide IsField, Prime;
    Field(y, n);
    if Unit(y, n) {
      UnitTwo(n);
      UnitMul(2, y, n);
      UnitNotZero(2 * y, n);
    }
  }

  /** One of the two points is infinity: the other one is the difference. */
  lemma SumInfinityModulo(x2: int, z2: int, x3: int, z3: int, a: int, u: int, n: int)
    requires n > 0 && Cong(z2, 0, n) && Cong(x3, a * z3, n) && Cong(a, u, n)
    ensures Cong(SumX(x2, z2, x3, z3), a * SumZ(u, x2, z2, x3, z3), n)
    ensures Cong(SumZ(u, x2, z2, x3, z3), 4 * Sq(x2 * z3) * u, n)
  {
    var g, s, w := x2 * z3, x2 * x3 - z2 * z3, x2 * z3 - z2 * x3;
    InfinityTerms(x2, z2, x3, z3, a, n);
    SqProduct(a, g);
    SquareScaled(s, a * g, 1, n); SquareScaled(w, g, u, n);
    CongMul(u, a, a, a, n);
    hide Sq, Cong;
    Regroup(u, Sq(g), 1); Regroup(1, Sq(g), Sq(a));
    InfinityQuotient(SumX(x2, z2, x3, z3), SumZ(u, x2, z2, x3, z3), g, u, a, n);
  }

  lemma InfinityQuotient(x: int, z: int, g: int, u: int, a: int, n: int)
    requires n > 0 && Cong(x, 4 * Sq(g) * Sq(a), n) && Cong(z, 4 * Sq(g) * u, n) && Cong(u * a, a * a, n)
    ensures Cong(x, a * z, n)
  {
    Ratio(x, z, 4 * Sq(g), u, Sq(a), a, n);
  }

  lemma InfinityTerms(x2: int, z2: int, x3: int, z3: int, a: int, n: int)
    requires n > 0 && Cong(z2, 0, n) && Cong(x3, a * z3, n)
    ensures Cong(x2 * x3 - z2 * z3, a * (x2 * z3), n) && Cong(x2 * z3 - z2 * x3, x2 * z3, n)
  {
    CongMul(z2, 0, z3, z3, n); CongMul(z2, 0, x3, x3, n);
    CongMul(x2, x2, x3, a * z3, n);
    CongAdd(x2 * x3, x2 * (a * z3), z2 * z3, 0, n);
    CongAdd(x2 * z3, x2 * z3, z2 * x3, 0, n);
    MulSwap(x2, a, z3);
  }

  lemma SquareScaled(s: int, t: int, u: int, n: int)
    requires n > 0 && Cong(s, t, n)
    ensures Cong(4 * u * Sq(s), 4 * u * Sq(t), n)
  {
    CongMul(s, t, s, t, n);
    CongMul(4 * u, 4 * u, Sq(s), Sq(t), n);
  }

  lemma SumWithInfinity(x2: int, z2: int, x3: int, z3: int, q: Point, u: int, r: Point, n: Odd)
    requires Unit(x2, n) && Cong(z2, 0, n) && q.Affine? && Stands(x3, z3, q, n) && Cong(q.x, u, n) && Unit(u, n)
        && Same(r, q, n)
    ensures Stands(SumX(x2, z2, x3, z3), SumZ(u, x2, z2, x3, z3), r, n)
  {
    hide Sq, SumX, SumZ, Unit;
    SumInfinityModulo(x2, z2, x3, z3, q.x, u, n);
    UnitMul(x2, z3, n); UnitSq(x2 * z3, n); UnitFour(Sq(x2 * z3), n);
    UnitMul(4 * Sq(x2 * z3), u, n);
    CongSym(SumZ(u, x2, z2, x3, z3), 4 * Sq(x2 * z3) * u, n);
    UnitCong(4 * Sq(x2 * z3) * u, SumZ(u, x2, z2, x3, z3), n);
    CongMul(r.x, q.x, SumZ(u, x2, z2, x3, z3), SumZ(u, x2, z2, x3, z3), n);
  }

  /** Two points with different x-coordinates. */
  lemma SumOfChord(b: int, p: Point, q: Point, d: Point, r: Point, lam: int, mu: int, x2: int, z2: int, x3: int,
                   z3: int, u: int, n: Odd)
    requires p.Affine? && q.Affine? && OnCurve(b, p, n) && OnCurve(b, q, n) && Unit(q.x - p.x, n)
    requires Chord(p, q, lam, n) && Third(b, p, q, lam, r, n) && Chord(Negate(p), q, mu, n)
        && Third(b, Negate(p), q, mu, d, n)
    requires Cong(d.x, u, n) && Unit(u, n) && Stands(x2, z2, p, n) && Stands(x3, z3, q, n)
    ensures Stands(SumX(x2, z2, x3, z3), SumZ(u, x2, z2, x3, z3), r, n)
  {
    var w :| Inverse(q.x - p.x, w, n);
    assert q.y - Negate(p).y == q.y + p.y;
    hide Cubic, Sq, SumX, SumZ, Unit;
    ChordLaw(b, p.x, p.y, q.x, q.y, lam, mu, r.x, d.x, w, n);
    DifferenceAs(r.x, d.x, u, Sq(q.x - p.x), Sq(p.x * q.x - 1), n);
    SumRatio(x2, z2, x3, z3, p.x, q.x, u, r.x, n);
    hide Cong;
    var k, v := 4 * Sq(z2 * z3), u * Sq(q.x - p.x);
    UnitMul(z2, z3, n); UnitSq(z2 * z3, n); UnitFour(Sq(z2 * z3), n); UnitSq(q.x - p.x, n);
    UnitMul(u, Sq(q.x - p.x), n);
    UnitMul(k, v, n);
    CongSym(SumZ(u, x2, z2, x3, z3), k * v, n);
    UnitCong(k * v, SumZ(u, x2, z2, x3, z3), n);
  }

  lemma DifferenceAs(xs: int, xd: int, u: int, d: int, t: int, n: int)
    requires n > 0 && Cong(xd, u, n) && Cong((xs * xd) * d, t, n)
    ensures Cong((u * d) * xs, t, n)
  {
    Rotate(xs, xd, d); Rotate(xs, u, d);
    CongMul(xd, u, xs * d, xs * d, n);
  }

  lemma Rotate(x: int, y: int, z: int)
    ensures (x * y) * z == y * (x * z) == (y * z) * x
  {
  }

  /** p and q with the same x-coordinate and a finite difference: q = -p. */
  lemma OppositePoints(b: int, p: Point, q: Point, d: Point, n: Odd)
    requires IsField(n) && Unit(b, n) && p.Affine? && q.Affine? && d.Affine? && OnCurve(b, p, n) && OnCurve(b, q, n)
    requires Cong(p.x, q.x, n) && Sum(b, Negate(p), q, d, n)
    ensures Cong(p.y + q.y, 0, n) && Unit(p.y, n)
    ensures exists mu :: Tangent(b, Negate(p), mu, n) && Third(b, Negate(p), Negate(p), mu, d, n)
  {
    var e, s := q.y - p.y, p.y + q.y;
    assert Negate(p).y + q.y == e;
    Field(e, n);
    CubicCong(p.x, q.x, n);
    CongSym(b * Sq(q.y), Cubic(q.x), n);
    hide Cubic, Prime, Third, Tangent;
    CongAdd(b * Sq(q.y), Cubic(q.x), b * Sq(p.y), Cubic(p.x), n);
    assert b * Sq(q.y) - b * Sq(p.y) == (b * e) * s by { SquareDifference(b, p.y, q.y); }
    CongAdd(Cubic(q.x), Cubic(q.x), Cubic(p.x), Cubic(q.x), n);
    UnitMul(b, e, n);
    UnitCancel(b * e, s, n);
    Field(p.y, n);
    if Cong(p.y, 0, n) {
      CongAdd(p.y, 0, p.y, 0, n);
      CongAdd(s, 0, p.y + p.y, 0, n);
      UnitNotZero(e, n);
    }
  }

  lemma SquareDifference(b: int, x: int, y: int)
    ensures b * Sq(y) - b * Sq(x) == (b * (y - x)) * (x + y)
  {
  }

  lemma CubicCong(x: int, y: int, n: int)
    requires n > 0 && Cong(x, y, n)
    ensures Cong(Cubic(x), Cubic(y), n)
  {
    CongMul(x, y, x, y, n);
    CongMul(486662, 486662, x, y, n);
    CongAdd(Sq(x), Sq(y), 486662 * x, 486662 * y, n);
    CongAdd(Sq(x) + 486662 * x, Sq(y) + 486662 * y, 1, 1, n);
    CongMul(x, y, Sq(x) + 486662 * x + 1, Sq(y) + 486662 * y + 1, n);
  }

  lemma UnitCancel(x: int, y: int, n: Odd)
    requires Unit(x, n) && Cong(x * y, 0, n)
    ensures Cong(y, 0, n)
  {
    var w :| Inverse(x, w, n);
    ZeroMul(x * y, w, n);
    CongMul(x * w, 1, y, y, n);
    Rotate(x, y, w);
    assert (x * w) * y == y * (x * w);
  }

  /** The sum of two opposite points. */
  lemma SumVanishes(b: int, p: Point, q: Point, d: Point, mu: int, x2: int, z2: int, x3: int, z3: int, u: int, n: Odd)
    requires p.Affine? && q.Affine? && OnCurve(b, p, n) && Unit(b, n) && Unit(p.y, n) && Cong(p.x, q.x, n)
    requires Tangent(b, Negate(p), mu, n) && Third(b, Negate(p), Negate(p), mu, d, n) && Cong(d.x, u, n) && Unit(u, n)
    requires Stands(x2, z2, p, n) && Stands(x3, z3, q, n)
    ensures Unit(SumX(x2, z2, x3, z3), n) && Cong(SumZ(u, x2, z2, x3, z3), 0, n)
  {
    UnitSq(p.y, n); UnitMul(b, Sq(p.y), n); UnitCong(b * Sq(p.y), Cubic(p.x), n);
    assert Sq(-p.y) == Sq(p.y);
    TangentLaw(b, p.x, -p.y, mu, d.x, n);
    SumCong(u, x2, p.x * z2, z2, x3, q.x * z3, z3, n);
    SumScaled(u, p.x, z2, q.x, z3);
    CongAdd(q.x, p.x, p.x, p.x, n);
    ZeroMul(q.x - p.x, q.x - p.x, n);
    CongMul(p.x, p.x, q.x, p.x, n);
    CongAdd(p.x * q.x, Sq(p.x), 1, 1, n);
    var f, t, e, k := Cubic(p.x), p.x * q.x - 1, Sq(q.x - p.x), 4 * Sq(z2 * z3);
    hide Cubic, Sq, SumX, SumZ, Unit, Tangent, Third;
    UnitCong(u, d.x, n);
    UnitFour(f, n); UnitMul(4 * f, d.x, n);
    UnitCong(4 * f * d.x, Sq(Sq(p.x) - 1), n);
    UnitSqrt(Sq(p.x) - 1, n);
    CongSym(t, Sq(p.x) - 1, n);
    UnitCong(Sq(p.x) - 1, t, n);
    UnitSq(t, n); UnitMul(z2, z3, n); UnitSq(z2 * z3, n); UnitFour(Sq(z2 * z3), n);
    UnitMul(k, Sq(t), n);
    CongSym(SumX(x2, z2, x3, z3), k * Sq(t), n);
    UnitCong(k * Sq(t), SumX(x2, z2, x3, z3), n);
    ZeroMul(e, u, n); ZeroMul(u * e, k, n);
    CongTrans(SumZ(u, x2, z2, x3, z3), k * (u * e), 0, n);
  }

  lemma UnitSqrt(x: int, n: Odd)
    requires Unit(Sq(x), n)
    ensures Unit(x, n)
  {
    UnitFactor(x, x, n);
  }

  /** The differential addition of the step is addition on the curve: d = q - p, r = p + q, for all points. */
  lemma SumOnCurve(b: int, p: Point, q: Point, d: Point, r: Point, x2: int, z2: int, x3: int, z3: int, u: int, n: Odd)
    requires IsField(n) && Unit(b, n) && OnCurve(b, p, n) && OnCurve(b, q, n)
    requires Sum(b, Negate(p), q, d, n) && Sum(b, p, q, r, n) && d.Affine? && Cong(d.x, u, n) && Unit(u, n)
    requires Stands(x2, z2, p, n) && Stands(x3, z3, q, n)
    ensures Stands(SumX(x2, z2, x3, z3), SumZ(u, x2, z2, x3, z3), r, n)
  {
    hide SumX, SumZ, IsField;
    if p.Infinity? {
      SumWithInfinity(x2, z2, x3, z3, q, u, r, n);
    } else if q.Infinity? {
      SumSym(u, x2, z2, x3, z3);
      SumWithInfinity(x3, z3, x2, z2, p, u, r, n);
    } else if !Cong(p.x, q.x, n) {
      var lam :| Chord(p, q, lam, n) && Third(b, p, q, lam, r, n);
      var mu :| Chord(Negate(p), q, mu, n) && Third(b, Negate(p), q, mu, d, n);
      Field(q.x - p.x, n);
      if Cong(q.x - p.x, 0, n) { CongAdd(q.x - p.x, 0, p.x, p.x, n); }
      SumOfChord(b, p, q, d, r, lam, mu, x2, z2, x3, z3, u, n);
    } else {
      OppositePoints(b, p, q, d, n);
      var mu :| Tangent(b, Negate(p), mu, n) && Third(b, Negate(p), Negate(p), mu, d, n);
      SumVanishes(b, p, q, d, mu, x2, z2, x3, z3, u, n);
    }
  }
}
