/**
 * Whole runs of X25519 as multiplication on the curve, and the key agreement of section 6.1 of RFC 7748. The runs are
 * treated modulo any q that makes a field; the answers are those of q = 2^255 - 19.
 */
module KeyAgreement {
  import opened Arith
  import opened Words
  import opened Bytes
  import opened Limbs
  import opened Fermat
  import Exponentiation
  import opened Field51
  import opened Curve25519
  import opened MontgomeryLadder
  import opened ChordTangent
  import opened CurveGroup

  // ---- whole runs of the ladder ----

  ghost predicate AddsUp(b: int, m: int -> Point, i: int, j: int, q: Odd) {
    Sum(b, m(i), m(j), m(i + j), q)
  }

  ghost predicate Mirrored(b: int, m: int -> Point, i: int, q: Odd) {
    OnCurve(b, m(i), q) && m(-i) == Negate(m(i))
  }

  /** m(i) is the i-th multiple of m(1): the group law of the curve adds the indices. */
  ghost predicate Homomorphism(b: int, m: int -> Point, q: Odd) {
    && m(0) == Infinity
    && (forall i :: Mirrored(b, m, i, q))
    && (forall i, j :: AddsUp(b, m, i, j, q))
  }

  lemma StandsRed(x: int, z: int, p: Point, q: Odd)
    requires Stands(x, z, p, q)
    ensures Stands(Red(x, q), Red(z, q), p, q)
  {
    CongMod(x, q); CongMod(z, q);
    if p.Infinity? {
      UnitCong(x, Red(x, q), q);
    } else {
      UnitCong(z, Red(z, q), q);
      CongMul(p.x, p.x, z, Red(z, q), q);
    }
  }

  /** The state of the ladder when the bits read so far spell n. */
  ghost predicate AtMultiple(s: Points, m: int -> Point, n: nat, q: Odd) {
    Stands(s.x2, s.z2, m(n), q) && Stands(s.x3, s.z3, m(n + 1), q)
  }

  /** n and n + 1 give 2n and 2n + 1, or 2n + 1 and 2n + 2. */
  lemma LadderNextAt(b: int, m: int -> Point, s: Points, n: nat, bit: nat, u: nat, q: Odd)
    requires IsField(q) && Unit(b, q) && Homomorphism(b, m, q) && m(1).Affine? && Cong(m(1).x, u, q) && Unit(u, q)
    requires AtMultiple(s, m, n, q) && bit <= 1
    ensures AtMultiple(LadderNext(u, s, bit, q), m, 2 * n + bit, q)
  {
    assert Mirrored(b, m, n, q) && Mirrored(b, m, n + 1, q);
    assert AddsUp(b, m, n, n, q) && AddsUp(b, m, n + 1, n + 1, q) && AddsUp(b, m, n, n + 1, q);
    assert AddsUp(b, m, 0 - n, n + 1, q);
    hide IsField, Unit, Cong, Stands, OnCurve, Sum, SumX, SumZ, DoubleX, DoubleZ, Red;
    SumOnCurve(b, m(n), m(n + 1), m(1), m(2 * n + 1), s.x2, s.z2, s.x3, s.z3, u, q);
    StandsRed(SumX(s.x2, s.z2, s.x3, s.z3), SumZ(u, s.x2, s.z2, s.x3, s.z3), m(2 * n + 1), q);
    if bit == 1 {
      DoubleOnCurve(b, m(n + 1), m(2 * n + 2), s.x3, s.z3, q);
      StandsRed(DoubleX(s.x3, s.z3), DoubleZ(s.x3, s.z3), m(2 * n + 2), q);
    } else {
      DoubleOnCurve(b, m(n), m(2 * n), s.x2, s.z2, q);
      StandsRed(DoubleX(s.x2, s.z2), DoubleZ(s.x2, s.z2), m(2 * n), q);
    }
  }

  /** After every bit the pair holds the multiples by the bits read so far and by one more. */
  lemma {:induction false} LadderMultiples(k: nat, u: nat, t: nat, b: int, m: int -> Point, q: Odd)
    requires k < Base(255) && t <= 255
    requires IsField(q) && Unit(b, q) && Homomorphism(b, m, q) && m(1).Affine? && Cong(m(1).x, u, q) && Unit(u, q)
    ensures AtMultiple(PlainLadder(k, u, t, q), m, Shr(k, t), q)
    decreases 255 - t
  {
    hide *;
    if t == 255 {
      LadderBegins(k, u, b, m, q);
    } else {
      LadderMultiples(k, u, t + 1, b, m, q);
      NextBit(k, t);
      NextPair(k, u, t, q);
      LadderNextAt(b, m, PlainLadder(k, u, t + 1, q), Shr(k, t + 1), Shr(k, t) % 2, u, q);
    }
  }

  lemma LadderBegins(k: nat, u: nat, b: int, m: int -> Point, q: Odd)
    requires k < Base(255) && Homomorphism(b, m, q) && m(1).Affine? && Cong(m(1).x, u, q)
    ensures AtMultiple(PlainLadder(k, u, 255, q), m, Shr(k, 255), q)
  {
    hide Base;
    DivModUnique(k, Base(255), 0, k);
    assert Inverse(1, 1, q);
  }

  lemma NextPair(k: nat, u: nat, t: nat, q: Odd)
    requires t < 255
    ensures PlainLadder(k, u, t, q) == LadderNext(u, PlainLadder(k, u, t + 1, q), Shr(k, t) % 2, q)
  {
  }

  lemma NextBit(k: nat, t: nat)
    ensures Shr(k, t) == 2 * Shr(k, t + 1) + Shr(k, t) % 2 && Shr(k, t) <= k
  {
    var h, d := Base(t), Shr(k, t);
    Exponentiation.DivDiv(k, h, 2);
    MulLe(1, h, d);
  }

  // ---- the answer ----

  /** The x-coordinate of a point as X25519 puts it out: zero for infinity. */
  ghost function XOf(p: Point, q: Odd): nat {
    if p.Infinity? then 0 else Red(p.x, q)
  }

  /** The scalar of a key. */
  ghost function Scalar(key: seq<nat>): nat
    requires |key| == 32
  {
    Eval(Base(8), Clamped(key))
  }

  /** A clamped key has bit 254 set and the bits 255 and 0 clear. */
  lemma ScalarRange(key: seq<nat>)
    requires |key| == 32 && IsLimbs(Base(8), key)
    ensures 0 < Scalar(key) < Base(255) && Scalar(key) % 2 == 0
  {
    ClampedBits(key, 254); ClampedBits(key, 0);
    ClampedBytes(key);
    assert Base(0) == 1;
    hide Pow, Eval, Clamped, Base;
    SmallTopByte(Clamped(key));
  }

  lemma SmallTopByte(c: seq<nat>)
    requires |c| == 32 && IsLimbs(Base(8), c) && c[31] < 128
    ensures Eval(Base(8), c) < Base(255)
  {
    EvalSplit(Base(8), c, 31);
    assert c[31..] == [c[31]];
    hide Pow, Eval;
    EvalOne(Base(8), c[31]);
    EvalBound(Base(8), c[..31]);
    PowMul(2, 8, 31); PowAdd(2, 248, 7);
    assert Pow(2, 7) == 128 by { PowersUpToEight(); }
    MulLe(c[31], 127, Pow(Base(8), 31));
  }

  /** In a field x * z^(q - 2) is the coordinate that (x : z) stands for. */
  lemma AffineQuotient(x: nat, z: nat, p: Point, q: Odd)
    requires IsField(q) && Stands(x, z, p, q)
    ensures MulM(x, Pow(z, q - 2) % q, q) == XOf(p, q)
  {
    var e := Pow(z, q - 2) % q;
    CongMod(Pow(z, q - 2), q);
    if p.Infinity? {
      CongPow(z, 0, q - 2, q);
      PowSuccessor(0, q - 3);
      hide Pow, IsField, Prime;
      ZeroMul(e, x, q);
      MulRed(x, e, 0, q);
    } else {
      var w :| Inverse(z, w, q);
      FermatPower(q, z);
      PowSuccessor(z, q - 2); PowSuccessor(z, q - 1);
      hide Pow, IsField, Prime;
      QuotientModulo(x, z, p.x, w, Pow(z, q - 2), e, q);
      MulRed(x, e, p.x, q);
    }
  }

  lemma QuotientModulo(x: int, z: int, a: int, w: int, e: int, e': int, n: int)
    requires n > 0 && Cong(z * w, 1, n) && Cong(x, a * z, n) && Cong(z * (z * e), z, n) && Cong(e', e, n)
    ensures Cong(x * e', a, n)
  {
    CongMul(z * (z * e), z, w, w, n);
    CongMul(z * w, 1, z * e, z * e, n);
    assert (z * (z * e)) * w == (z * w) * (z * e);
    CongMul(x, a * z, e', e, n);
    CongMul(a, a, z * e, 1, n);
    assert (a * z) * e == a * (z * e);
  }

  /** The u-coordinate zero leads to the answer zero. */
  lemma {:induction false} LadderOfZero(k: nat, t: nat, q: Odd)
    requires k < Base(255) && t <= 255
    ensures var s := PlainLadder(k, 0, t, q);
            if Shr(k, t) == 0 then s.x2 == 1 && s.z2 == s.x3 == 0 else s.x2 == s.z2 == 0
    decreases 255 - t
  {
    hide *;
    if t == 255 {
      ZeroBegins(k, q);
    } else {
      LadderOfZero(k, t + 1, q);
      NextBit(k, t);
      NextPair(k, 0, t, q);
      ZeroNext(PlainLadder(k, 0, t + 1, q), Shr(k, t + 1), Shr(k, t) % 2, q);
    }
  }

  lemma ZeroBegins(k: nat, q: Odd)
    requires k < Base(255)
    ensures PlainLadder(k, 0, 255, q) == Points(1, 0, 0, 1) && Shr(k, 255) == 0
  {
    hide Base;
    DivModUnique(k, Base(255), 0, k);
  }

  lemma ZeroNext(s: Points, n: nat, bit: nat, q: Odd)
    requires bit <= 1 && if n == 0 then s.x2 == 1 && s.z2 == s.x3 == 0 else s.x2 == s.z2 == 0
    ensures var r := LadderNext(0, s, bit, q);
            if 2 * n + bit == 0 then r.x2 == 1 && r.z2 == r.x3 == 0 else r.x2 == r.z2 == 0
  {
    hide SumX, SumZ, DoubleX, DoubleZ, Red;
    ZeroTerms(s.x2, s.z2, s.x3, s.z3);
    SmallRed(q);
  }

  lemma SmallRed(q: Odd)
    ensures Red(0, q) == 0 && Red(1, q) == 1
  {
  }

  lemma ZeroTerms(x2: nat, z2: nat, x3: nat, z3: nat)
    requires z2 == 0 && (x2 == 0 || (x2 == 1 && x3 == 0))
    ensures SumX(x2, z2, x3, z3) == 0 && SumZ(0, x2, z2, x3, z3) == 0
    ensures DoubleX(x2, z2) == x2 && DoubleZ(x2, z2) == 0
  {
    assert x2 * x3 == 0 && x2 * z2 == 0 && z2 * z3 == 0;
    assert Sq(x2) == x2 && Sq(z2) == 0 && Sq(0) == 0;
  }

  lemma {:induction false} InfiniteMultiples(b: int, m: int -> Point, c: nat, n: nat, q: Odd)
    requires Homomorphism(b, m, q) && m(c) == Infinity
    ensures m(Prod(c, n)) == Infinity
  {
    if n > 0 {
      InfiniteMultiples(b, m, c, n - 1, q);
      assert AddsUp(b, m, Prod(c, n - 1), c, q);
      MulDistrib(c, n, 1);
    }
  }

  /** The point with x-coordinate zero has order two. */
  lemma ZeroPoint(b: int, m: int -> Point, q: Odd)
    requires IsField(q) && Unit(b, q) && Homomorphism(b, m, q) && XOf(m(1), q) == 0
    ensures m(2) == Infinity
  {
    assert Mirrored(b, m, 1, q) && AddsUp(b, m, 1, 1, q);
    if m(1).Affine? {
      var y := m(1).y;
      CongMod(m(1).x, q);
      CubicCong(m(1).x, 0, q);
      assert Cubic(0) == 0;
      hide IsField, Cubic;
      UnitCancel(b, Sq(y), q);
      Field(y, q);
      if Unit(y, q) {
        UnitSq(y, q);
        UnitNotZero(Sq(y), q);
      }
      CongAdd(y, 0, y, 0, q);
    }
  }

  /**
   * X25519 is multiplication on the curve: whatever point the peer's u belongs to, on the curve or on its twist, the
   * answer is the x-coordinate of its multiple by the clamped key.
   */
  lemma X25519Multiple(key: seq<nat>, pub: seq<nat>, b: int, m: int -> Point)
    requires |key| == 32 && IsLimbs(Base(8), key) && Prime(P) && Unit(b, P) && Homomorphism(b, m, P)
    requires RfcDecodeU(pub) == XOf(m(1), P)
    ensures RfcX25519(key, pub) == XOf(m(Scalar(key)), P)
  {
    var k, u := Scalar(key), RfcDecodeU(pub);
    hide *;
    PrimeField();
    ScalarRange(key);
    AnswerOfLadder(key, pub);
    if u == 0 {
      ZeroAnswer(k, b, m);
    } else {
      FiniteStart(m(1), u, P);
      LadderMultiples(k, u, 0, b, m, P);
      ShrNone(k);
      StandsFirst(PlainLadder(k, u, 0, P), m, k, P);
      var s := PlainLadder(k, u, 0, P);
      AffineQuotient(s.x2, s.z2, m(k), P);
      QuotientInField(s.x2, s.z2);
    }
  }

  lemma PrimeField()
    requires Prime(P)
    ensures IsField(P)
  {
  }

  lemma QuotientInField(x: nat, z: nat)
    ensures MulM(x, Pow(z, P - 2) % P, P) == MulP(x, PowP(z, P - 2))
  {
    hide Pow;
  }

  lemma ShrNone(k: nat)
    ensures Shr(k, 0) == k
  {
    assert Base(0) == 1;
  }

  lemma StandsFirst(s: Points, m: int -> Point, n: nat, q: Odd)
    requires AtMultiple(s, m, n, q)
    ensures Stands(s.x2, s.z2, m(n), q)
  {
  }

  lemma AnswerOfLadder(key: seq<nat>, pub: seq<nat>)
    requires |key| == 32
    ensures var s := PlainLadder(Scalar(key), RfcDecodeU(pub), 0, P);
            RfcX25519(key, pub) == MulP(s.x2, PowP(s.z2, P - 2))
  {
    hide PlainLadder, RfcLoop, RfcDecodeU, Clamped, Eval, Base, PowP, MulP;
    LadderOfLoop(Scalar(key), RfcDecodeU(pub), 0);
  }

  lemma ZeroAnswer(k: nat, b: int, m: int -> Point)
    requires IsField(P) && Unit(b, P) && Homomorphism(b, m, P) && XOf(m(1), P) == 0 && 0 < k < Base(255) && k % 2 == 0
    ensures var s := PlainLadder(k, 0, 0, P); MulP(s.x2, PowP(s.z2, P - 2)) == 0 == XOf(m(k), P)
  {
    assert Prod(2, k / 2) == k;
    hide PlainLadder, IsField, Homomorphism, Base, PowP, Shr, Prod;
    ZeroPoint(b, m, P);
    InfiniteMultiples(b, m, 2, k / 2, P);
    LadderOfZero(k, 0, P);
    ShrNone(k);
    ZeroMulP(PlainLadder(k, 0, 0, P).x2, PowP(PlainLadder(k, 0, 0, P).z2, P - 2));
  }

  lemma ZeroMulP(x: nat, y: nat)
    requires x == 0
    ensures MulP(x, y) == 0
  {
  }

  lemma FiniteStart(p: Point, u: nat, q: Odd)
    requires IsField(q) && XOf(p, q) == u != 0
    ensures p.Affine? && Unit(u, q) && Cong(p.x, u, q)
  {
    hide IsField;
    UnitOfResidue(p.x, q);
  }

  lemma UnitOfResidue(x: int, q: Odd)
    requires IsField(q) && Red(x, q) != 0
    ensures Unit(Red(x, q), q) && Cong(x, Red(x, q), q)
  {
    CongMod(x, q);
    Field(Red(x, q), q);
    DivModUnique(Red(x, q), q, 0, Red(x, q));
  }

  // ---- key agreement ----

  /** Every c-th multiple: the multiples of m(c). */
  ghost function Every(c: nat, m: int -> Point): int -> Point {
    (i: int) => m(c * i)
  }

  lemma EveryMultiple(c: nat, m: int -> Point, b: int, q: Odd)
    requires Homomorphism(b, m, q)
    ensures Homomorphism(b, Every(c, m), q)
  {
    var e := Every(c, m);
    forall i ensures Mirrored(b, e, i, q) {
      assert Mirrored(b, m, c * i, q);
      assert c * -i == -(c * i);
    }
    forall i, j ensures AddsUp(b, e, i, j, q) {
      assert AddsUp(b, m, c * i, c * j, q);
      MulDistrib(c, i, j);
    }
  }

  /** Section 5 of RFC 7748: the top bit of u is ignored, and a value above p stands for its residue. */
  lemma DecodeU(s: seq<nat>)
    requires |s| == 32 && IsLimbs(Base(8), s)
    ensures RfcDecodeU(s) == Red(Eval(Base(8), s[31 := s[31] % 128]), P)
  {
    var c := s[31 := s[31] % 128];
    assert Base(8) == 256 && Base(7) == 128 by { PowersUpToEight(); }
    EvalSplit(Base(8), s, 31); EvalSplit(Base(8), c, 31);
    assert s[31..] == [s[31]] && c[31..] == [c[31]] && c[..31] == s[..31];
    hide Pow, Eval, Base;
    EvalOne(Base(8), s[31]); EvalOne(Base(8), c[31]);
    Exponent255();
    SmallTopByte(c);
    TopBitIgnored(Eval(Base(8), s), Eval(Base(8), c), Eval(Base(8), s[..31]), Pow(Base(8), 31), s[31]);
  }

  lemma TopBitIgnored(v: nat, w: nat, low: nat, p: nat, b: nat)
    requires v == low + p * b && w == low + p * (b % 128) && w < 128 * p
    ensures 128 * p > 0 && v % (128 * p) == w
  {
    var q := b / 128;
    assert p * b == q * (128 * p) + p * (b % 128) by {
      assert b == 128 * q + b % 128;
      MulDistrib(p, 128 * q, b % 128); MulSwap(p, 128, q); MulSwap(128, p, q);
    }
    DivModUnique(v, 128 * p, q, w);
  }

  lemma PrimeValue()
    ensures P == Pow(2, 255) - 19
  {
    PowTo255();
  }

  lemma Exponent255()
    ensures 128 * Pow(Base(8), 31) == Base(255)
         == 0x8000000000000000000000000000000000000000000000000000000000000000
  {
    PowTo255();
    assert Pow(2, 7) == 128 by { PowersUpToEight(); }
    hide Pow;
    PowMul(2, 8, 31); PowAdd(2, 248, 7);
  }

  /** A value that X25519 puts out is decoded as it is. */
  lemma DecodeOutput(s: seq<nat>, p: Point)
    requires Eval(Base(8), s) == XOf(p, P)
    ensures RfcDecodeU(s) == XOf(p, P)
  {
    hide Eval, Base;
    var t := 0x8000000000000000000000000000000000000000000000000000000000000000;
    DivModUnique(XOf(p, P), t, 0, XOf(p, P));
    DivModUnique(XOf(p, P), P, 0, XOf(p, P));
  }

  /** What one side computes from the public value of the other. */
  lemma OneSide(key: seq<nat>, pub: seq<nat>, c: nat, b: int, m: int -> Point)
    requires |key| == 32 && IsLimbs(Base(8), key) && Prime(P) && Unit(b, P) && Homomorphism(b, m, P)
    requires Eval(Base(8), pub) == XOf(m(c), P)
    ensures RfcX25519(key, pub) == XOf(m(c * Scalar(key)), P)
  {
    var e := Every(c, m);
    assert e(1) == m(c) && e(Scalar(key)) == m(c * Scalar(key));
    hide *;
    EveryMultiple(c, m, b, P);
    DecodeOutput(pub, m(c));
    X25519Multiple(key, pub, b, e);
  }

  /**
   * Both sides of an exchange compute the same secret, each by applying its key to the public value of the other side,
   * for all keys and every base point.
   */
  lemma SameSecret(x: seq<nat>, y: seq<nat>, base: seq<nat>, px: seq<nat>, py: seq<nat>, b: int, m: int -> Point)
    requires |x| == |y| == 32 && IsLimbs(Base(8), x) && IsLimbs(Base(8), y)
    requires Prime(P) && Unit(b, P) && Homomorphism(b, m, P) && RfcDecodeU(base) == XOf(m(1), P)
    requires Eval(Base(8), px) == RfcX25519(x, base) && Eval(Base(8), py) == RfcX25519(y, base)
    ensures RfcX25519(x, py) == RfcX25519(y, px)
  {
    hide *;
    var i, j := Scalar(x), Scalar(y);
    X25519Multiple(x, base, b, m); X25519Multiple(y, base, b, m);
    OneSide(x, py, j, b, m); OneSide(y, px, i, b, m);
    assert i * j == j * i;
  }
}
