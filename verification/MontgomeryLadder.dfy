/**
 * What the X25519 step computes: the formulas of Montgomery, free of the intermediate values of the RFC, and the ladder
 * without its swaps.
 */
module MontgomeryLadder {
  import opened Arith
  import opened Words
  import opened Field51
  import opened Curve25519

  // ---- the step as polynomials ----

  function Sq(x: int): int { x * x }

  type Modulus = n: nat | n > 0 witness 1

  /** The residue of an integer. */
  function Red(x: int, n: Modulus): nat { x % n }

  /** (x : z) doubled. */
  ghost function DoubleX(x: int, z: int): int {
    Sq(Sq(x) - Sq(z))
  }

  ghost function DoubleZ(x: int, z: int): int {
    4 * (x * z) * (Sq(x) + 486662 * (x * z) + Sq(z))
  }

  /** (x2 : z2) and (x3 : z3) added, x1 being the x-coordinate of their difference. */
  ghost function SumX(x2: int, z2: int, x3: int, z3: int): int {
    4 * Sq(x2 * x3 - z2 * z3)
  }

  ghost function SumZ(x1: int, x2: int, z2: int, x3: int, z3: int): int {
    4 * x1 * Sq(x2 * z3 - z2 * x3)
  }

  lemma DoubleIdentities(x: int, z: int)
    ensures Sq(x + z) * Sq(x - z) == DoubleX(x, z)
    ensures Sq(x + z) - Sq(x - z) == 4 * (x * z)
    ensures Sq(x + z) + 121665 * (4 * (x * z)) == Sq(x) + 486662 * (x * z) + Sq(z)
  {
    assert (x + z) * (x - z) == Sq(x) - Sq(z);
    var a, b := x + z, x - z;
    assert (a * a) * (b * b) == (a * b) * (a * b);
  }

  lemma SumIdentities(x2: int, z2: int, x3: int, z3: int)
    ensures (x3 - z3) * (x2 + z2) + (x3 + z3) * (x2 - z2) == 2 * (x2 * x3 - z2 * z3)
    ensures (x3 - z3) * (x2 + z2) - (x3 + z3) * (x2 - z2) == -2 * (x2 * z3 - z2 * x3)
  {
  }

  lemma SquareOfTwice(w: int)
    ensures Sq(2 * w) == 4 * Sq(w) && Sq(-2 * w) == 4 * Sq(w)
  {
  }

  /** Doubling from residues a, b of x + z and x - z, modulo any n. */
  lemma DoubleModulo(x: int, z: int, a: int, b: int, aa: int, bb: int, e: int, f: int, n: int)
    requires n > 0 && Cong(a, x + z, n) && Cong(b, x - z, n) && Cong(aa, a * a, n) && Cong(bb, b * b, n)
    requires Cong(e, aa - bb, n) && Cong(f, aa + 121665 * e, n)
    ensures Cong(aa * bb, DoubleX(x, z), n) && Cong(e * f, DoubleZ(x, z), n)
  {
    DoubleIdentities(x, z);
    CongMul(a, x + z, a, x + z, n);
    CongMul(b, x - z, b, x - z, n);
    var s, d := Sq(x + z), Sq(x - z);
    CongMul(aa, s, bb, d, n);
    CongAdd(aa, s, bb, d, n);
    CongMul(121665, 121665, e, 4 * (x * z), n);
    CongAdd(aa, s, 121665 * e, 121665 * (4 * (x * z)), n);
    CongMul(e, 4 * (x * z), f, Sq(x) + 486662 * (x * z) + Sq(z), n);
  }

  /** The cross products of the step are the sum and the difference of two terms that are twice as large. */
  lemma CrossModulo(x2: int, z2: int, x3: int, z3: int, a: int, b: int, c: int, d: int, da: int, cb: int, n: int)
    requires n > 0 && Cong(a, x2 + z2, n) && Cong(b, x2 - z2, n) && Cong(c, x3 + z3, n) && Cong(d, x3 - z3, n)
    requires Cong(da, d * a, n) && Cong(cb, c * b, n)
    ensures Cong(da + cb, 2 * (x2 * x3 - z2 * z3), n) && Cong(da - cb, -2 * (x2 * z3 - z2 * x3), n)
  {
    SumIdentities(x2, z2, x3, z3);
    CongMul(d, x3 - z3, a, x2 + z2, n);
    CongMul(c, x3 + z3, b, x2 - z2, n);
    CongAdd(da, (x3 - z3) * (x2 + z2), cb, (x3 + z3) * (x2 - z2), n);
  }

  lemma SquareModulo(p: int, t: int, pp: int, x1: int, n: int)
    requires n > 0 && (Cong(p, 2 * t, n) || Cong(p, -2 * t, n)) && Cong(pp, p * p, n)
    ensures Cong(pp, 4 * Sq(t), n) && Cong(x1 * pp, 4 * x1 * Sq(t), n)
  {
    SquareOfTwice(t);
    var w := if Cong(p, 2 * t, n) then 2 * t else -2 * t;
    CongMul(p, w, p, w, n);
    CongMul(x1, x1, pp, 4 * Sq(t), n);
    MulSwap(x1, 4, Sq(t)); MulAssoc(4, x1, Sq(t));
  }

  /** The field operations are those of the integers, up to multiples of p. */
  lemma FieldOperations(x: nat, y: nat, n: Modulus)
    ensures Cong(AddM(x, y, n), x + y, n) && Cong(SubM(x, y, n), x - y, n) && Cong(MulM(x, y, n), x * y, n)
  {
    CongMod(x + y, n); CongMod(x - y, n); CongMod(Prod(x, y), n);
  }

  lemma MulRed(x: nat, y: nat, t: int, n: Modulus)
    requires Cong(x * y, t, n)
    ensures MulM(x, y, n) == Red(t, n)
  {
  }

  lemma ScaledSum(aa: nat, g: nat, e: nat, f: nat, n: Modulus)
    requires Cong(f, aa + g, n) && Cong(g, 121665 * e, n)
    ensures Cong(f, aa + 121665 * e, n)
  {
    CongAdd(aa, aa, g, 121665 * e, n);
  }

  lemma CrossFormulas(x2: nat, z2: nat, x3: nat, z3: nat, da: nat, cb: nat, n: Modulus)
    requires da == MulM(SubM(x3, z3, n), AddM(x2, z2, n), n) && cb == MulM(AddM(x3, z3, n), SubM(x2, z2, n), n)
    ensures Cong(AddM(da, cb, n), 2 * (x2 * x3 - z2 * z3), n) && Cong(SubM(da, cb, n), -2 * (x2 * z3 - z2 * x3), n)
  {
    hide AddM, SubM, MulM, Cong;
    var a, b, c, d := AddM(x2, z2, n), SubM(x2, z2, n), AddM(x3, z3, n), SubM(x3, z3, n);
    FieldOperations(x2, z2, n); FieldOperations(x3, z3, n); FieldOperations(d, a, n); FieldOperations(c, b, n);
    CrossModulo(x2, z2, x3, z3, a, b, c, d, da, cb, n);
    FieldOperations(da, cb, n);
    CongTrans(AddM(da, cb, n), da + cb, 2 * (x2 * x3 - z2 * z3), n);
    CongTrans(SubM(da, cb, n), da - cb, -2 * (x2 * z3 - z2 * x3), n);
  }

  lemma CongTrans(x: int, y: int, z: int, n: int)
    requires n > 0 && Cong(x, y, n) && Cong(y, z, n)
    ensures Cong(x, z, n)
  {
  }

  lemma SquareFormula(p: nat, t: int, x1: nat, n: Modulus)
    requires Cong(p, 2 * t, n) || Cong(p, -2 * t, n)
    ensures MulM(p, p, n) == Red(4 * Sq(t), n) && MulM(x1, MulM(p, p, n), n) == Red(4 * x1 * Sq(t), n)
  {
    hide MulM, Red, Sq;
    FieldOperations(p, p, n);
    SquareModulo(p, t, MulM(p, p, n), x1, n);
    SquareModulo(p, t, p * p, x1, n);
    MulRed(p, p, 4 * Sq(t), n); MulRed(x1, MulM(p, p, n), 4 * x1 * Sq(t), n);
  }

  lemma SumAsSquares(x1: int, x2: int, z2: int, x3: int, z3: int)
    ensures SumX(x2, z2, x3, z3) == 4 * Sq(x2 * x3 - z2 * z3)
    ensures SumZ(x1, x2, z2, x3, z3) == 4 * x1 * Sq(x2 * z3 - z2 * x3)
  {
  }

  /** The step of the RFC is doubling and differential addition by the formulas of Montgomery, for every state. */
  lemma StepFormulas(x1: nat, s: Points, n: Modulus)
    ensures StepModulo(x1, s, n) == Points(Red(DoubleX(s.x2, s.z2), n), Red(DoubleZ(s.x2, s.z2), n),
                                     Red(SumX(s.x2, s.z2, s.x3, s.z3), n), Red(SumZ(x1, s.x2, s.z2, s.x3, s.z3), n))
  {
    hide AddM, SubM, MulM, Red, Cong, Sq, DoubleX, DoubleZ, SumX, SumZ;
    var a, b := AddM(s.x2, s.z2, n), SubM(s.x2, s.z2, n);
    var aa, bb := MulM(a, a, n), MulM(b, b, n);
    var e := SubM(aa, bb, n);
    var g := MulM(121665, e, n);
    var f := AddM(aa, g, n);
    FieldOperations(s.x2, s.z2, n); FieldOperations(a, a, n); FieldOperations(b, b, n); FieldOperations(aa, bb, n);
    FieldOperations(121665, e, n); FieldOperations(aa, g, n);
    ScaledSum(aa, g, e, f, n);
    DoubleModulo(s.x2, s.z2, a, b, aa, bb, e, f, n);
    MulRed(aa, bb, DoubleX(s.x2, s.z2), n); MulRed(e, f, DoubleZ(s.x2, s.z2), n);
    var da, cb := MulM(SubM(s.x3, s.z3, n), a, n), MulM(AddM(s.x3, s.z3, n), b, n);
    CrossFormulas(s.x2, s.z2, s.x3, s.z3, da, cb, n);
    SquareFormula(AddM(da, cb, n), s.x2 * s.x3 - s.z2 * s.z3, x1, n);
    SquareFormula(SubM(da, cb, n), s.x2 * s.z3 - s.z2 * s.x3, x1, n);
    SumAsSquares(x1, s.x2, s.z2, s.x3, s.z3);
  }

  // ---- the ladder without its swaps ----

  /** The pair (a, b) becomes (2a, a + b) for a zero bit and (a + b, 2b) for a one; u is the difference. */
  ghost function LadderNext(u: nat, s: Points, bit: nat, n: Modulus): Points {
    var x, z := Red(SumX(s.x2, s.z2, s.x3, s.z3), n), Red(SumZ(u, s.x2, s.z2, s.x3, s.z3), n);
    if bit == 0 then Points(Red(DoubleX(s.x2, s.z2), n), Red(DoubleZ(s.x2, s.z2), n), x, z)
    else Points(x, z, Red(DoubleX(s.x3, s.z3), n), Red(DoubleZ(s.x3, s.z3), n))
  }

  /** The pair that the bits 254 down to t of k make from infinity and (u : 1). */
  ghost function PlainLadder(k: nat, u: nat, t: nat, n: Modulus): Points
    requires t <= 255
    decreases 255 - t
  {
    if t == 255 then Points(1, 0, u, 1) else LadderNext(u, PlainLadder(k, u, t + 1, n), Shr(k, t) % 2, n)
  }

  lemma SumSym(x1: int, x2: int, z2: int, x3: int, z3: int)
    ensures SumX(x2, z2, x3, z3) == SumX(x3, z3, x2, z2) && SumZ(x1, x2, z2, x3, z3) == SumZ(x1, x3, z3, x2, z2)
  {
    var v, w := x2 * z3 - z2 * x3, x3 * z2 - z3 * x2;
    assert v == -w;
    assert Sq(v) == Sq(w);
  }

  /** The swaps of the RFC, deferred and merged from bit to bit, only turn the pair around. */
  lemma {:induction false} LadderOfLoop(k: nat, u: nat, t: nat)
    requires t <= 255
    ensures var r := RfcLoop(k, u, t); r.1 <= 1 && RfcSwap(r.1, r.0) == PlainLadder(k, u, t, P)
    decreases 255 - t
  {
    if t < 255 {
      hide Sq, Red, StepModulo, Shr, Xor, DoubleX, DoubleZ, SumX, SumZ;
      LadderOfLoop(k, u, t + 1);
      var r, s, kt := RfcLoop(k, u, t + 1), PlainLadder(k, u, t + 1, P), Shr(k, t) % 2;
      XorBit(r.1, kt);
      var q := RfcSwap(kt, s);
      assert RfcSwap(Xor(r.1, kt), r.0) == q;
      StepFormulas(u, q, P);
      SumSym(u, s.x2, s.z2, s.x3, s.z3);
    }
  }
}
