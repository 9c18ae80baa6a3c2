/**
 * The radix-2^26 Poly1305 accumulator, poly1305_padded_32, against sections 2.5 and 2.8 of RFC 8439.
 * Every 64-bit sum and product is written with its wrap-around; the limb bounds show that none occurs.
 */
module Poly1305 {
  import opened Arith
  import opened Words
  import opened Limbs
  import opened Machine
  import opened Bytes

  /** 2^130 - 5. */
  const P130: nat := 0x3fffffffffffffffffffffffffffffffb

  datatype Limbs26 = Limbs26(l0: nat, l1: nat, l2: nat, l3: nat, l4: nat)

  function Weigh26(w0: nat, w1: nat, w2: nat, w3: nat, w4: nat): nat {
    w0 + 0x4000000 * w1 + 0x10000000000000 * w2 + 0x40000000000000000000 * w3 + 0x100000000000000000000000000 * w4
  }

  function Val26(a: Limbs26): nat {
    Weigh26(a.l0, a.l1, a.l2, a.l3, a.l4)
  }

  predicate Below(a: Limbs26, b: nat) {
    a.l0 < b && a.l1 < b && a.l2 < b && a.l3 < b && a.l4 < b
  }

  // ---- one block ----

  function Mul64(x: nat, y: nat): nat { U64(Prod(x, y)) }

  lemma FiveTimes(x: nat, y: nat)
    ensures Prod(5 * x, y) == 5 * Prod(x, y)
  {
  }

  /** r with its multiples by 5, which fold the upper half of a product back. */
  predicate Multiples(r: Limbs26, r5: Limbs26) {
    r5.l1 == 5 * r.l1 && r5.l2 == 5 * r.l2 && r5.l3 == 5 * r.l3 && r5.l4 == 5 * r.l4
  }

  lemma AllProducts(r: Limbs26, a: Limbs26)
    requires Below(r, 0x4000000) && Below(a, 0xc000000)
    ensures Prod(r.l0, a.l0) <= 0x30000000000000 && Prod(r.l0, a.l1) <= 0x30000000000000
        && Prod(r.l0, a.l2) <= 0x30000000000000 && Prod(r.l0, a.l3) <= 0x30000000000000
        && Prod(r.l0, a.l4) <= 0x30000000000000
    ensures Prod(r.l1, a.l0) <= 0x30000000000000 && Prod(r.l1, a.l1) <= 0x30000000000000
        && Prod(r.l1, a.l2) <= 0x30000000000000 && Prod(r.l1, a.l3) <= 0x30000000000000
        && Prod(r.l1, a.l4) <= 0x30000000000000
    ensures Prod(r.l2, a.l0) <= 0x30000000000000 && Prod(r.l2, a.l1) <= 0x30000000000000
        && Prod(r.l2, a.l2) <= 0x30000000000000 && Prod(r.l2, a.l3) <= 0x30000000000000
        && Prod(r.l2, a.l4) <= 0x30000000000000
    ensures Prod(r.l3, a.l0) <= 0x30000000000000 && Prod(r.l3, a.l1) <= 0x30000000000000
        && Prod(r.l3, a.l2) <= 0x30000000000000 && Prod(r.l3, a.l3) <= 0x30000000000000
        && Prod(r.l3, a.l4) <= 0x30000000000000
    ensures Prod(r.l4, a.l0) <= 0x30000000000000 && Prod(r.l4, a.l1) <= 0x30000000000000
        && Prod(r.l4, a.l2) <= 0x30000000000000 && Prod(r.l4, a.l3) <= 0x30000000000000
        && Prod(r.l4, a.l4) <= 0x30000000000000
  {
    hide Prod;
    ProdBound(r.l0, 0x4000000, a.l0, 0xc000000); ProdBound(r.l1, 0x4000000, a.l0, 0xc000000);
    ProdBound(r.l2, 0x4000000, a.l0, 0xc000000); ProdBound(r.l3, 0x4000000, a.l0, 0xc000000);
    ProdBound(r.l4, 0x4000000, a.l0, 0xc000000);
    ProdBound(r.l0, 0x4000000, a.l1, 0xc000000); ProdBound(r.l1, 0x4000000, a.l1, 0xc000000);
    ProdBound(r.l2, 0x4000000, a.l1, 0xc000000); ProdBound(r.l3, 0x4000000, a.l1, 0xc000000);
    ProdBound(r.l4, 0x4000000, a.l1, 0xc000000);
    ProdBound(r.l0, 0x4000000, a.l2, 0xc000000); ProdBound(r.l1, 0x4000000, a.l2, 0xc000000);
    ProdBound(r.l2, 0x4000000, a.l2, 0xc000000); ProdBound(r.l3, 0x4000000, a.l2, 0xc000000);
    ProdBound(r.l4, 0x4000000, a.l2, 0xc000000);
    ProdBound(r.l0, 0x4000000, a.l3, 0xc000000); ProdBound(r.l1, 0x4000000, a.l3, 0xc000000);
    ProdBound(r.l2, 0x4000000, a.l3, 0xc000000); ProdBound(r.l3, 0x4000000, a.l3, 0xc000000);
    ProdBound(r.l4, 0x4000000, a.l3, 0xc000000);
    ProdBound(r.l0, 0x4000000, a.l4, 0xc000000); ProdBound(r.l1, 0x4000000, a.l4, 0xc000000);
    ProdBound(r.l2, 0x4000000, a.l4, 0xc000000); ProdBound(r.l3, 0x4000000, a.l4, 0xc000000);
    ProdBound(r.l4, 0x4000000, a.l4, 0xc000000);
  }

  /** The five columns of r * a, the upper half folded in with the factor 5. */
  function MulColumns(r: Limbs26, r5: Limbs26, a: Limbs26): (t: Limbs26)
    requires Below(r, 0x4000000) && Multiples(r, r5) && Below(a, 0xc000000)
    ensures t.l0 == Prod(r.l0, a.l0) + 5 * (Prod(r.l4, a.l1) + Prod(r.l3, a.l2) + Prod(r.l2, a.l3) + Prod(r.l1, a.l4))
    ensures t.l1 == Prod(r.l1, a.l0) + Prod(r.l0, a.l1) + 5 * (Prod(r.l4, a.l2) + Prod(r.l3, a.l3) + Prod(r.l2, a.l4))
    ensures t.l2 == Prod(r.l2, a.l0) + Prod(r.l1, a.l1) + Prod(r.l0, a.l2) + 5 * (Prod(r.l4, a.l3) + Prod(r.l3, a.l4))
    ensures t.l3 == Prod(r.l3, a.l0) + Prod(r.l2, a.l1) + Prod(r.l1, a.l2) + Prod(r.l0, a.l3) + 5 * (Prod(r.l4, a.l4))
    ensures t.l4 == Prod(r.l4, a.l0) + Prod(r.l3, a.l1) + Prod(r.l2, a.l2) + Prod(r.l1, a.l3) + Prod(r.l0, a.l4)
    ensures Below(t, 0x400000000000000)
  {
    hide U64, Prod;
    AllProducts(r, a);
    FiveTimes(r.l4, a.l1);
    FiveTimes(r.l3, a.l2); FiveTimes(r.l4, a.l2);
    FiveTimes(r.l2, a.l3); FiveTimes(r.l3, a.l3); FiveTimes(r.l4, a.l3);
    FiveTimes(r.l1, a.l4); FiveTimes(r.l2, a.l4); FiveTimes(r.l3, a.l4); FiveTimes(r.l4, a.l4);
    Limbs26(U64(U64(U64(U64(Mul64(r.l0, a.l0) + Mul64(r5.l4, a.l1)) + Mul64(r5.l3, a.l2)) + Mul64(r5.l2, a.l3))
                + Mul64(r5.l1, a.l4)),
            U64(U64(U64(U64(Mul64(r.l1, a.l0) + Mul64(r.l0, a.l1)) + Mul64(r5.l4, a.l2)) + Mul64(r5.l3, a.l3))
                + Mul64(r5.l2, a.l4)),
            U64(U64(U64(U64(Mul64(r.l2, a.l0) + Mul64(r.l1, a.l1)) + Mul64(r.l0, a.l2)) + Mul64(r5.l4, a.l3))
                + Mul64(r5.l3, a.l4)),
            U64(U64(U64(U64(Mul64(r.l3, a.l0) + Mul64(r.l2, a.l1)) + Mul64(r.l1, a.l2)) + Mul64(r.l0, a.l3))
                + Mul64(r5.l4, a.l4)),
            U64(U64(U64(U64(Mul64(r.l4, a.l0) + Mul64(r.l3, a.l1)) + Mul64(r.l2, a.l2)) + Mul64(r.l1, a.l3))
                + Mul64(r.l0, a.l4)))
  }

  lemma ScaledLimbs(x: nat, g: Limbs26)
    ensures Prod(x, Val26(g)) == Weigh26(Prod(x, g.l0), Prod(x, g.l1), Prod(x, g.l2), Prod(x, g.l3), Prod(x, g.l4))
  {
    ScaleFive(x, 0x4000000, 0x10000000000000, 0x40000000000000000000, 0x100000000000000000000000000, g.l0, g.l1, g.l2,
              g.l3, g.l4);
  }

  /** The columns are the product up to a multiple of 2^130 - 5. */
  lemma ColumnsProduct(r: Limbs26, r5: Limbs26, a: Limbs26)
    requires Below(r, 0x4000000) && Multiples(r, r5) && Below(a, 0xc000000)
    ensures Cong(Val26(MulColumns(r, r5, a)), Prod(Val26(a), Val26(r)), P130)
  {
    var t, v := MulColumns(r, r5, a), Val26(a);
    ProdSym(v, Val26(r));
    ProdSym(v, r.l0); ProdSym(v, r.l1); ProdSym(v, r.l2); ProdSym(v, r.l3); ProdSym(v, r.l4);
    ScaledLimbs(v, r);
    ScaledLimbs(r.l0, a); ScaledLimbs(r.l1, a); ScaledLimbs(r.l2, a); ScaledLimbs(r.l3, a); ScaledLimbs(r.l4, a);
    hide Prod, MulColumns, Val26;
    var high := Weigh26(Prod(r.l4, a.l1) + Prod(r.l3, a.l2) + Prod(r.l2, a.l3) + Prod(r.l1, a.l4),
                        Prod(r.l4, a.l2) + Prod(r.l3, a.l3) + Prod(r.l2, a.l4),
                        Prod(r.l4, a.l3) + Prod(r.l3, a.l4), Prod(r.l4, a.l4), 0);
    assert Weigh26(t.l0, t.l1, t.l2, t.l3, t.l4) == Prod(v, Val26(r)) - high * P130;
    ValOf(t);
    CongIntro(Val26(t), Prod(v, Val26(r)), 0 - high, P130);
  }

  lemma ValOf(t: Limbs26)
    ensures Val26(t) == Weigh26(t.l0, t.l1, t.l2, t.l3, t.l4)
  {
  }

  function Carry26(x: nat): (c: (nat, nat))
    requires x < 0x10000000000000000
    ensures x == c.0 + 0x4000000 * c.1 && c.0 < 0x4000000
  {
    (x % 0x4000000, x / 0x4000000)
  }

  /** The interleaved carries; the carry out of the top limb returns five-fold to the lowest. */
  function CarryLimbs(t: Limbs26): (o: Limbs26)
    requires Below(t, 0x400000000000000)
    ensures Below(o, 0x8000000) && Cong(Val26(o), Val26(t), P130)
  {
    hide Carry26, U64;
    var c0, c3 := Carry26(t.l0), Carry26(t.l3);
    var c1 := Carry26(U64(t.l1 + c0.1));
    var c4 := Carry26(U64(t.l4 + c3.1));
    var z12 := U64(c4.1 + U64(c4.1 * 4));
    var c2 := Carry26(U64(t.l2 + c1.1));
    var d0 := Carry26(U64(c0.0 + z12));
    var d3 := Carry26(U64(c3.0 + c2.1));
    var o := Limbs26(d0.0, U64(c1.0 + d0.1), c2.0, d3.0, U64(c4.0 + d3.1));
    CongIntro(Val26(o), Val26(t), 0 - c4.1, P130);
    o
  }

  // ---- encoding a block ----

  lemma BlockLiterals()
    ensures Base(12) == 0x1000 && Base(14) == 0x4000 && Base(24) == 0x1000000 && Base(26) == 0x4000000
    ensures Base(40) == 0x10000000000 && Base(52) == 0x10000000000000
  {
    BaseLiterals();
    PowOne();
    hide Pow;
    PowAdd(2, 13, 1); PowAdd(2, 12, 12); PowAdd(2, 14, 26); PowAdd(2, 26, 26);
  }

  /** Two 64-bit words as limbs of 26 bits, with the bit 2^128 set. */
  function EncodeBlock(lo: nat, hi: nat): (e: Limbs26)
    requires lo < 0x10000000000000000 && hi < 0x10000000000000000
    ensures Below(e, 0x4000000) && Val26(e) == lo + 0x10000000000000000 * hi + 0x100000000000000000000000000000000
  {
    BlockLiterals();
    AndOnes(26, lo); AndOnes(26, Shr(lo, 26)); AndOnes(14, hi); AndOnes(26, Shr(hi, 14));
    SplitWords(lo, hi);
    hide Base, And, Or, Pow, Shl64;
    var f2 := Or(Shr(lo, 52), Shl64(And(hi, 0x3fff), 12));
    JoinMiddle(lo, hi);
    TopBlockBit(Shr(hi, 40));
    Limbs26(And(lo, 0x3ffffff), And(Shr(lo, 26), 0x3ffffff), f2, And(Shr(hi, 14), 0x3ffffff),
            Or(Shr(hi, 40), 0x1000000))
  }

  lemma JoinMiddle(lo: nat, hi: nat)
    requires lo < 0x10000000000000000
    ensures Or(Shr(lo, 52), Shl64(And(hi, 0x3fff), 12)) == lo / 0x10000000000000 + 0x1000 * (hi % 0x4000)
  {
    BlockLiterals();
    AndOnes(14, hi);
    BaseSplit(64, 12);
    BaseLiterals();
    hide Base, And, Or, Pow, Shl64;
    DivBound(lo, 0x10000000000000, 0x1000);
    JoinWords(12, lo / 0x10000000000000, hi % 0x4000);
    DivModUnique(hi % 0x4000, Base(52), 0, hi % 0x4000);
  }

  lemma TopBlockBit(x: nat)
    requires x < 0x1000000
    ensures Or(x, 0x1000000) == x + 0x1000000
  {
    BlockLiterals();
    hide Base, Or;
    OrDisjoint(24, x, 1);
  }

  lemma SplitWords(lo: nat, hi: nat)
    requires lo < 0x10000000000000000 && hi < 0x10000000000000000
    ensures Weigh26(lo % 0x4000000, lo / 0x4000000 % 0x4000000, lo / 0x10000000000000 + 0x1000 * (hi % 0x4000),
                    hi / 0x4000 % 0x4000000, hi / 0x10000000000 + 0x1000000)
         == lo + 0x10000000000000000 * hi + 0x100000000000000000000000000000000
    ensures lo / 0x10000000000000 + 0x1000 * (hi % 0x4000) < 0x4000000 && hi / 0x10000000000 < 0x1000000
  {
    var q, k := lo / 0x4000000, hi / 0x4000;
    assert lo == 0x4000000 * q + lo % 0x4000000 && q == 0x4000000 * (lo / 0x10000000000000) + q % 0x4000000;
    assert hi == 0x4000 * k + hi % 0x4000 && k == 0x4000000 * (hi / 0x10000000000) + k % 0x4000000;
  }

  function AddLimbs26(a: Limbs26, e: Limbs26): (r: Limbs26)
    requires Below(a, 0x8000000) && Below(e, 0x4000000)
    ensures Below(r, 0xc000000) && Val26(r) == Val26(a) + Val26(e)
  {
    hide U64;
    Limbs26(U64(a.l0 + e.l0), U64(a.l1 + e.l1), U64(a.l2 + e.l2), U64(a.l3 + e.l3), U64(a.l4 + e.l4))
  }

  /** One step of section 2.5 of RFC 8439: the block with a one beyond its 16 bytes is added, then times r. */
  ghost function PolyStep(acc: nat, r: nat, block: nat): nat {
    Prod(acc + block + 0x100000000000000000000000000000000, r) % P130
  }

  /** Section 2.8: the fold over 16-byte blocks, the last one padded with zeros. */
  ghost function PolyFold(acc: nat, r: nat, text: seq<nat>): nat
    decreases |text|
  {
    if text == [] then acc
    else if |text| <= 16 then PolyStep(acc, r, Eval(Base(8), text))
    else PolyFold(PolyStep(acc, r, Eval(Base(8), text[..16])), r, text[16..])
  }

  // ---- what the fold computes ----

  /** The zeros that complete the last block. */
  ghost function BlockZeros(len: nat): (z: seq<nat>)
    ensures (len + |z|) % 16 == 0 && |z| < 16 && forall i :: 0 <= i < |z| ==> z[i] == 0
  {
    seq((16 - len % 16) % 16, _ => 0)
  }

  ghost function Padded(text: seq<nat>): (t: seq<nat>)
    ensures |t| % 16 == 0 && text <= t
  {
    text + BlockZeros(|text|)
  }

  /** Padding the last block with zeros does not change the fold. */
  lemma {:induction false} FoldPadded(acc: nat, r: nat, text: seq<nat>)
    ensures PolyFold(acc, r, Padded(text)) == PolyFold(acc, r, text)
    decreases |text|
  {
    hide Eval, Base, PolyStep;
    var t := Padded(text);
    if |text| % 16 == 0 {
      assert t == text;
    } else if |text| < 16 {
      EvalPadded(Base(8), text, BlockZeros(|text|));
    } else {
      var rest := text[16..];
      PaddedRest(text);
      FoldBlock(acc, r, t); FoldBlock(acc, r, text);
      hide Padded, PolyFold;
      FoldPadded(PolyStep(acc, r, Eval(Base(8), text[..16])), r, rest);
    }
  }

  lemma PaddedRest(text: seq<nat>)
    requires |text| >= 16
    ensures |Padded(text)| >= 16 && Padded(text)[..16] == text[..16] && Padded(text)[16..] == Padded(text[16..])
  {
  }

  /** Whole blocks are folded one after the other. */
  lemma {:induction false} FoldConcat(acc: nat, r: nat, x: seq<nat>, y: seq<nat>)
    requires |x| % 16 == 0
    ensures PolyFold(acc, r, x + y) == PolyFold(PolyFold(acc, r, x), r, y)
    decreases |x|
  {
    hide Eval, Base, PolyStep;
    if x == [] {
      assert x + y == y;
    } else {
      assert (x + y)[..16] == x[..16] && (x + y)[16..] == x[16..] + y;
      FoldBlock(acc, r, x + y); FoldBlock(acc, r, x);
      FoldConcat(PolyStep(acc, r, Eval(Base(8), x[..16])), r, x[16..], y);
    }
  }

  /** The polynomial in r whose coefficients are the blocks with the bit 2^128 set, the first one the leading one. */
  ghost function Polynomial(r: nat, text: seq<nat>): nat
    decreases |text|
  {
    if |text| < 16 then 0
    else Prod(Eval(Base(8), text[..16]) + Pow(2, 128), Pow(r, |text| / 16)) + Polynomial(r, text[16..])
  }

  lemma PowTwo128()
    ensures Pow(2, 128) == 0x100000000000000000000000000000000
  {
    EightBytes();
    hide Pow;
    PowMul(2, 8, 8);
    PowAdd(2, 64, 64);
  }

  lemma ModulusValue()
    ensures P130 == Pow(2, 130) - 5
  {
    PowTwo128();
    assert Pow(2, 2) == 4 by { PowSuccessor(2, 1); PowSuccessor(2, 0); }
    hide Pow;
    PowAdd(2, 128, 2);
  }

  lemma HornerStep(a: nat, b: nat, r: nat, q: nat, s: nat, t: nat, n: int)
    requires n > 0 && Cong(t, Prod(a + b, r), n)
    ensures Cong(Prod(t, q) + s, Prod(a, r * q) + (Prod(b, r * q) + s), n)
  {
    CongMul(t, (a + b) * r, q, q, n);
    assert ((a + b) * r) * q == a * (r * q) + b * (r * q) by { MulAssoc(a + b, r, q); MulDistrib(r * q, a, b); }
    CongAdd(t * q, ((a + b) * r) * q, s, s, n);
  }

  /** The fold of whole blocks evaluates the polynomial at r modulo 2^130 - 5. */
  lemma {:induction false} FoldBlocks(acc: nat, r: nat, text: seq<nat>)
    requires acc < P130 && |text| % 16 == 0
    ensures PolyFold(acc, r, text) == Residue(Prod(acc, Pow(r, |text| / 16)) + Polynomial(r, text))
    decreases |text|
  {
    hide Eval, Base, PolyStep, Residue, Prod, Pow, Cong;
    if text == [] {
      FoldNothing(acc, r);
    } else {
      var block, rest := Eval(Base(8), text[..16]), text[16..];
      var t, n := PolyStep(acc, r, block), |rest| / 16;
      assert |text| / 16 == n + 1;
      FoldBlock(acc, r, text);
      StepResidue(acc, r, block);
      FoldBlocks(t, r, rest);
      PowTwo128();
      PowSuccessor(r, n);
      HornerStep(acc, block + Pow(2, 128), r, Pow(r, n), Polynomial(r, rest), t, P130);
      ResidueCong(Prod(t, Pow(r, n)) + Polynomial(r, rest),
                  Prod(acc, Pow(r, n + 1)) + (Prod(block + Pow(2, 128), Pow(r, n + 1)) + Polynomial(r, rest)));
    }
  }

  lemma FoldNothing(acc: nat, r: nat)
    requires acc < P130
    ensures PolyFold(acc, r, []) == Residue(Prod(acc, Pow(r, 0)) + Polynomial(r, []))
  {
    assert Prod(acc, 1) == acc;
    DivModUnique(acc, P130, 0, acc);
  }

  lemma StepResidue(acc: nat, r: nat, block: nat)
    ensures PolyStep(acc, r, block) < P130
    ensures Cong(PolyStep(acc, r, block), Prod(acc + (block + 0x100000000000000000000000000000000), r), P130)
  {
    hide Prod;
    CongMod(Prod(acc + block + 0x100000000000000000000000000000000, r), P130);
  }

  /** Any text: the polynomial of the padded one. */
  lemma FoldValue(acc: nat, r: nat, text: seq<nat>)
    requires acc < P130
    ensures PolyFold(acc, r, text)
         == Residue(Prod(acc, Pow(r, |Padded(text)| / 16)) + Polynomial(r, Padded(text)))
  {
    hide PolyFold, Residue, Prod, Pow, Polynomial;
    FoldPadded(acc, r, text);
    FoldBlocks(acc, r, Padded(text));
  }

  /** r * a modulo 2^130 - 5, before the carries. */
  function MulLimbs26(r: Limbs26, r5: Limbs26, a: Limbs26): (t: Limbs26)
    requires Below(r, 0x4000000) && Multiples(r, r5) && Below(a, 0xc000000)
    ensures Below(t, 0x400000000000000) && Cong(Val26(t), Prod(Val26(a), Val26(r)), P130)
  {
    hide *;
    ColumnsProduct(r, r5, a);
    MulColumns(r, r5, a)
  }

  function Residue(x: nat): nat {
    x % P130
  }

  function UpdateLimbs(a: Limbs26, r: Limbs26, r5: Limbs26, lo: nat, hi: nat): (o: Limbs26)
    requires Below(a, 0x8000000) && Below(r, 0x4000000) && Multiples(r, r5) && lo < 0x10000000000000000
        && hi < 0x10000000000000000
    ensures Below(o, 0x8000000)
  {
    CarryLimbs(MulLimbs26(r, r5, AddLimbs26(a, EncodeBlock(lo, hi))))
  }

  lemma UpdateValue(a: Limbs26, r: Limbs26, r5: Limbs26, lo: nat, hi: nat)
    requires Below(a, 0x8000000) && Below(r, 0x4000000) && Multiples(r, r5) && lo < 0x10000000000000000
        && hi < 0x10000000000000000
    ensures Residue(Val26(UpdateLimbs(a, r, r5, lo, hi)))
        == PolyStep(Residue(Val26(a)), Val26(r), lo + 0x10000000000000000 * hi)
  {
    hide Val26, MulLimbs26, CarryLimbs, EncodeBlock, AddLimbs26, Below, Multiples, Residue, PolyStep, Cong, Prod, P130;
    var e := EncodeBlock(lo, hi);
    var sum := AddLimbs26(a, e);
    var t := MulLimbs26(r, r5, sum);
    UpdateArith(a, r, e, sum, t, CarryLimbs(t), lo + 0x10000000000000000 * hi);
  }

  lemma UpdateArith(a: Limbs26, r: Limbs26, e: Limbs26, sum: Limbs26, t: Limbs26, o: Limbs26, block: nat)
    requires Val26(e) == block + 0x100000000000000000000000000000000 && Val26(sum) == Val26(a) + Val26(e)
    requires Cong(Val26(t), Prod(Val26(sum), Val26(r)), P130) && Cong(Val26(o), Val26(t), P130)
    ensures Residue(Val26(o)) == PolyStep(Residue(Val26(a)), Val26(r), block)
  {
    hide Val26, Cong, Prod;
    StepMod(Val26(a), Val26(r), block + 0x100000000000000000000000000000000, Val26(t), P130);
    ResidueCong(Val26(o), Val26(t));
  }

  lemma StepMod(a: nat, r: nat, b: nat, t: nat, n: nat)
    requires n > 0 && Cong(t, Prod(a + b, r), n)
    ensures t % n == Prod(a % n + b, r) % n
  {
    CongMod(a, n);
    CongAdd(a % n, a, b, b, n);
    CongMul(a % n + b, a + b, r, r, n);
  }

  lemma ResidueCong(x: nat, y: nat)
    requires Cong(x, y, P130)
    ensures Residue(x) == Residue(y)
  {
  }

  // ---- the context: accumulator at 0, r at 5, 5 * r at 10 ----

  function LimbsAt(ctx: array<nat>, o: nat): Limbs26
    requires o + 5 <= ctx.Length
    reads ctx
  {
    Limbs26(ctx[o], ctx[o + 1], ctx[o + 2], ctx[o + 3], ctx[o + 4])
  }

  ghost predicate PolyCtx(ctx: array<nat>)
    reads ctx
  {
    && ctx.Length == 25 && Below(LimbsAt(ctx, 0), 0x8000000) && Below(LimbsAt(ctx, 5), 0x4000000)
    && Multiples(LimbsAt(ctx, 5), LimbsAt(ctx, 10))
  }

  /** The accumulator as a number modulo 2^130 - 5. */
  ghost function Acc(ctx: array<nat>): nat
    requires ctx.Length == 25
    reads ctx
  {
    Residue(Val26(LimbsAt(ctx, 0)))
  }

  ghost function RKey(ctx: array<nat>): nat
    requires ctx.Length == 25
    reads ctx
  {
    Val26(LimbsAt(ctx, 5))
  }

  method PolyBlock(ctx: array<nat>, lo: nat, hi: nat)
    requires PolyCtx(ctx) && lo < 0x10000000000000000 && hi < 0x10000000000000000
    modifies ctx
    ensures PolyCtx(ctx) && RKey(ctx) == old(RKey(ctx))
    ensures Acc(ctx) == PolyStep(old(Acc(ctx)), RKey(ctx), lo + 0x10000000000000000 * hi)
  {
    hide Val26, UpdateLimbs, PolyStep, Below, Multiples, Residue;
    var o := UpdateLimbs(LimbsAt(ctx, 0), LimbsAt(ctx, 5), LimbsAt(ctx, 10), lo, hi);
    UpdateValue(LimbsAt(ctx, 0), LimbsAt(ctx, 5), LimbsAt(ctx, 10), lo, hi);
    ghost var r, r5 := LimbsAt(ctx, 5), LimbsAt(ctx, 10);
    ctx[0], ctx[1], ctx[2], ctx[3], ctx[4] := o.l0, o.l1, o.l2, o.l3, o.l4;
    assert LimbsAt(ctx, 0) == o && LimbsAt(ctx, 5) == r && LimbsAt(ctx, 10) == r5;
  }

  lemma SixteenBytes(s: seq<nat>)
    requires |s| == 16 && IsLimbs(Base(8), s)
    ensures Eval(Base(8), s) == Eval(Base(8), s[..8]) + 0x10000000000000000 * Eval(Base(8), s[8..])
    ensures Eval(Base(8), s[..8]) < 0x10000000000000000 && Eval(Base(8), s[8..]) < 0x10000000000000000
  {
    EightBytes();
    EvalSplit(Base(8), s, 8);
    EvalBound(Base(8), s[..8]); EvalBound(Base(8), s[8..]);
  }

  /** 16 bytes of text from off on. */
  method PolyLoad(ctx: array<nat>, text: array<nat>, off: nat)
    requires PolyCtx(ctx) && ctx != text && off + 16 <= text.Length && IsLimbs(Base(8), Slice(text, off, 16))
    modifies ctx
    ensures PolyCtx(ctx) && RKey(ctx) == old(RKey(ctx))
    ensures Acc(ctx) == PolyStep(old(Acc(ctx)), RKey(ctx), Val(Base(8), text, off, 16))
  {
    SixteenBytes(Slice(text, off, 16));
    assert Slice(text, off, 16)[..8] == Slice(text, off, 8) && Slice(text, off, 16)[8..] == Slice(text, off + 8, 8);
    hide Eval, Base, IsLimbs, Acc, RKey, PolyStep, Slice;
    var lo := LoadLe(text, off, 8);
    var hi := LoadLe(text, off + 8, 8);
    PolyBlock(ctx, lo, hi);
  }

  lemma {:induction false} EvalPadded(B: nat, s: seq<nat>, z: seq<nat>)
    requires forall i :: 0 <= i < |z| ==> z[i] == 0
    ensures Eval(B, s + z) == Eval(B, s)
  {
    EvalConcat(B, s, z);
    EvalZeros(B, z);
  }

  /** The whole blocks and then the rest, padded with zeros to a block. */
  method PolyPadded(ctx: array<nat>, len: nat, text: array<nat>)
    requires PolyCtx(ctx) && ctx != text && len <= text.Length && IsLimbs(Base(8), Slice(text, 0, len))
    modifies ctx
    ensures PolyCtx(ctx) && RKey(ctx) == old(RKey(ctx))
    ensures Acc(ctx) == PolyFold(old(Acc(ctx)), RKey(ctx), Slice(text, 0, len))
  {
    ghost var s, a0, r0 := Slice(text, 0, len), Acc(ctx), RKey(ctx);
    var n, r := len / 16, len % 16;
    var i := 0;
    assert s[0..] == s;
    hide Eval, Base, Acc, RKey, PolyStep, PolyFold, Below, Multiples, PolyCtx;
    while i < n
      invariant 0 <= i <= n && PolyCtx(ctx) && RKey(ctx) == r0
      invariant PolyFold(Acc(ctx), r0, s[16 * i..]) == PolyFold(a0, r0, s)
    {
      assert Slice(text, 16 * i, 16) == s[16 * i..][..16];
      assert s[16 * i..][16..] == s[16 * (i + 1)..];
      ghost var a := Acc(ctx);
      PolyLoad(ctx, text, i * 16);
      FoldBlock(a, r0, s[16 * i..]);
      i := i + 1;
    }
    if r > 0 {
      PolyRest(ctx, text, n * 16, r, s, r0);
    } else {
      assert s[16 * n..] == [];
      FoldNone(Acc(ctx), r0);
    }
  }

  lemma FoldNone(acc: nat, r: nat)
    ensures PolyFold(acc, r, []) == acc
  {
  }

  lemma FoldBlock(acc: nat, r: nat, s: seq<nat>)
    requires |s| >= 16
    ensures PolyFold(acc, r, s) == PolyFold(PolyStep(acc, r, Eval(Base(8), s[..16])), r, s[16..])
  {
    if |s| == 16 { assert s[..16] == s && s[16..] == []; }
  }

  method PolyRest(ctx: array<nat>, text: array<nat>, off: nat, r: nat, ghost s: seq<nat>, ghost r0: nat)
    requires PolyCtx(ctx) && ctx != text && 0 < r < 16 && off + r == |s| <= text.Length && s == Slice(text, 0, off + r)
    requires IsLimbs(Base(8), s) && RKey(ctx) == r0
    modifies ctx
    ensures PolyCtx(ctx) && RKey(ctx) == r0 && Acc(ctx) == PolyFold(old(Acc(ctx)), r0, s[off..])
  {
    var tmp := new nat[16](_ => 0);
    forall k | 0 <= k < r { tmp[k] := text[off + k]; }
    ghost var z := tmp[r..];
    assert Slice(tmp, 0, 16) == s[off..] + z;
    EvalPadded(Base(8), s[off..], z);
    EightBytes();
    hide Eval, Base, Acc, RKey, PolyStep, Below, Multiples, PolyCtx;
    PolyLoad(ctx, tmp, 0);
  }

  lemma ZeroLimbs(l: Limbs26)
    requires l.l0 == l.l1 == l.l2 == l.l3 == l.l4 == 0
    ensures Val26(l) == 0
  {
  }

  lemma ZeroBelow(l: Limbs26)
    requires l.l0 == l.l1 == l.l2 == l.l3 == l.l4 == 0
    ensures Below(l, 0x8000000)
  {
  }
}
