/**
 * Field arithmetic modulo 2^255 - 19 in radix 2^51 with delayed carries, Hacl_Bignum25519_51.h.
 * Every 64-bit and 128-bit operation is written with its wrap-around; the limb bounds show that none occurs.
 */
module Field51 {
  import opened Arith
  import opened Machine
  import opened Words

  /** 2^255 - 19. */
  const P: nat := 0x7fffffff_ffffffff_ffffffff_ffffffff_ffffffff_ffffffff_ffffffff_ffffffed

  /** Five limbs. */
  datatype Felem = Felem(l0: nat, l1: nat, l2: nat, l3: nat, l4: nat)

  /** 2^102, the unit of the bounds on products of limbs. */
  const POW102: nat := 0x40000000000000000000000000

  /** The weights of the limbs are 2^51, 2^102, 2^153 and 2^204. */
  function Weigh(w0: nat, w1: nat, w2: nat, w3: nat, w4: nat): nat {
    w0 + 0x8000000000000 * w1 + 0x40000000000000000000000000 * w2 + 0x200000000000000000000000000000000000000 * w3
        + 0x1000000000000000000000000000000000000000000000000000 * w4
  }

  function Val5(f: Felem): nat {
    Weigh(f.l0, f.l1, f.l2, f.l3, f.l4)
  }

  /** The field element that the limbs stand for. */
  function Fe(f: Felem): nat {
    Val5(f) % P
  }

  /** What a multiplication accepts. */
  predicate Loose(f: Felem) {
    f.l0 < 9 * 0x8000000000000 && f.l1 < 10 * 0x8000000000000 && f.l2 < 9 * 0x8000000000000
    && f.l3 < 9 * 0x8000000000000 && f.l4 < 9 * 0x8000000000000
  }

  /** What a multiplication leaves: only limb 1 may exceed 51 bits, and by less than 2^13. */
  predicate Tight(f: Felem): (b: bool)
    ensures b ==> Loose(f)
  {
    f.l0 < 0x8000000000000 && f.l1 < 0x8000000000000 + 0x2000 && f.l2 < 0x8000000000000
    && f.l3 < 0x8000000000000 && f.l4 < 0x8000000000000
  }

  /** Every limb has 51 bits. */
  predicate Limbs51(f: Felem) {
    f.l0 < 0x8000000000000 && f.l1 < 0x8000000000000 && f.l2 < 0x8000000000000 && f.l3 < 0x8000000000000
    && f.l4 < 0x8000000000000
  }

  // ---- addition and subtraction in the field ----

  function AddP(x: nat, y: nat): nat { (x + y) % P }

  function SubP(x: nat, y: nat): nat { (x - y) % P }

  function MulP(x: nat, y: nat): nat { Prod(x, y) % P }

  function AddLimbs(f: Felem, g: Felem): (r: Felem)
    requires Tight(f) && Tight(g)
    ensures Loose(r) && Val5(r) == Val5(f) + Val5(g)
  {
    hide U64;
    Felem(U64(f.l0 + g.l0), U64(f.l1 + g.l1), U64(f.l2 + g.l2), U64(f.l3 + g.l3), U64(f.l4 + g.l4))
  }

  /** f - g, with 8 * p added limb by limb so that no limb goes below zero. */
  function SubLimbs(f: Felem, g: Felem): (r: Felem)
    requires Tight(f) && Tight(g)
    ensures Loose(r) && Val5(r) == Val5(f) - Val5(g) + 8 * P
  {
    hide U64, Sub64;
    Felem(Sub64(U64(f.l0 + 0x3fffffffffff68), g.l0), Sub64(U64(f.l1 + 0x3ffffffffffff8), g.l1),
          Sub64(U64(f.l2 + 0x3ffffffffffff8), g.l2), Sub64(U64(f.l3 + 0x3ffffffffffff8), g.l3),
          Sub64(U64(f.l4 + 0x3ffffffffffff8), g.l4))
  }

  // ---- the carry pass ----

  /** The carry out of a 128-bit limb, truncated to 64 bits, and the 51 bits that stay. */
  function Carry51(l: nat): (r: (nat, nat))
    requires l < 0x80000000000000000000000000000
    ensures l == r.0 + 0x8000000000000 * r.1 && r.0 < 0x8000000000000 && r.1 < 0x10000000000000000
  {
    (U64(l) % 0x8000000000000, U64(l / 0x8000000000000))
  }

  /** One carry pass over five wide limbs and the fold of the top carry, times 19, into the lowest limb. */
  function CarryPass(w0: nat, w1: nat, w2: nat, w3: nat, w4: nat): (r: Felem)
    requires w0 <= 7800 * POW102 && w1 <= 7800 * POW102 && w2 <= 7800 * POW102 && w3 <= 7800 * POW102
        && w4 <= 423 * POW102
    ensures Tight(r)
    ensures Cong(Val5(r), Weigh(w0, w1, w2, w3, w4), P)
  {
    hide U64, Add128, Carry51;
    var l0 := Carry51(Add128(w0, 0));
    var l1 := Carry51(Add128(w1, l0.1));
    var l2 := Carry51(Add128(w2, l1.1));
    var l3 := Carry51(Add128(w3, l2.1));
    var l4 := Carry51(Add128(w4, l3.1));
    var t := U64(l0.0 + U64(l4.1 * 19));
    var r := Felem(t % 0x8000000000000, U64(l1.0 + t / 0x8000000000000), l2.0, l3.0, l4.0);
    CongIntro(Val5(r), Weigh(w0, w1, w2, w3, w4), 0 - l4.1, P);
    r
  }

  // ---- products ----

  lemma Nineteen(x: nat, y: nat)
    ensures Prod(x, y * 19) == 19 * Prod(x, y)
  {
  }

  /** A limb times a field element, limb by limb. */
  lemma ScaledValue(x: nat, g: Felem)
    ensures Prod(x, Val5(g)) == Weigh(Prod(x, g.l0), Prod(x, g.l1), Prod(x, g.l2), Prod(x, g.l3), Prod(x, g.l4))
  {
    ScaleFive(x, 0x8000000000000, POW102, 0x200000000000000000000000000000000000000,
              0x1000000000000000000000000000000000000000000000000000, g.l0, g.l1, g.l2, g.l3, g.l4);
  }

  /** The product of two elements as the sum of the rows f.i * g. */
  lemma RowsValue(f: Felem, v: nat)
    ensures Prod(Val5(f), v) == Weigh(Prod(f.l0, v), Prod(f.l1, v), Prod(f.l2, v), Prod(f.l3, v), Prod(f.l4, v))
  {
    ScaledValue(v, f);
    assert Prod(v, Val5(f)) == Prod(Val5(f), v);
    assert Prod(v, f.l0) == Prod(f.l0, v) && Prod(v, f.l1) == Prod(f.l1, v) && Prod(v, f.l2) == Prod(f.l2, v)
        && Prod(v, f.l3) == Prod(f.l3, v) && Prod(v, f.l4) == Prod(f.l4, v);
  }

  lemma AllProducts(f: Felem, g: Felem)
    requires Loose(f) && Loose(g)
    ensures Prod(f.l0, g.l0) <= 81 * POW102 && Prod(f.l0, g.l1) <= 90 * POW102 && Prod(f.l0, g.l2) <= 81 * POW102
        && Prod(f.l0, g.l3) <= 81 * POW102 && Prod(f.l0, g.l4) <= 81 * POW102
    ensures Prod(f.l1, g.l0) <= 90 * POW102 && Prod(f.l1, g.l1) <= 100 * POW102 && Prod(f.l1, g.l2) <= 90 * POW102
        && Prod(f.l1, g.l3) <= 90 * POW102 && Prod(f.l1, g.l4) <= 90 * POW102
    ensures Prod(f.l2, g.l0) <= 81 * POW102 && Prod(f.l2, g.l1) <= 90 * POW102 && Prod(f.l2, g.l2) <= 81 * POW102
        && Prod(f.l2, g.l3) <= 81 * POW102 && Prod(f.l2, g.l4) <= 81 * POW102
    ensures Prod(f.l3, g.l0) <= 81 * POW102 && Prod(f.l3, g.l1) <= 90 * POW102 && Prod(f.l3, g.l2) <= 81 * POW102
        && Prod(f.l3, g.l3) <= 81 * POW102 && Prod(f.l3, g.l4) <= 81 * POW102
    ensures Prod(f.l4, g.l0) <= 81 * POW102 && Prod(f.l4, g.l1) <= 90 * POW102 && Prod(f.l4, g.l2) <= 81 * POW102
        && Prod(f.l4, g.l3) <= 81 * POW102 && Prod(f.l4, g.l4) <= 81 * POW102
  {
    hide Prod;
    ProdBound(f.l0, 9 * 0x8000000000000, g.l0, 9 * 0x8000000000000);
    ProdBound(f.l0, 9 * 0x8000000000000, g.l1, 10 * 0x8000000000000);
    ProdBound(f.l0, 9 * 0x8000000000000, g.l2, 9 * 0x8000000000000);
    ProdBound(f.l0, 9 * 0x8000000000000, g.l3, 9 * 0x8000000000000);
    ProdBound(f.l0, 9 * 0x8000000000000, g.l4, 9 * 0x8000000000000);
    ProdBound(f.l1, 10 * 0x8000000000000, g.l0, 9 * 0x8000000000000);
    ProdBound(f.l1, 10 * 0x8000000000000, g.l1, 10 * 0x8000000000000);
    ProdBound(f.l1, 10 * 0x8000000000000, g.l2, 9 * 0x8000000000000);
    ProdBound(f.l1, 10 * 0x8000000000000, g.l3, 9 * 0x8000000000000);
    ProdBound(f.l1, 10 * 0x8000000000000, g.l4, 9 * 0x8000000000000);
    ProdBound(f.l2, 9 * 0x8000000000000, g.l0, 9 * 0x8000000000000);
    ProdBound(f.l2, 9 * 0x8000000000000, g.l1, 10 * 0x8000000000000);
    ProdBound(f.l2, 9 * 0x8000000000000, g.l2, 9 * 0x8000000000000);
    ProdBound(f.l2, 9 * 0x8000000000000, g.l3, 9 * 0x8000000000000);
    ProdBound(f.l2, 9 * 0x8000000000000, g.l4, 9 * 0x8000000000000);
    ProdBound(f.l3, 9 * 0x8000000000000, g.l0, 9 * 0x8000000000000);
    ProdBound(f.l3, 9 * 0x8000000000000, g.l1, 10 * 0x8000000000000);
    ProdBound(f.l3, 9 * 0x8000000000000, g.l2, 9 * 0x8000000000000);
    ProdBound(f.l3, 9 * 0x8000000000000, g.l3, 9 * 0x8000000000000);
    ProdBound(f.l3, 9 * 0x8000000000000, g.l4, 9 * 0x8000000000000);
    ProdBound(f.l4, 9 * 0x8000000000000, g.l0, 9 * 0x8000000000000);
    ProdBound(f.l4, 9 * 0x8000000000000, g.l1, 10 * 0x8000000000000);
    ProdBound(f.l4, 9 * 0x8000000000000, g.l2, 9 * 0x8000000000000);
    ProdBound(f.l4, 9 * 0x8000000000000, g.l3, 9 * 0x8000000000000);
    ProdBound(f.l4, 9 * 0x8000000000000, g.l4, 9 * 0x8000000000000);
  }

  /** Four 128-bit additions in a row. */
  function SumWide(x0: nat, x1: nat, x2: nat, x3: nat, x4: nat): (r: nat)
    ensures x0 + x1 + x2 + x3 + x4 < 0x100000000000000000000000000000000 ==> r == x0 + x1 + x2 + x3 + x4
  {
    Add128(Add128(Add128(Add128(x0, x1), x2), x3), x4)
  }

  /** The five columns of the schoolbook product, the upper half folded in with the factor 19. */
  function FMulWide(f: Felem, g: Felem): (r: (nat, nat, nat, nat, nat))
    requires Loose(f) && Loose(g)
    ensures r.0 == Prod(f.l0, g.l0) + 19 * (Prod(f.l1, g.l4) + Prod(f.l2, g.l3) + Prod(f.l3, g.l2) + Prod(f.l4, g.l1))
    ensures r.1 == Prod(f.l0, g.l1) + Prod(f.l1, g.l0) + 19 * (Prod(f.l2, g.l4) + Prod(f.l3, g.l3) + Prod(f.l4, g.l2))
    ensures r.2 == Prod(f.l0, g.l2) + Prod(f.l1, g.l1) + Prod(f.l2, g.l0) + 19 * (Prod(f.l3, g.l4) + Prod(f.l4, g.l3))
    ensures r.3 == Prod(f.l0, g.l3) + Prod(f.l1, g.l2) + Prod(f.l2, g.l1) + Prod(f.l3, g.l0) + 19 * (Prod(f.l4, g.l4))
    ensures r.4 == Prod(f.l0, g.l4) + Prod(f.l1, g.l3) + Prod(f.l2, g.l2) + Prod(f.l3, g.l1) + Prod(f.l4, g.l0)
    ensures r.0 <= 7800 * POW102 && r.1 <= 7800 * POW102 && r.2 <= 7800 * POW102 && r.3 <= 7800 * POW102
        && r.4 <= 423 * POW102
  {
    hide U64, SumWide, Prod, Add128;
    AllProducts(f, g);
    var tmp1, tmp2, tmp3, tmp4 := U64(g.l1 * 19), U64(g.l2 * 19), U64(g.l3 * 19), U64(g.l4 * 19);
    Nineteen(f.l1, g.l4); Nineteen(f.l2, g.l3); Nineteen(f.l3, g.l2); Nineteen(f.l4, g.l1); Nineteen(f.l2, g.l4);
    Nineteen(f.l3, g.l3); Nineteen(f.l4, g.l2); Nineteen(f.l3, g.l4); Nineteen(f.l4, g.l3); Nineteen(f.l4, g.l4);
    (SumWide(MulWide(f.l0, g.l0), MulWide(f.l1, tmp4), MulWide(f.l2, tmp3), MulWide(f.l3, tmp2), MulWide(f.l4, tmp1)),
     SumWide(MulWide(f.l0, g.l1), MulWide(f.l1, g.l0), MulWide(f.l2, tmp4), MulWide(f.l3, tmp3), MulWide(f.l4, tmp2)),
     SumWide(MulWide(f.l0, g.l2), MulWide(f.l1, g.l1), MulWide(f.l2, g.l0), MulWide(f.l3, tmp4), MulWide(f.l4, tmp3)),
     SumWide(MulWide(f.l0, g.l3), MulWide(f.l1, g.l2), MulWide(f.l2, g.l1), MulWide(f.l3, g.l0), MulWide(f.l4, tmp4)),
     SumWide(MulWide(f.l0, g.l4), MulWide(f.l1, g.l3), MulWide(f.l2, g.l2), MulWide(f.l3, g.l1), MulWide(f.l4, g.l0)))
  }

  /** The columns are the product, up to a multiple of p for the folded half. */
  lemma FoldedProduct(f: Felem, g: Felem)
    requires Loose(f) && Loose(g)
    ensures var w := FMulWide(f, g); Cong(Weigh(w.0, w.1, w.2, w.3, w.4), Prod(Val5(f), Val5(g)), P)
  {
    var w := FMulWide(f, g);
    RowsValue(f, Val5(g));
    ScaledValue(f.l0, g); ScaledValue(f.l1, g); ScaledValue(f.l2, g); ScaledValue(f.l3, g); ScaledValue(f.l4, g);
    hide Prod, FMulWide, Val5;
    var high := Prod(f.l1, g.l4) + Prod(f.l2, g.l3) + Prod(f.l3, g.l2) + Prod(f.l4, g.l1)
                + 0x8000000000000 * (Prod(f.l2, g.l4) + Prod(f.l3, g.l3) + Prod(f.l4, g.l2))
                + POW102 * (Prod(f.l3, g.l4) + Prod(f.l4, g.l3))
                    + 0x200000000000000000000000000000000000000 * Prod(f.l4, g.l4);
    CongIntro(Weigh(w.0, w.1, w.2, w.3, w.4), Prod(Val5(f), Val5(g)), 0 - high, P);
  }

  function FMulLimbs(f: Felem, g: Felem): (r: Felem)
    requires Loose(f) && Loose(g)
    ensures Tight(r) && Fe(r) == MulP(Fe(f), Fe(g))
  {
    var w := FMulWide(f, g);
    FoldedProduct(f, g);
    ProdMod(Val5(f), Val5(g), P);
    hide FMulWide, Prod, Weigh, Val5;
    CarryPass(w.0, w.1, w.2, w.3, w.4)
  }

  /** The product with a small constant. */
  function FMul1Limbs(f: Felem, x: nat): (r: Felem)
    requires Loose(f) && x < 0x20000
    ensures Tight(r) && Fe(r) == MulP(Fe(f), x)
  {
    ProdBound(x, 0x20000, f.l0, 9 * 0x8000000000000); ProdBound(x, 0x20000, f.l1, 10 * 0x8000000000000);
    ProdBound(x, 0x20000, f.l2, 9 * 0x8000000000000);
    ProdBound(x, 0x20000, f.l3, 9 * 0x8000000000000); ProdBound(x, 0x20000, f.l4, 9 * 0x8000000000000);
    ScaledValue(x, f);
    ProdMod(Val5(f), x, P);
    DivModUnique(x, P, 0, x);
    ProdSym(x, Val5(f));
    hide Prod, Weigh, Val5;
    CarryPass(MulWide(x, f.l0), MulWide(x, f.l1), MulWide(x, f.l2), MulWide(x, f.l3), MulWide(x, f.l4))
  }

  // ---- squaring ----

  lemma Doubled(x: nat, y: nat, k: nat)
    ensures Prod(k * x, y) == k * Prod(x, y) && Prod(x, k * y) == k * Prod(x, y) && Prod(x, y) == Prod(y, x)
  {
  }

  /** The columns of the square, each mixed product computed once from a doubled limb. */
  function FSqrWide(f: Felem): (r: (nat, nat, nat, nat, nat))
    requires Loose(f)
    ensures r == FMulWide(f, f)
  {
    hide U64, Add128, FMulWide, Prod;
    AllProducts(f, f);
    Doubled(f.l0, f.l1, 2); Doubled(f.l0, f.l2, 2); Doubled(f.l0, f.l3, 2); Doubled(f.l0, f.l4, 2);
    Doubled(f.l1, f.l2, 2); Doubled(f.l1, f.l3, 2); Doubled(f.l4, f.l1, 38); Doubled(f.l4, f.l2, 38);
    Doubled(f.l4, f.l3, 38);
    Doubled(f.l2, f.l3, 38); Doubled(f.l3, f.l3, 19); Doubled(f.l4, f.l4, 19);
    var d0, d1, d2, d3, d419 := U64(2 * f.l0), U64(2 * f.l1), U64(38 * f.l2), U64(19 * f.l3), U64(19 * f.l4);
    var d4 := U64(2 * d419);
    (Add128(Add128(MulWide(f.l0, f.l0), MulWide(d4, f.l1)), MulWide(d2, f.l3)),
     Add128(Add128(MulWide(d0, f.l1), MulWide(d4, f.l2)), MulWide(d3, f.l3)),
     Add128(Add128(MulWide(d0, f.l2), MulWide(f.l1, f.l1)), MulWide(d4, f.l3)),
     Add128(Add128(MulWide(d0, f.l3), MulWide(d1, f.l2)), MulWide(f.l4, d419)),
     Add128(Add128(MulWide(d0, f.l4), MulWide(d1, f.l3)), MulWide(f.l2, f.l2)))
  }

  function FSqrLimbs(f: Felem): (r: Felem)
    requires Loose(f)
    ensures Tight(r) && Fe(r) == MulP(Fe(f), Fe(f))
  {
    var w := FSqrWide(f);
    FoldedProduct(f, f);
    ProdMod(Val5(f), Val5(f), P);
    hide FMulWide, Prod, Weigh, Val5;
    CarryPass(w.0, w.1, w.2, w.3, w.4)
  }

  // ---- the canonical encoding ----

  /** Carry out of a 64-bit limb. */
  function Carry64(l: nat): (r: (nat, nat))
    ensures l == r.0 + 0x8000000000000 * r.1 && r.0 < 0x8000000000000
  {
    (l % 0x8000000000000, l / 0x8000000000000)
  }

  /** One carry pass in 64 bits. */
  function StorePass(f: Felem): (r: Felem)
    requires Loose(f)
    ensures Tight(r) && Cong(Val5(r), Val5(f), P)
  {
    hide U64, Carry64;
    var l0 := Carry64(U64(f.l0 + 0));
    var l1 := Carry64(U64(f.l1 + l0.1));
    var l2 := Carry64(U64(f.l2 + l1.1));
    var l3 := Carry64(U64(f.l3 + l2.1));
    var l4 := Carry64(U64(f.l4 + l3.1));
    var t := Carry64(U64(l0.0 + U64(l4.1 * 19)));
    var r := Felem(t.0, U64(l1.0 + t.1), l2.0, l3.0, l4.0);
    CongIntro(Val5(r), Val5(f), 0 - l4.1, P);
    r
  }

  /** Over a tight element the pass leaves 51 bits everywhere: a carry out of the top comes only with a small limb 1. */
  lemma StorePassTight(f: Felem)
    requires Tight(f)
    ensures StorePass(f).l1 < 0x8000000000000
  {
    hide U64, Carry64, Val5, Weigh, Cong;
    var l0 := Carry64(U64(f.l0 + 0));
    var l1 := Carry64(U64(f.l1 + l0.1));
    var l2 := Carry64(U64(f.l2 + l1.1));
    var l3 := Carry64(U64(f.l3 + l2.1));
    var l4 := Carry64(U64(f.l4 + l3.1));
    assert l0.1 == 0 && l1.1 <= 1 && (l1.1 == 1 ==> l1.0 < 0x2000);
    assert l2.1 <= 1 && l3.1 <= 1 && l4.1 <= 1 && (l4.1 == 1 ==> l1.1 == 1);
    var t := Carry64(U64(l0.0 + U64(l4.1 * 19)));
    assert t.1 <= l4.1;
  }

  /** All ones when 51-bit limbs hold p or more: limb 0 at least 2^51 - 19 and the others all ones. */
  function AboveMask(f: Felem): (mask: nat)
    requires Limbs51(f)
    ensures mask == if f.l0 >= 0x7ffffffffffed
        && f.l1 == f.l2 == f.l3 == f.l4 == 0x7ffffffffffff then 0x10000000000000000 - 1 else 0
  {
    BaseLiterals();
    hide Base, EqMask, GteMask, And, Pow;
    var m0 := GteMask(64, f.l0, 0x7ffffffffffed);
    var m1 := EqMask(64, f.l1, 0x7ffffffffffff);
    var m2 := EqMask(64, f.l2, 0x7ffffffffffff);
    var m3 := EqMask(64, f.l3, 0x7ffffffffffff);
    var m4 := EqMask(64, f.l4, 0x7ffffffffffff);
    MasksAll(m0, m1); MasksAll(And(m0, m1), m2); MasksAll(And(And(m0, m1), m2), m3);
    MasksAll(And(And(And(m0, m1), m2), m3), m4);
    And(And(And(And(m0, m1), m2), m3), m4)
  }

  /** Subtracts p when the 51-bit limbs hold p or more. */
  function SubtractP(f: Felem): (r: Felem)
    requires Limbs51(f)
    ensures Limbs51(r)
    ensures Val5(r) == Fe(f)
  {
    hide AboveMask, And, Sub64;
    var mask := AboveMask(f);
    MaskWord(mask, 0x7ffffffffffed); MaskWord(mask, 0x7ffffffffffff);
    LeastForm(f, if mask == 0 then 0 else 1);
    Felem(Sub64(f.l0, And(mask, 0x7ffffffffffed)), Sub64(f.l1, And(mask, 0x7ffffffffffff)),
          Sub64(f.l2, And(mask, 0x7ffffffffffff)), Sub64(f.l3, And(mask, 0x7ffffffffffff)),
          Sub64(f.l4, And(mask, 0x7ffffffffffff)))
  }

  lemma LeastForm(f: Felem, k: nat)
    requires Limbs51(f)
    requires k == if f.l0 >= 0x7ffffffffffed && f.l1 == f.l2 == f.l3 == f.l4 == 0x7ffffffffffff then 1 else 0
    ensures Fe(f) == Val5(f) - k * P
  {
    DivModUnique(Val5(f), P, k, Val5(f) - k * P);
  }

  /** Four 64-bit words, little-endian. */
  function Val4(w: (nat, nat, nat, nat)): nat {
    w.0 + 0x10000000000000000 * w.1 + 0x100000000000000000000000000000000 * w.2
        + 0x1000000000000000000000000000000000000000000000000 * w.3
  }

  predicate Words4(w: (nat, nat, nat, nat)) {
    w.0 < 0x10000000000000000 && w.1 < 0x10000000000000000 && w.2 < 0x10000000000000000 && w.3 < 0x10000000000000000
  }

  lemma PackArith(f: Felem)
    requires Limbs51(f)
    ensures var w := (f.l0 + 0x8000000000000 * (f.l1 % 0x2000), f.l1 / 0x2000 + 0x4000000000 * (f.l2 % 0x4000000),
                      f.l2 / 0x4000000 + 0x2000000 * (f.l3 % 0x8000000000), f.l3 / 0x8000000000 + 0x1000 * f.l4);
            Words4(w) && Val4(w) == Val5(f)
  {
  }

  /** Five 51-bit limbs repacked into four words. */
  function PackWords(f: Felem): (r: (nat, nat, nat, nat))
    requires Limbs51(f)
    ensures Words4(r) && Val4(r) == Val5(f)
  {
    PackArith(f);
    JoinLiterals(f);
    hide Base, Or, Shl64, Shr, Pow, Val4, Val5, Words4;
    (Or(f.l0, Shl64(f.l1, 51)), Or(Shr(f.l1, 13), Shl64(f.l2, 38)),
     Or(Shr(f.l2, 26), Shl64(f.l3, 25)), Or(Shr(f.l3, 39), Shl64(f.l4, 12)))
  }

  lemma JoinLiterals(f: Felem)
    requires Limbs51(f)
    ensures Or(f.l0, Shl64(f.l1, 51)) == f.l0 + 0x8000000000000 * (f.l1 % 0x2000)
    ensures Or(Shr(f.l1, 13), Shl64(f.l2, 38)) == f.l1 / 0x2000 + 0x4000000000 * (f.l2 % 0x4000000)
    ensures Or(Shr(f.l2, 26), Shl64(f.l3, 25)) == f.l2 / 0x4000000 + 0x2000000 * (f.l3 % 0x8000000000)
    ensures Or(Shr(f.l3, 39), Shl64(f.l4, 12)) == f.l3 / 0x8000000000 + 0x1000 * f.l4
  {
    BaseLiterals();
    assert Base(52) == 0x10000000000000 by { hide Pow; PowOne(); PowAdd(2, 51, 1); }
    hide Base, Or, Shl64, Pow;
    JoinWords(51, f.l0, f.l1);
    JoinWords(38, Shr(f.l1, 13), f.l2);
    JoinWords(25, Shr(f.l2, 26), f.l3);
    JoinWords(12, Shr(f.l3, 39), f.l4);
  }

  /** store_felem: the four words of the least representative, whatever the limbs. */
  function StoreWords(f: Felem): (r: (nat, nat, nat, nat))
    requires Tight(f)
    ensures Words4(r) && Val4(r) == Fe(f)
  {
    StorePassTight(f);
    hide StorePass, SubtractP, PackWords;
    PackWords(SubtractP(StorePass(f)))
  }

  /** Four words, the top bit clear, spread over five 51-bit limbs. */
  function UnpackWords(t: (nat, nat, nat, nat)): (f: Felem)
    requires Words4(t) && t.3 < 0x8000000000000000
    ensures Tight(f) && Val5(f) == Val4(t)
  {
    BaseLiterals();
    AndOnes(51, t.0); AndOnes(38, t.1); AndOnes(25, t.2); AndOnes(12, t.3);
    OrDisjoint(13, Shr(t.0, 51), t.1 % Base(38));
    OrDisjoint(26, Shr(t.1, 38), t.2 % Base(25));
    OrDisjoint(39, Shr(t.2, 25), t.3 % Base(12));
    hide Base, Or, And, U64, Pow;
    var f0l, f0h := And(t.0, 0x7ffffffffffff), Shr(t.0, 51);
    var f1l, f1h := Shl64(And(t.1, 0x3fffffffff), 13), Shr(t.1, 38);
    var f2l, f2h := Shl64(And(t.2, 0x1ffffff), 26), Shr(t.2, 25);
    var f3l, f3h := Shl64(And(t.3, 0xfff), 39), Shr(t.3, 12);
    Felem(f0l, Or(f0h, f1l), Or(f1h, f2l), Or(f2h, f3l), f3h)
  }

  // ---- elements in a buffer ----

  /** The element whose five limbs start at offset o. */
  function At(a: array<nat>, o: nat): Felem
    requires o + 5 <= a.Length
    reads a
  {
    Felem(a[o], a[o + 1], a[o + 2], a[o + 3], a[o + 4])
  }

  function Word(a: array<nat>, k: nat): nat
    requires k < a.Length
    reads a
  {
    a[k]
  }

  /** The element of x at i is inside x and outside the n words of out from oo. */
  ghost predicate Clear(x: array<nat>, i: nat, out: array<nat>, oo: nat, n: nat) {
    i + 5 <= x.Length && (x != out || i + 5 <= oo || oo + n <= i)
  }

  method Store(out: array<nat>, oo: nat, f: Felem)
    requires oo + 5 <= out.Length
    modifies out
    ensures At(out, oo) == f
    ensures forall x: array<nat>, i: nat {:trigger At(x, i)} ::
              old(allocated(x)) && Clear(x, i, out, oo, 5) ==> At(x, i) == old(At(x, i))
    ensures forall k: nat {:trigger Word(out, k)} ::
              k < out.Length && !(oo <= k < oo + 5) ==> Word(out, k) == old(Word(out, k))
  {
    out[oo], out[oo + 1], out[oo + 2], out[oo + 3], out[oo + 4] := f.l0, f.l1, f.l2, f.l3, f.l4;
  }

  lemma AddModP(x: nat, y: nat)
    ensures (x + y) % P == AddP(x % P, y % P)
  {
    CongMod(x, P);
    CongMod(y, P);
    CongAdd(x % P, x, y % P, y, P);
  }

  lemma SubModP(x: nat, y: nat, s: int)
    requires s == x - y + 8 * P
    ensures s % P == SubP(x % P, y % P)
  {
    CongMod(x, P);
    CongMod(y, P);
    CongAdd(x % P, x, y % P, y, P);
    CongIntro(s, x - y, 8, P);
  }

  // The outputs may overlap the inputs in any way: every limb is read before any is written.

  method FAdd(out: array<nat>, oo: nat, f1: array<nat>, o1: nat, f2: array<nat>, o2: nat)
    requires oo + 5 <= out.Length && o1 + 5 <= f1.Length && o2 + 5 <= f2.Length && Tight(At(f1, o1))
        && Tight(At(f2, o2))
    modifies out
    ensures Loose(At(out, oo)) && Fe(At(out, oo)) == AddP(Fe(old(At(f1, o1))), Fe(old(At(f2, o2))))
    ensures forall x: array<nat>, i: nat {:trigger At(x, i)} ::
              old(allocated(x)) && Clear(x, i, out, oo, 5) ==> At(x, i) == old(At(x, i))
    ensures forall k: nat {:trigger Word(out, k)} ::
              k < out.Length && !(oo <= k < oo + 5) ==> Word(out, k) == old(Word(out, k))
  {
    hide AddP, AddLimbs, Val5;
    AddModP(Val5(At(f1, o1)), Val5(At(f2, o2)));
    Store(out, oo, AddLimbs(At(f1, o1), At(f2, o2)));
  }

  method FSub(out: array<nat>, oo: nat, f1: array<nat>, o1: nat, f2: array<nat>, o2: nat)
    requires oo + 5 <= out.Length && o1 + 5 <= f1.Length && o2 + 5 <= f2.Length && Tight(At(f1, o1))
        && Tight(At(f2, o2))
    modifies out
    ensures Loose(At(out, oo)) && Fe(At(out, oo)) == SubP(Fe(old(At(f1, o1))), Fe(old(At(f2, o2))))
    ensures forall x: array<nat>, i: nat {:trigger At(x, i)} ::
              old(allocated(x)) && Clear(x, i, out, oo, 5) ==> At(x, i) == old(At(x, i))
    ensures forall k: nat {:trigger Word(out, k)} ::
              k < out.Length && !(oo <= k < oo + 5) ==> Word(out, k) == old(Word(out, k))
  {
    hide SubP, SubLimbs, Val5;
    SubModP(Val5(At(f1, o1)), Val5(At(f2, o2)), Val5(SubLimbs(At(f1, o1), At(f2, o2))));
    Store(out, oo, SubLimbs(At(f1, o1), At(f2, o2)));
  }

  method FMul(out: array<nat>, oo: nat, f1: array<nat>, o1: nat, f2: array<nat>, o2: nat)
    requires oo + 5 <= out.Length && o1 + 5 <= f1.Length && o2 + 5 <= f2.Length && Loose(At(f1, o1))
        && Loose(At(f2, o2))
    modifies out
    ensures Tight(At(out, oo)) && Fe(At(out, oo)) == MulP(Fe(old(At(f1, o1))), Fe(old(At(f2, o2))))
    ensures forall x: array<nat>, i: nat {:trigger At(x, i)} ::
              old(allocated(x)) && Clear(x, i, out, oo, 5) ==> At(x, i) == old(At(x, i))
    ensures forall k: nat {:trigger Word(out, k)} ::
              k < out.Length && !(oo <= k < oo + 5) ==> Word(out, k) == old(Word(out, k))
  {
    hide Fe, MulP, FMulLimbs;
    Store(out, oo, FMulLimbs(At(f1, o1), At(f2, o2)));
  }

  /** Two products at once. */
  method FMul2(out: array<nat>, oo: nat, f1: array<nat>, o1: nat, f2: array<nat>, o2: nat)
    requires oo + 10 <= out.Length && o1 + 10 <= f1.Length && o2 + 10 <= f2.Length
    requires Loose(At(f1, o1)) && Loose(At(f1, o1 + 5)) && Loose(At(f2, o2)) && Loose(At(f2, o2 + 5))
    modifies out
    ensures Tight(At(out, oo)) && Fe(At(out, oo)) == MulP(Fe(old(At(f1, o1))), Fe(old(At(f2, o2))))
    ensures Tight(At(out, oo + 5)) && Fe(At(out, oo + 5)) == MulP(Fe(old(At(f1, o1 + 5))), Fe(old(At(f2, o2 + 5))))
    ensures forall x: array<nat>, i: nat {:trigger At(x, i)} ::
              old(allocated(x)) && Clear(x, i, out, oo, 10) ==> At(x, i) == old(At(x, i))
    ensures forall k: nat {:trigger Word(out, k)} ::
              k < out.Length && !(oo <= k < oo + 10) ==> Word(out, k) == old(Word(out, k))
  {
    hide Fe, MulP, FMulLimbs, At, Loose, Tight;
    var lo := FMulLimbs(At(f1, o1), At(f2, o2));
    var hi := FMulLimbs(At(f1, o1 + 5), At(f2, o2 + 5));
    Store(out, oo, lo);
    Store(out, oo + 5, hi);
  }

  method FMul1(out: array<nat>, oo: nat, f1: array<nat>, o1: nat, f2: nat)
    requires oo + 5 <= out.Length && o1 + 5 <= f1.Length && Loose(At(f1, o1)) && f2 < 0x20000
    modifies out
    ensures Tight(At(out, oo)) && Fe(At(out, oo)) == MulP(Fe(old(At(f1, o1))), f2)
    ensures forall x: array<nat>, i: nat {:trigger At(x, i)} ::
              old(allocated(x)) && Clear(x, i, out, oo, 5) ==> At(x, i) == old(At(x, i))
    ensures forall k: nat {:trigger Word(out, k)} ::
              k < out.Length && !(oo <= k < oo + 5) ==> Word(out, k) == old(Word(out, k))
  {
    hide Fe, MulP, FMul1Limbs;
    Store(out, oo, FMul1Limbs(At(f1, o1), f2));
  }

  method FSqr(out: array<nat>, oo: nat, f: array<nat>, o: nat)
    requires oo + 5 <= out.Length && o + 5 <= f.Length && Loose(At(f, o))
    modifies out
    ensures Tight(At(out, oo)) && Fe(At(out, oo)) == MulP(Fe(old(At(f, o))), Fe(old(At(f, o))))
    ensures forall x: array<nat>, i: nat {:trigger At(x, i)} ::
              old(allocated(x)) && Clear(x, i, out, oo, 5) ==> At(x, i) == old(At(x, i))
    ensures forall k: nat {:trigger Word(out, k)} ::
              k < out.Length && !(oo <= k < oo + 5) ==> Word(out, k) == old(Word(out, k))
  {
    hide Fe, MulP, FSqrLimbs;
    Store(out, oo, FSqrLimbs(At(f, o)));
  }

  /** Two squares at once. */
  method FSqr2(out: array<nat>, oo: nat, f: array<nat>, o: nat)
    requires oo + 10 <= out.Length && o + 10 <= f.Length && Loose(At(f, o)) && Loose(At(f, o + 5))
    modifies out
    ensures Tight(At(out, oo)) && Fe(At(out, oo)) == MulP(Fe(old(At(f, o))), Fe(old(At(f, o))))
    ensures Tight(At(out, oo + 5)) && Fe(At(out, oo + 5)) == MulP(Fe(old(At(f, o + 5))), Fe(old(At(f, o + 5))))
    ensures forall x: array<nat>, i: nat {:trigger At(x, i)} ::
              old(allocated(x)) && Clear(x, i, out, oo, 10) ==> At(x, i) == old(At(x, i))
    ensures forall k: nat {:trigger Word(out, k)} ::
              k < out.Length && !(oo <= k < oo + 10) ==> Word(out, k) == old(Word(out, k))
  {
    hide Fe, MulP, FSqrLimbs, At, Loose, Tight;
    var lo := FSqrLimbs(At(f, o));
    var hi := FSqrLimbs(At(f, o + 5));
    Store(out, oo, lo);
    Store(out, oo + 5, hi);
  }

  /** One carry pass in place makes a sum or difference tight again. */
  method FReduce513(a: array<nat>, o: nat)
    requires o + 5 <= a.Length && Loose(At(a, o))
    modifies a
    ensures Tight(At(a, o)) && Fe(At(a, o)) == Fe(old(At(a, o)))
    ensures forall x: array<nat>, i: nat {:trigger At(x, i)} ::
              old(allocated(x)) && Clear(x, i, a, o, 5) ==> At(x, i) == old(At(x, i))
  {
    hide Val5, StorePass, Word;
    Store(a, o, StorePass(At(a, o)));
  }

  /** The least representative in place: its limbs are determined by the field element. */
  method FReduce(a: array<nat>, o: nat)
    requires o + 5 <= a.Length && Tight(At(a, o))
    modifies a
    ensures Tight(At(a, o)) && Val5(At(a, o)) == Fe(old(At(a, o)))
    ensures forall x: array<nat>, i: nat {:trigger At(x, i)} ::
              old(allocated(x)) && Clear(x, i, a, o, 5) ==> At(x, i) == old(At(x, i))
  {
    StorePassTight(At(a, o));
    hide Val5, StorePass, SubtractP, Word;
    Store(a, o, SubtractP(StorePass(At(a, o))));
  }

  /** The buffer s with the first i words of two stretches exchanged when bit is 1. */
  ghost function Swapped(bit: nat, s: seq<nat>, o1: nat, o2: nat, i: nat, k: nat): nat
    requires o1 + i <= o2 && o2 + i <= |s| && k < |s|
  {
    if bit == 1 && o1 <= k < o1 + i then s[k - o1 + o2] else if bit == 1
        && o2 <= k < o2 + i then s[k - o2 + o1] else s[k]
  }

  /** Swaps two stretches of ten words of one buffer when bit is 1. */
  method CSwap2(bit: nat, p: array<nat>, o1: nat, o2: nat)
    requires bit <= 1 && o1 + 10 <= o2 && o2 + 10 <= p.Length
    requires forall k :: o1 <= k < o1 + 10 || o2 <= k < o2 + 10 ==> p[k] < 0x10000000000000000
    modifies p
    ensures forall k :: 0 <= k < p.Length ==> p[k] == Swapped(bit, old(p[..]), o1, o2, 10, k)
  {
    ghost var s := p[..];
    hide BitMask, And, Xor;
    var mask := BitMask(64, bit);
    var i := 0;
    while i < 10
      invariant 0 <= i <= 10
      invariant forall k :: 0 <= k < p.Length ==> p[k] == Swapped(bit, s, o1, o2, i, k)
    {
      SwapWord64(bit, s[o1 + i], s[o2 + i]);
      var dummy := And(mask, Xor(p[o1 + i], p[o2 + i]));
      p[o1 + i] := Xor(p[o1 + i], dummy);
      p[o2 + i] := Xor(p[o2 + i], dummy);
      i := i + 1;
    }
  }
}
