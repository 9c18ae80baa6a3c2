/**
 * Arithmetic modulo the group order L = 2^252 + 27742317777372353535851937790883648493 in radix 2^56,
 * the scalar part of Hacl_Ed25519.c.
 */
module Scalar25519 {
  import opened Arith
  import opened Words
  import opened Limbs
  import opened Machine
  import opened Bytes

  /** The group order, the Barrett constant floor(2^512 / L), and what its division leaves over. */
  const L: nat := 0x1000000000000000000000000000000014def9dea2f79cd65812631a5cf5d3ed
  const MU: nat := 0xfffffffffffffffffffffffffffffffeb2106215d086329a7ed9ce5a30a2c131b
  const MU_REST: nat := 0x399411b7c309a3dceec73d217f5be65d00e1ba768859347a40611e3449c0f01

  /** Powers of two: 56 bits to a limb. */
  const POW112: nat := 0x10000000000000000000000000000
  const POW168: nat := 0x1000000000000000000000000000000000000000000
  const POW224: nat := 0x100000000000000000000000000000000000000000000000000000000
  const POW248: nat := 0x100000000000000000000000000000000000000000000000000000000000000
  const POW256: nat := 0x10000000000000000000000000000000000000000000000000000000000000000
  const POW264: nat := 0x1000000000000000000000000000000000000000000000000000000000000000000
  const POW280: nat := 0x10000000000000000000000000000000000000000000000000000000000000000000000
  const POW512: nat := POW256 * POW256

  datatype Scalar = Scalar(s0: nat, s1: nat, s2: nat, s3: nat, s4: nat)

  datatype Wide = Wide(lo: Scalar, hi: Scalar)

  /** The weights of the limbs are the powers of 2^56. */
  function Weigh56(s0: nat, s1: nat, s2: nat, s3: nat, s4: nat): nat {
    s0 + 0x100000000000000 * s1 + 0x10000000000000000000000000000 * s2
        + 0x1000000000000000000000000000000000000000000 * s3
        + 0x100000000000000000000000000000000000000000000000000000000 * s4
  }

  function Val56(s: Scalar): nat {
    Weigh56(s.s0, s.s1, s.s2, s.s3, s.s4)
  }

  function ValWide(t: Wide): nat {
    Val56(t.lo) + 0x10000000000000000000000000000000000000000000000000000000000000000000000 * Val56(t.hi)
  }

  predicate Limbs56(s: Scalar) {
    s.s0 < 0x100000000000000 && s.s1 < 0x100000000000000 && s.s2 < 0x100000000000000 && s.s3 < 0x100000000000000
        && s.s4 < 0x100000000000000
  }

  lemma BarrettConstant()
    ensures MU == POW512 / L
  {
    DivModUnique(POW512, L, MU, MU_REST);
  }

  /** The order of the base point. */
  lemma OrderValue()
    ensures L == Pow(2, 252) + 27742317777372353535851937790883648493
  {
    BaseLiterals();
    hide Pow;
    PowAdd(2, 51, 12); PowAdd(2, 63, 63); PowAdd(2, 126, 126);
  }

  // ---- products ----

  /** The 56 bits that stay in a 128-bit column and the carry out of it. */
  function Carry56(l: nat): (r: (nat, nat))
    ensures l == r.0 + 0x100000000000000 * r.1 && r.0 < 0x100000000000000
  {
    (U64(l) % 0x100000000000000, l / 0x100000000000000)
  }

  lemma LimbProduct(x: nat, y: nat)
    requires x < 0x100000000000000 && y < 0x100000000000000
    ensures Prod(x, y) < POW112
  {
    MulLe(x, 0x100000000000000, y);
    MulLe(y, 0x100000000000000, 0x100000000000000);
    if x > 0 && y > 0 { MulLt(x, 0x100000000000000, y); }
  }

  lemma ScaledScalar(x: nat, g: Scalar)
    ensures Prod(x, Val56(g)) == Weigh56(Prod(x, g.s0), Prod(x, g.s1), Prod(x, g.s2), Prod(x, g.s3), Prod(x, g.s4))
  {
    ScaleFive(x, 0x100000000000000, POW112, POW168, POW224, g.s0, g.s1, g.s2, g.s3, g.s4);
  }

  /** The nine columns of the schoolbook product. */
  function Columns(x: Scalar, y: Scalar): (z: (nat, nat, nat, nat, nat, nat, nat, nat, nat))
    requires Limbs56(x) && Limbs56(y)
    ensures z.0 == Prod(x.s0, y.s0) < 1 * POW112
    ensures z.1 == Prod(x.s0, y.s1) + Prod(x.s1, y.s0) < 2 * POW112
    ensures z.2 == Prod(x.s0, y.s2) + Prod(x.s1, y.s1) + Prod(x.s2, y.s0) < 3 * POW112
    ensures z.3 == Prod(x.s0, y.s3) + Prod(x.s1, y.s2) + Prod(x.s2, y.s1) + Prod(x.s3, y.s0) < 4 * POW112
    ensures z.4 == Prod(x.s0, y.s4) + Prod(x.s1, y.s3) + Prod(x.s2, y.s2) + Prod(x.s3, y.s1)
        + Prod(x.s4, y.s0) < 5 * POW112
    ensures z.5 == Prod(x.s1, y.s4) + Prod(x.s2, y.s3) + Prod(x.s3, y.s2) + Prod(x.s4, y.s1) < 4 * POW112
    ensures z.6 == Prod(x.s2, y.s4) + Prod(x.s3, y.s3) + Prod(x.s4, y.s2) < 3 * POW112
    ensures z.7 == Prod(x.s3, y.s4) + Prod(x.s4, y.s3) < 2 * POW112
    ensures z.8 == Prod(x.s4, y.s4) < 1 * POW112
  {
    LimbProduct(x.s0, y.s0); LimbProduct(x.s0, y.s1); LimbProduct(x.s0, y.s2); LimbProduct(x.s0, y.s3);
    LimbProduct(x.s0, y.s4);
    LimbProduct(x.s1, y.s0); LimbProduct(x.s1, y.s1); LimbProduct(x.s1, y.s2); LimbProduct(x.s1, y.s3);
    LimbProduct(x.s1, y.s4);
    LimbProduct(x.s2, y.s0); LimbProduct(x.s2, y.s1); LimbProduct(x.s2, y.s2); LimbProduct(x.s2, y.s3);
    LimbProduct(x.s2, y.s4);
    LimbProduct(x.s3, y.s0); LimbProduct(x.s3, y.s1); LimbProduct(x.s3, y.s2); LimbProduct(x.s3, y.s3);
    LimbProduct(x.s3, y.s4);
    LimbProduct(x.s4, y.s0); LimbProduct(x.s4, y.s1); LimbProduct(x.s4, y.s2); LimbProduct(x.s4, y.s3);
    LimbProduct(x.s4, y.s4);
    hide Prod, Add128;
    (MulWide(x.s0, y.s0),
     Add128(MulWide(x.s0, y.s1), MulWide(x.s1, y.s0)),
     Add128(Add128(MulWide(x.s0, y.s2), MulWide(x.s1, y.s1)), MulWide(x.s2, y.s0)),
     Add128(Add128(Add128(MulWide(x.s0, y.s3), MulWide(x.s1, y.s2)), MulWide(x.s2, y.s1)), MulWide(x.s3, y.s0)),
     Add128(Add128(Add128(Add128(MulWide(x.s0, y.s4), MulWide(x.s1, y.s3)), MulWide(x.s2, y.s2)), MulWide(x.s3, y.s1)),
            MulWide(x.s4, y.s0)),
     Add128(Add128(Add128(MulWide(x.s1, y.s4), MulWide(x.s2, y.s3)), MulWide(x.s3, y.s2)), MulWide(x.s4, y.s1)),
     Add128(Add128(MulWide(x.s2, y.s4), MulWide(x.s3, y.s3)), MulWide(x.s4, y.s2)),
     Add128(MulWide(x.s3, y.s4), MulWide(x.s4, y.s3)),
     MulWide(x.s4, y.s4))
  }

  ghost function WeighNine(z: (nat, nat, nat, nat, nat, nat, nat, nat, nat)): nat {
    Weigh56(z.0, z.1, z.2, z.3, z.4)
    + 0x10000000000000000000000000000000000000000000000000000000000000000000000 * Weigh56(z.5, z.6, z.7, z.8, 0)
  }

  lemma ColumnsValue(x: Scalar, y: Scalar)
    requires Limbs56(x) && Limbs56(y)
    ensures WeighNine(Columns(x, y)) == Prod(Val56(x), Val56(y))
  {
    var v, z := Val56(y), Columns(x, y);
    ProdSym(Val56(x), v);
    ScaledScalar(v, x);
    ProdSym(v, x.s0); ProdSym(v, x.s1); ProdSym(v, x.s2); ProdSym(v, x.s3); ProdSym(v, x.s4);
    ScaledScalar(x.s0, y); ScaledScalar(x.s1, y); ScaledScalar(x.s2, y); ScaledScalar(x.s3, y); ScaledScalar(x.s4, y);
    hide Prod, Columns, Val56;
  }

  /** Columns z with limbs r and carries c: every carry moves one place up. */
  lemma NineCarried(z: (nat, nat, nat, nat, nat, nat, nat, nat, nat), r: Wide,
                    c: (nat, nat, nat, nat, nat, nat, nat, nat))
    requires z.0 == r.lo.s0 + 0x100000000000000 * c.0 && z.1 + c.0 == r.lo.s1 + 0x100000000000000 * c.1
    requires z.2 + c.1 == r.lo.s2 + 0x100000000000000 * c.2 && z.3 + c.2 == r.lo.s3 + 0x100000000000000 * c.3
    requires z.4 + c.3 == r.lo.s4 + 0x100000000000000 * c.4 && z.5 + c.4 == r.hi.s0 + 0x100000000000000 * c.5
    requires z.6 + c.5 == r.hi.s1 + 0x100000000000000 * c.6 && z.7 + c.6 == r.hi.s2 + 0x100000000000000 * c.7
    requires z.8 + c.7 == r.hi.s3 + 0x100000000000000 * r.hi.s4
    ensures ValWide(r) == WeighNine(z)
  {
  }

  /** The columns leave room for a carry in 128 bits. */
  predicate Room(z: (nat, nat, nat, nat, nat, nat, nat, nat, nat)) {
    z.0 < 5 * POW112 && z.1 < 5 * POW112 && z.2 < 5 * POW112 && z.3 < 5 * POW112 && z.4 < 5 * POW112
    && z.5 < 5 * POW112 && z.6 < 5 * POW112 && z.7 < 5 * POW112 && z.8 < 5 * POW112
  }

  /** Carries through nine columns into ten limbs. */
  function CarryNine(z: (nat, nat, nat, nat, nat, nat, nat, nat, nat)): Wide {
    var c0 := Carry56(z.0);
    var c1 := Carry56(Add128(z.1, c0.1));
    var c2 := Carry56(Add128(z.2, c1.1));
    var c3 := Carry56(Add128(z.3, c2.1));
    var c4 := Carry56(Add128(z.4, c3.1));
    var c5 := Carry56(Add128(z.5, c4.1));
    var c6 := Carry56(Add128(z.6, c5.1));
    var c7 := Carry56(Add128(z.7, c6.1));
    var c8 := Carry56(Add128(z.8, c7.1));
    Wide(Scalar(c0.0, c1.0, c2.0, c3.0, c4.0), Scalar(c5.0, c6.0, c7.0, c8.0, U64(c8.1)))
  }

  lemma CarryNineValue(z: (nat, nat, nat, nat, nat, nat, nat, nat, nat))
    requires Room(z)
    ensures var r := CarryNine(z);
            && Limbs56(r.lo) && ValWide(r) == WeighNine(z)
            && r.hi.s0 < 0x100000000000000 && r.hi.s1 < 0x100000000000000 && r.hi.s2 < 0x100000000000000
            && r.hi.s3 < 0x100000000000000
  {
    hide Add128, U64, Carry56, ValWide, WeighNine, Weigh56;
    var c0 := Carry56(z.0);
    var c1 := Carry56(Add128(z.1, c0.1));
    var c2 := Carry56(Add128(z.2, c1.1));
    var c3 := Carry56(Add128(z.3, c2.1));
    var c4 := Carry56(Add128(z.4, c3.1));
    var c5 := Carry56(Add128(z.5, c4.1));
    var c6 := Carry56(Add128(z.6, c5.1));
    var c7 := Carry56(Add128(z.7, c6.1));
    NineCarried(z, CarryNine(z), (c0.1, c1.1, c2.1, c3.1, c4.1, c5.1, c6.1, c7.1));
  }

  /** The full product of two scalars of five limbs. */
  function MulScalars(x: Scalar, y: Scalar): (r: Wide)
    requires Limbs56(x) && Limbs56(y)
    ensures Limbs56(r.lo) && ValWide(r) == Prod(Val56(x), Val56(y))
    ensures Limbs56(r.hi)
  {
    hide Columns, CarryNine, Prod, WeighNine, Val56, ValWide;
    ColumnsValue(x, y);
    var r := CarryNine(Columns(x, y));
    CarryNineValue(Columns(x, y));
    ProductBound(x, y, r);
    r
  }

  lemma ProductBound(x: Scalar, y: Scalar, r: Wide)
    requires Limbs56(x) && Limbs56(y) && ValWide(r) == Prod(Val56(x), Val56(y))
    ensures r.hi.s4 < 0x100000000000000
  {
    var v, u := Val56(x), Val56(y);
    assert v < POW280 && u < POW280;
    MulLe(v, POW280, u); MulLe(u, POW280, POW280);
    if u > 0 { MulLt(v, POW280, u); }
  }

  /** What the product has above 2^264. */
  ghost function HighProduct(x: Scalar, y: Scalar): nat {
    Prod(Val56(x), Val56(y)) / POW264
  }

  lemma SplitProduct(x: Scalar, y: Scalar, r: nat)
    requires r == Prod(Val56(x), Val56(y)) % POW264
    ensures Prod(Val56(x), Val56(y)) == r + POW264 * HighProduct(x, y) && r < POW264
  {
    hide Prod, Val56;
  }

  /** The product modulo 2^264: the five low columns, the top limb cut to 40 bits. */
  function MulLow(x: Scalar, y: Scalar): (r: Scalar)
    requires Limbs56(x) && Limbs56(y)
    ensures Limbs56(r) && r.s4 < 0x10000000000 && Val56(r) < POW264
    ensures Prod(Val56(x), Val56(y)) == Val56(r) + POW264 * HighProduct(x, y)
  {
    var z := Columns(x, y);
    ColumnsValue(x, y);
    hide Columns, Prod, Add128, U64, Carry56;
    var c0 := Carry56(z.0);
    var c1 := Carry56(Add128(z.1, c0.1));
    var c2 := Carry56(Add128(z.2, c1.1));
    var c3 := Carry56(Add128(z.3, c2.1));
    var w4 := Add128(z.4, c3.1);
    var r := Scalar(c0.0, c1.0, c2.0, c3.0, U64(w4) % 0x10000000000);
    LowColumns(z, r, w4, Prod(Val56(x), Val56(y)));
    SplitProduct(x, y, Val56(r));
    r
  }

  /** Cutting the top limb drops a multiple of 2^264, as do the columns that are not computed. */
  lemma LowColumns(z: (nat, nat, nat, nat, nat, nat, nat, nat, nat), r: Scalar, w4: nat, v: nat)
    requires v == WeighNine(z) && r.s4 == U64(w4) % 0x10000000000
    requires Weigh56(r.s0, r.s1, r.s2, r.s3, w4) == Weigh56(z.0, z.1, z.2, z.3, z.4)
    requires r.s0 < 0x100000000000000 && r.s1 < 0x100000000000000 && r.s2 < 0x100000000000000
        && r.s3 < 0x100000000000000
    ensures Val56(r) == v % POW264
  {
    var k := w4 / 0x10000000000;
    assert w4 == r.s4 + 0x10000000000 * k;
    DivModUnique(v, POW264, k + 0x10000 * Weigh56(z.5, z.6, z.7, z.8, 0), Val56(r));
  }

  // ---- subtraction with borrows ----

  /** The borrow, read off the top bit of the wrapped difference, and the limb with the borrow added back as w. */
  function SubLimb(x: nat, y: nat, w: nat): (r: (nat, nat))
    requires (w == 0x100000000000000 || w == 0x10000000000) && x < w && y <= w
    ensures r.0 <= 1 && r.1 < w
    ensures r.1 == x - y + if w == 0x100000000000000 then 0x100000000000000 * r.0 else 0x10000000000 * r.0
  {
    var b := Sub64(x, y) / 0x8000000000000000;
    (b, Sub64(U64(U64(b * w) + x), y))
  }

  /** Five limbs with borrows; a borrow out of the top limb is worth 2^264 or 2^280. */
  function SubChain(x: Scalar, y: Scalar, top: nat): (r: (nat, Scalar))
    requires Limbs56(x) && Limbs56(y) && (top == 0x100000000000000 || top == 0x10000000000) && x.s4 < top && y.s4 < top
    ensures r.0 <= 1 && Limbs56(r.1) && Val56(r.1) < if top == 0x100000000000000 then POW280 else POW264
    ensures Val56(r.1) == Val56(x) - Val56(y) + if top == 0x100000000000000 then POW280 * r.0 else POW264 * r.0
  {
    hide SubLimb;
    var d0 := SubLimb(x.s0, y.s0, 0x100000000000000);
    var d1 := SubLimb(x.s1, y.s1 + d0.0, 0x100000000000000);
    var d2 := SubLimb(x.s2, y.s2 + d1.0, 0x100000000000000);
    var d3 := SubLimb(x.s3, y.s3 + d2.0, 0x100000000000000);
    var d4 := SubLimb(x.s4, y.s4 + d3.0, top);
    (d4.0, Scalar(d0.1, d1.1, d2.1, d3.1, d4.1))
  }

  /** x - y modulo 2^264. */
  function Sub264(x: Scalar, y: Scalar): (r: Scalar)
    requires Limbs56(x) && Limbs56(y) && x.s4 < 0x10000000000 && y.s4 < 0x10000000000
    ensures Limbs56(r) && Val56(r) < POW264
    ensures Val56(r) == Val56(x) - Val56(y) || Val56(r) == Val56(x) - Val56(y) + POW264
  {
    hide SubChain;
    SubChain(x, y, 0x10000000000).1
  }

  /** The limbs of L. */
  function Order(): (m: Scalar)
    ensures Limbs56(m) && Val56(m) == L
  {
    Scalar(0x12631a5cf5d3ed, 0xf9dea2f79cd658, 0x14de, 0x0, 0x10000000)
  }

  function Choose56(mask: nat, x: nat, y: nat): (r: nat)
    requires x < 0x10000000000000000 && y < 0x10000000000000000 && (mask == 0 || mask == 0x10000000000000000 - 1)
    ensures r == if mask == 0 then x else y
  {
    XorSelect(mask, x, y);
    Xor(x, And(mask, Xor(x, y)))
  }

  /** One conditional subtraction of L. */
  function SubtractOrder(s: Scalar): (z: Scalar)
    requires Limbs56(s)
    ensures Limbs56(z) && Val56(z) == if Val56(s) < L then Val56(s) else Val56(s) - L
  {
    hide SubChain, Choose56, Order, Val56;
    var d := SubChain(s, Order(), 0x100000000000000);
    ValBound(s);
    var mask := Sub64(d.0, 1);
    var z := Scalar(Choose56(mask, s.s0, d.1.s0), Choose56(mask, s.s1, d.1.s1), Choose56(mask, s.s2, d.1.s2),
                    Choose56(mask, s.s3, d.1.s3), Choose56(mask, s.s4, d.1.s4));
    assert z == if mask == 0 then s else d.1;
    z
  }

  lemma ValBound(s: Scalar)
    requires Limbs56(s)
    ensures Val56(s) < POW280
  {
  }

  // ---- Barrett reduction ----

  lemma ShiftLiterals()
    ensures Base(16) == 0x10000 && Base(24) == 0x1000000 && Base(32) == 0x100000000 && Base(40) == 0x10000000000
  {
    BaseLiterals();
    PowOne();
    hide Pow;
    PowAdd(2, 12, 12); PowAdd(2, 1, 1); PowAdd(2, 2, 2); PowAdd(2, 12, 4); PowAdd(2, 16, 16); PowAdd(2, 24, 16);
  }

  /** Two limbs shifted right by a bits across the limb boundary, b = 2^a. */
  function Join56(lo: nat, hi: nat, a: nat, b: nat): nat
    requires b > 0
  {
    Or(Shr(lo, a), Shl64(And(hi, b - 1), if a <= 56 then 56 - a else 0))
  }

  lemma JoinArith(lo: nat, hi: nat, a: nat, b: nat, c: nat)
    requires a <= 56 && lo < 0x100000000000000 && b == Base(a) && c == Base(56 - a) && b * c == 0x100000000000000
    ensures Join56(lo, hi, a, b) == lo / b + c * (hi % b)
  {
    hide Base, And, Or, Shl64;
    AndOnes(a, hi);
    DivBound(lo, b, c);
    JoinWords(56 - a, lo / b, hi % b);
    Monotone(a, 64 - (56 - a));
    DivModUnique(hi % b, Base(64 - (56 - a)), 0, hi % b);
  }

  lemma Monotone(a: nat, b: nat)
    requires a <= b
    ensures Base(a) <= Base(b)
  {
    PowMonotonic(2, a, b);
  }

  lemma RemainderIs(x: nat, h: nat, l: nat, b: nat)
    requires x == b * h + l && l < b
    ensures x % b == l
  {
    DivModUnique(x, b, h, l);
  }

  lemma Join24(lo: nat, hi: nat) returns (h: nat, l: nat)
    requires lo < 0x100000000000000
    ensures lo == 0x1000000 * h + l && l < 0x1000000 && h < 0x100000000
    ensures Join56(lo, hi, 24, 0x1000000) == h + 0x100000000 * (hi % 0x1000000)
  {
    ShiftLiterals();
    JoinArith(lo, hi, 24, 0x1000000, 0x100000000);
    hide Join56, Base, Pow;
    h, l := lo / 0x1000000, lo % 0x1000000;
  }

  /** Limbs h + 4294967296 * l of adjacent halves are the number without its low 248 bits. */
  lemma Shift248Arith(t: Wide, q: Scalar, h4: nat, l4: nat, h5: nat, l5: nat, h6: nat, l6: nat, h7: nat, l7: nat,
                      h8: nat, l8: nat)
    requires Limbs56(t.lo) && l4 < 0x1000000
    requires t.lo.s4 == 0x1000000 * h4 + l4 && t.hi.s0 == 0x1000000 * h5 + l5 && t.hi.s1 == 0x1000000 * h6 + l6
    requires t.hi.s2 == 0x1000000 * h7 + l7 && t.hi.s3 == 0x1000000 * h8 + l8
    requires q == Scalar(h4 + 0x100000000 * l5, h5 + 0x100000000 * l6, h6 + 0x100000000 * l7, h7 + 0x100000000 * l8, h8
                         + 0x100000000 * t.hi.s4)
    ensures POW248 * Val56(q) <= ValWide(t) < POW248 * Val56(q) + POW248
  {
  }

  /** The bits from 248 on. */
  function Shift248(t: Wide): Scalar {
    Scalar(Join56(t.lo.s4, t.hi.s0, 24, 0x1000000), Join56(t.hi.s0, t.hi.s1, 24, 0x1000000),
           Join56(t.hi.s1, t.hi.s2, 24, 0x1000000),
           Join56(t.hi.s2, t.hi.s3, 24, 0x1000000), Join56(t.hi.s3, t.hi.s4, 24, 0x1000000))
  }

  lemma Shift248Value(t: Wide)
    requires Limbs56(t.lo) && Limbs56(t.hi) && t.hi.s4 < 0x1000000
    ensures Limbs56(Shift248(t))
    ensures POW248 * Val56(Shift248(t)) <= ValWide(t) < POW248 * Val56(Shift248(t)) + POW248
  {
    hide Join56;
    var h4, l4 := Join24(t.lo.s4, t.hi.s0);
    var h5, l5 := Join24(t.hi.s0, t.hi.s1);
    var h6, l6 := Join24(t.hi.s1, t.hi.s2);
    var h7, l7 := Join24(t.hi.s2, t.hi.s3);
    var h8, l8 := Join24(t.hi.s3, t.hi.s4);
    RemainderIs(t.hi.s0, h5, l5, 0x1000000); RemainderIs(t.hi.s1, h6, l6, 0x1000000);
    RemainderIs(t.hi.s2, h7, l7, 0x1000000);
    RemainderIs(t.hi.s3, h8, l8, 0x1000000); RemainderIs(t.hi.s4, 0, t.hi.s4, 0x1000000);
    hide Val56, ValWide;
    Shift248Arith(t, Shift248(t), h4, l4, h5, l5, h6, l6, h7, l7, h8, l8);
  }

  lemma Join40(lo: nat, hi: nat) returns (h: nat, l: nat)
    requires lo < 0x100000000000000
    ensures lo == 0x10000000000 * h + l && l < 0x10000000000 && h < 0x10000
    ensures Join56(lo, hi, 40, 0x10000000000) == h + 0x10000 * (hi % 0x10000000000)
  {
    ShiftLiterals();
    JoinArith(lo, hi, 40, 0x10000000000, 0x10000);
    hide Join56, Base, Pow;
    h, l := lo / 0x10000000000, lo % 0x10000000000;
  }

  /** Limbs h + 65536 * l of adjacent halves are the number without its low 264 bits. */
  lemma Shift264Arith(t: Wide, q: Scalar, h4: nat, l4: nat, h5: nat, l5: nat, h6: nat, l6: nat, h7: nat, l7: nat,
                      h8: nat, l8: nat)
    requires Limbs56(t.lo) && l4 < 0x10000000000
    requires t.lo.s4 == 0x10000000000 * h4 + l4 && t.hi.s0 == 0x10000000000 * h5 + l5
        && t.hi.s1 == 0x10000000000 * h6 + l6
    requires t.hi.s2 == 0x10000000000 * h7 + l7 && t.hi.s3 == 0x10000000000 * h8 + l8
    requires q == Scalar(h4 + 0x10000 * l5, h5 + 0x10000 * l6, h6 + 0x10000 * l7, h7 + 0x10000 * l8, h8
                         + 0x10000 * t.hi.s4)
    ensures POW264 * Val56(q) <= ValWide(t) < POW264 * Val56(q) + POW264
  {
  }

  /** The bits from 264 on. */
  function Shift264(t: Wide): Scalar {
    Scalar(Join56(t.lo.s4, t.hi.s0, 40, 0x10000000000), Join56(t.hi.s0, t.hi.s1, 40, 0x10000000000),
           Join56(t.hi.s1, t.hi.s2, 40, 0x10000000000),
           Join56(t.hi.s2, t.hi.s3, 40, 0x10000000000), Join56(t.hi.s3, t.hi.s4, 40, 0x10000000000))
  }

  lemma Shift264Value(t: Wide)
    requires Limbs56(t.lo) && Limbs56(t.hi) && t.hi.s4 < 0x10000000000
    ensures Limbs56(Shift264(t))
    ensures POW264 * Val56(Shift264(t)) <= ValWide(t) < POW264 * Val56(Shift264(t)) + POW264
  {
    hide Join56;
    var h4, l4 := Join40(t.lo.s4, t.hi.s0);
    var h5, l5 := Join40(t.hi.s0, t.hi.s1);
    var h6, l6 := Join40(t.hi.s1, t.hi.s2);
    var h7, l7 := Join40(t.hi.s2, t.hi.s3);
    var h8, l8 := Join40(t.hi.s3, t.hi.s4);
    RemainderIs(t.hi.s0, h5, l5, 0x10000000000); RemainderIs(t.hi.s1, h6, l6, 0x10000000000);
    RemainderIs(t.hi.s2, h7, l7, 0x10000000000);
    RemainderIs(t.hi.s3, h8, l8, 0x10000000000); RemainderIs(t.hi.s4, 0, t.hi.s4, 0x10000000000);
    hide Val56, ValWide;
    Shift264Arith(t, Shift264(t), h4, l4, h5, l5, h6, l6, h7, l7, h8, l8);
  }

  /** The limbs of the Barrett constant. */
  function Mu(): (m: Scalar)
    ensures Limbs56(m) && Val56(m) == MU
  {
    Scalar(0x9ce5a30a2c131b, 0x215d086329a7ed, 0xffffffffeb2106, 0xffffffffffffff, 0xfffffffff)
  }

  /**
   * The estimated quotient is at most one too small, because 2^512 exceeds MU * L by less than L - 2^248:
   * q is x without its low 248 bits and d is q * MU without its low 264 bits.
   */
  lemma QuotientEstimate(x: nat, q: nat, d: nat)
    requires x < POW512 && POW248 * q <= x < POW248 * q + POW248
    requires POW264 * d <= MU * q < POW264 * d + POW264
    ensures 0 <= x - L * d < 2 * L
  {
    var r1, r2 := x - POW248 * q, MU * q - POW264 * d;
    assert POW264 * (x - L * d) == L * r2 + MU_REST * q + POW264 * r1;
  }

  /** The low 264 bits. */
  function Low264(t: Wide): Scalar {
    Scalar(t.lo.s0, t.lo.s1, t.lo.s2, t.lo.s3, And(t.lo.s4, 0xffffffffff))
  }

  ghost function High264(t: Wide): nat {
    t.lo.s4 / 0x10000000000 + 0x10000 * Val56(t.hi)
  }

  lemma Low264Value(t: Wide)
    requires Limbs56(t.lo)
    ensures Limbs56(Low264(t)) && Low264(t).s4 < 0x10000000000 && ValWide(t) == Val56(Low264(t)) + POW264 * High264(t)
  {
    ShiftLiterals();
    AndOnes(40, t.lo.s4);
    hide And, Base, Pow;
  }

  /** The estimated quotient of t by L. */
  function Quotient(t: Wide): (d: Scalar)
    requires Limbs56(t.lo) && Limbs56(t.hi) && ValWide(t) < POW512
    ensures Limbs56(d) && 0 <= ValWide(t) - L * Val56(d) < 2 * L
  {
    hide *;
    TopBits512(t);
    Shift248Value(t);
    var q := Shift248(t);
    var qmu := MulScalars(q, Mu());
    QuotientTop(t, q, qmu);
    Shift264Value(qmu);
    ProdLiteral(Val56(q));
    QuotientEstimate(ValWide(t), Val56(q), Val56(Shift264(qmu)));
    Shift264(qmu)
  }

  lemma ProdLiteral(q: nat)
    ensures Prod(q, MU) == MU * q
  {
  }

  lemma TopBits512(t: Wide)
    requires ValWide(t) < POW512
    ensures t.hi.s4 < 0x1000000
  {
  }

  lemma QuotientTop(t: Wide, q: Scalar, qmu: Wide)
    requires ValWide(t) < POW512 && POW248 * Val56(q) <= ValWide(t) && ValWide(qmu) == Prod(Val56(q), MU)
    ensures qmu.hi.s4 < 0x10000000000
  {
    ProdLiteral(Val56(q));
    var v := Val56(q);
    assert v < POW264;
    hide Val56, Prod;
    assert MU * v < 0x10000 * POW512;
  }

  /** A residue modulo 2^264 of a number that fits is the number. */
  lemma ResidueFits(v: int, s: int, k: int)
    requires s == v + POW264 * k && 0 <= v < POW264 && 0 <= s < POW264
    ensures s == v
  {
  }

  /** The remainder t - d * L, computed modulo 2^264, where it fits. */
  lemma RemainderFits(t: nat, d: nat, r: nat, k: nat, m: nat, j: nat, s: nat)
    requires 0 <= t - L * d < 2 * L && t == r + POW264 * k && Prod(d, L) == m + POW264 * j
    requires s < POW264 && (s == r - m || s == r - m + POW264)
    ensures s == t - L * d
  {
    assert Prod(d, L) == L * d;
    hide Prod;
    ResidueFits(t - L * d, s, j - k + if s == r - m then 0 else 1);
  }

  /** The remainder modulo the group order. */
  function ModL(x: nat): nat {
    x % L
  }

  /** t mod L for every t below 2^512. */
  function Barrett(t: Wide): (z: Scalar)
    requires Limbs56(t.lo) && Limbs56(t.hi) && ValWide(t) < POW512
    ensures Limbs56(z) && Val56(z) == ModL(ValWide(t))
  {
    hide *;
    var d := Quotient(t);
    var r := Low264(t);
    Low264Value(t);
    var qmul := MulLow(d, Order());
    var s := Sub264(r, qmul);
    RemainderFits(ValWide(t), Val56(d), Val56(r), High264(t), Val56(qmul), HighProduct(d, Order()), Val56(s));
    LeastRemainder(ValWide(t), Val56(d), Val56(s));
    SubtractOrder(s)
  }

  lemma LeastRemainder(t: nat, d: nat, s: nat)
    requires s == t - L * d && s < 2 * L
    ensures (if s < L then s else s - L) == ModL(t)
  {
    if s < L { DivModUnique(t, L, d, s); } else { DivModUnique(t, L, d + 1, s - L); }
  }

  // ---- sums and comparison ----

  /** The carry out of a 64-bit limb and the 56 bits that stay. */
  function CarryWord(l: nat): (r: (nat, nat))
    requires l < 0x10000000000000000
    ensures l == r.0 + 0x100000000000000 * r.1 && r.0 < 0x100000000000000
  {
    (l % 0x100000000000000, l / 0x100000000000000)
  }

  /** The sum of two scalars below L. */
  function AddScalars(x: Scalar, y: Scalar): (r: Scalar)
    requires Limbs56(x) && Limbs56(y) && Val56(x) < L && Val56(y) < L
    ensures Limbs56(r) && Val56(r) == Val56(x) + Val56(y)
  {
    hide CarryWord, U64;
    assert x.s4 <= 0x10000000 && y.s4 <= 0x10000000;
    var c0 := CarryWord(U64(x.s0 + y.s0));
    var c1 := CarryWord(U64(x.s1 + y.s1 + c0.1));
    var c2 := CarryWord(U64(x.s2 + y.s2 + c1.1));
    var c3 := CarryWord(U64(x.s3 + y.s3 + c2.1));
    Scalar(c0.0, c1.0, c2.0, c3.0, U64(x.s4 + y.s4 + c3.1))
  }

  /** s >= L, by comparing limbs from the top. */
  predicate GteQ(s: Scalar): (r: bool)
    requires Limbs56(s)
    ensures r <==> Val56(s) >= L
  {
    if s.s4 > 0x10000000 then true
    else if s.s4 < 0x10000000 then false
    else if s.s3 > 0 then true
    else if s.s2 > 0x14de then true
    else if s.s2 < 0x14de then false
    else if s.s1 > 0xf9dea2f79cd658 then true
    else if s.s1 < 0xf9dea2f79cd658 then false
    else if s.s0 >= 0x12631a5cf5d3ed then true
    else false
  }

  // ---- on buffers ----

  function ScalarAt(a: array<nat>, o: nat): Scalar
    requires o + 5 <= a.Length
    reads a
  {
    Scalar(a[o], a[o + 1], a[o + 2], a[o + 3], a[o + 4])
  }

  function WideAt(t: array<nat>): Wide
    requires t.Length == 10
    reads t
  {
    Wide(ScalarAt(t, 0), ScalarAt(t, 5))
  }

  method StoreScalar(a: array<nat>, o: nat, s: Scalar)
    requires o + 5 <= a.Length
    modifies a
    ensures ScalarAt(a, o) == s
    ensures forall k :: 0 <= k < a.Length && !(o <= k < o + 5) ==> a[k] == old(a[k])
  {
    a[o], a[o + 1], a[o + 2], a[o + 3], a[o + 4] := s.s0, s.s1, s.s2, s.s3, s.s4;
  }

  method BarrettReduction(z: array<nat>, t: array<nat>)
    requires z.Length == 5 && t.Length == 10 && Limbs56(WideAt(t).lo) && Limbs56(WideAt(t).hi)
        && ValWide(WideAt(t)) < POW512
    modifies z
    ensures Limbs56(ScalarAt(z, 0)) && Val56(ScalarAt(z, 0)) == ModL(old(ValWide(WideAt(t))))
  {
    hide Barrett, Val56, ValWide, ModL;
    StoreScalar(z, 0, Barrett(WideAt(t)));
  }

  /** x * y mod L; out may be x or y. */
  method MulModQ(out: array<nat>, x: array<nat>, y: array<nat>)
    requires out.Length == 5 && x.Length == 5 && y.Length == 5 && Limbs56(ScalarAt(x, 0)) && Limbs56(ScalarAt(y, 0))
    requires Prod(Val56(ScalarAt(x, 0)), Val56(ScalarAt(y, 0))) < POW512
    modifies out
    ensures Limbs56(ScalarAt(out, 0))
    ensures Val56(ScalarAt(out, 0)) == ModL(Prod(old(Val56(ScalarAt(x, 0))), old(Val56(ScalarAt(y, 0)))))
  {
    hide Barrett, Val56, ValWide, ModL, MulScalars, Prod;
    var tmp := new nat[10](_ => 0);
    var xy := MulScalars(ScalarAt(x, 0), ScalarAt(y, 0));
    StoreScalar(tmp, 0, xy.lo);
    StoreScalar(tmp, 5, xy.hi);
    assert WideAt(tmp) == xy;
    BarrettReduction(out, tmp);
  }

  /** x + y mod L for x, y < L; out may be x or y. */
  method AddModQ(out: array<nat>, x: array<nat>, y: array<nat>)
    requires out.Length == 5 && x.Length == 5 && y.Length == 5 && Limbs56(ScalarAt(x, 0)) && Limbs56(ScalarAt(y, 0))
    requires Val56(ScalarAt(x, 0)) < L && Val56(ScalarAt(y, 0)) < L
    modifies out
    ensures Limbs56(ScalarAt(out, 0))
    ensures Val56(ScalarAt(out, 0)) == ModL(old(Val56(ScalarAt(x, 0))) + old(Val56(ScalarAt(y, 0))))
  {
    hide Val56, ModL, AddScalars, SubtractOrder;
    var s := AddScalars(ScalarAt(x, 0), ScalarAt(y, 0));
    LeastRemainder(Val56(s), 0, Val56(s));
    StoreScalar(out, 0, SubtractOrder(s));
  }

  // ---- bytes ----

  lemma SevenBytes()
    ensures Base(8) == 256 && Pow(Base(8), 7) == 0x100000000000000 && Pow(Base(8), 8) == 0x10000000000000000
        && Pow(Base(8), 4) == 0x100000000
  {
    PowMul(2, 8, 7); PowMul(2, 8, 8); PowMul(2, 8, 4);
    BaseLiterals();
    ShiftLiterals();
    assert Base(8) == 256 by { assert Pow(2, 4) == 16; PowAdd(2, 4, 4); }
    hide Pow;
    PowAdd(2, 40, 16);
  }

  /** Eight bytes masked to 56 bits are the first seven. */
  lemma SevenOfEight(s: seq<nat>)
    requires |s| == 8 && IsLimbs(Base(8), s)
    ensures And(Eval(Base(8), s), 0xffffffffffffff) == Eval(Base(8), s[..7]) < 0x100000000000000
    ensures Eval(Base(8), s) < 0x100000000000000 ==> Eval(Base(8), s) == Eval(Base(8), s[..7])
  {
    SevenBytes();
    assert Base(56) == 0x100000000000000 by { PowMul(2, 8, 7); }
    AndOnes(56, Eval(Base(8), s));
    EvalSplit(Base(8), s, 7);
    EvalBound(Base(8), s[..7]);
    hide Eval, And, Pow, Base;
    DivModUnique(Eval(Base(8), s), 0x100000000000000, Eval(Base(8), s[7..]), Eval(Base(8), s[..7]));
  }

  method LoadSeven(b: array<nat>, off: nat) returns (x: nat)
    requires off + 8 <= b.Length && IsLimbs(Base(8), Slice(b, off, 8))
    ensures x == Val(Base(8), b, off, 7) < 0x100000000000000
  {
    var u := LoadLe(b, off, 8);
    SevenOfEight(Slice(b, off, 8));
    assert Slice(b, off, 8)[..7] == Slice(b, off, 7);
    x := And(u, 0xffffffffffffff);
  }

  /** Seven bytes are one limb of radix 2^56. */
  lemma PeelSeven(b: array<nat>, off: nat, n: nat)
    requires 7 <= n && off + n <= b.Length
    ensures Val(Base(8), b, off, n) == Val(Base(8), b, off, 7) + 0x100000000000000 * Val(Base(8), b, off + 7, n - 7)
  {
    var s := Slice(b, off, n);
    assert Slice(b, off, 7) == s[..7] && Slice(b, off + 7, n - 7) == s[7..];
    SevenBytes();
    EvalSplit(Base(8), s, 7);
  }

  lemma BytesPart(b: array<nat>, n: nat, i: nat, m: nat)
    requires n <= b.Length && i + m <= n && IsLimbs(Base(8), Slice(b, 0, n))
    ensures IsLimbs(Base(8), Slice(b, i, m))
  {
    LimbsPart(Base(8), b[..], 0, n, i, m);
    assert b[..][0..n] == Slice(b, 0, n) && b[..][i..i + m] == Slice(b, i, m);
  }

  lemma SixtyFourBytes(b: array<nat>, w: Wide)
    requires b.Length == 64 && IsLimbs(Base(8), Slice(b, 0, 64))
    requires w.lo == Scalar(Val(Base(8), b, 0, 7), Val(Base(8), b, 7, 7), Val(Base(8), b, 14, 7),
                            Val(Base(8), b, 21, 7), Val(Base(8), b, 28, 7))
    requires w.hi == Scalar(Val(Base(8), b, 35, 7), Val(Base(8), b, 42, 7), Val(Base(8), b, 49, 7),
                            Val(Base(8), b, 56, 7), b[63])
    ensures ValWide(w) == Val(Base(8), b, 0, 64)
  {
    hide Eval, IsLimbs, Base, Pow, Slice;
    PeelSeven(b, 0, 64); PeelSeven(b, 7, 57); PeelSeven(b, 14, 50); PeelSeven(b, 21, 43); PeelSeven(b, 28, 36);
    PeelSeven(b, 35, 29); PeelSeven(b, 42, 22); PeelSeven(b, 49, 15); PeelSeven(b, 56, 8);
    LastByte(b);
  }

  lemma Below512(b: array<nat>)
    requires b.Length == 64 && IsLimbs(Base(8), Slice(b, 0, 64))
    ensures Val(Base(8), b, 0, 64) < POW512
  {
    hide Eval, IsLimbs, Base, Pow;
    EvalBound(Base(8), Slice(b, 0, 64));
    SixtyFourBytesLiteral();
  }

  lemma SixtyFourBytesLiteral()
    ensures Pow(Base(8), 64) == POW512
  {
    hide Pow, Base;
    SevenBytes();
    PowAdd(Base(8), 8, 8); PowAdd(Base(8), 16, 16); PowAdd(Base(8), 32, 32);
  }

  /** load_64_bytes: ten limbs from overlapping loads. */
  method Load64Bytes(out: array<nat>, b: array<nat>)
    requires out.Length == 10 && b.Length == 64 && out != b && IsLimbs(Base(8), Slice(b, 0, 64))
    modifies out
    ensures Limbs56(WideAt(out).lo) && Limbs56(WideAt(out).hi)
        && ValWide(WideAt(out)) == Val(Base(8), b, 0, 64) < POW512
  {
    hide Eval, IsLimbs, Base, Pow, Slice, ValWide;
    BytesPart(b, 64, 0, 8); BytesPart(b, 64, 7, 8); BytesPart(b, 64, 14, 8); BytesPart(b, 64, 21, 8);
    BytesPart(b, 64, 28, 8);
    BytesPart(b, 64, 35, 8); BytesPart(b, 64, 42, 8); BytesPart(b, 64, 49, 8); BytesPart(b, 64, 56, 8);
    Below512(b);
    LastByte(b);
    var b0 := LoadSeven(b, 0);
    var b1 := LoadSeven(b, 7);
    var b2 := LoadSeven(b, 14);
    var b3 := LoadSeven(b, 21);
    var b4 := LoadSeven(b, 28);
    var b5 := LoadSeven(b, 35);
    var b6 := LoadSeven(b, 42);
    var b7 := LoadSeven(b, 49);
    var b88 := LoadSeven(b, 56);
    var b9 := b[63];
    StoreScalar(out, 0, Scalar(b0, b1, b2, b3, b4));
    StoreScalar(out, 5, Scalar(b5, b6, b7, b88, b9));
    SixtyFourBytes(b, WideAt(out));
  }

  lemma LastByte(b: array<nat>)
    requires b.Length == 64 && IsLimbs(Base(8), Slice(b, 0, 64))
    ensures Val(Base(8), b, 63, 1) == b[63] < 256
  {
    SevenBytes();
    assert Slice(b, 63, 1) == [b[63]] && b[63] == Slice(b, 0, 64)[63];
    EvalOne(Base(8), b[63]);
  }

  /** A 64-byte hash as a scalar: the tail of sha512_modq_pre. */
  method BytesModQ(out: array<nat>, hash: array<nat>)
    requires out.Length == 5 && hash.Length == 64 && IsLimbs(Base(8), Slice(hash, 0, 64))
    modifies out
    ensures Limbs56(ScalarAt(out, 0)) && Val56(ScalarAt(out, 0)) == ModL(old(Val(Base(8), hash, 0, 64)))
  {
    hide *;
    var tmp := new nat[10](_ => 0);
    Load64Bytes(tmp, hash);
    BarrettReduction(out, tmp);
  }

  /** load_32_bytes. */
  method Load32Bytes(out: array<nat>, b: array<nat>)
    requires out.Length == 5 && b.Length == 32 && out != b && IsLimbs(Base(8), Slice(b, 0, 32))
    modifies out
    ensures Limbs56(ScalarAt(out, 0)) && Val56(ScalarAt(out, 0)) == Val(Base(8), b, 0, 32) < POW256
  {
    BytesPart(b, 32, 0, 8); BytesPart(b, 32, 7, 8); BytesPart(b, 32, 14, 8); BytesPart(b, 32, 21, 8);
    BytesPart(b, 32, 28, 4);
    hide Eval, IsLimbs, Base, Pow, Slice, Val, Weigh56;
    FourBytes(b);
    FiveLimbs(b);
    var b0 := LoadSeven(b, 0);
    var b1 := LoadSeven(b, 7);
    var b2 := LoadSeven(b, 14);
    var b3 := LoadSeven(b, 21);
    var b4 := LoadLe(b, 28, 4);
    StoreScalar(out, 0, Scalar(b0, b1, b2, b3, b4));
    Below256(Scalar(b0, b1, b2, b3, b4));
  }

  /** 32 bytes as four limbs of seven bytes and one of four. */
  lemma FiveLimbs(b: array<nat>)
    requires b.Length == 32
    ensures Val(Base(8), b, 0, 32) == Weigh56(Val(Base(8), b, 0, 7), Val(Base(8), b, 7, 7), Val(Base(8), b, 14, 7),
                                              Val(Base(8), b, 21, 7), Val(Base(8), b, 28, 4))
  {
    hide Eval, IsLimbs, Base, Pow, Slice, Val;
    PeelSeven(b, 0, 32); PeelSeven(b, 7, 25); PeelSeven(b, 14, 18); PeelSeven(b, 21, 11);
  }

  lemma FourBytes(b: array<nat>)
    requires b.Length == 32 && IsLimbs(Base(8), Slice(b, 28, 4))
    ensures Val(Base(8), b, 28, 4) < 0x100000000
  {
    hide Eval, IsLimbs, Base, Pow;
    EvalBound(Base(8), Slice(b, 28, 4));
    SevenBytes();
  }

  /** The value stays below 2^256 exactly when the top limb fits 32 bits. */
  lemma Below256(s: Scalar)
    requires Limbs56(s)
    ensures Val56(s) < POW256 <==> s.s4 < 0x100000000
  {
  }

  /** store_56: overlapping stores; each but the last writes one zero byte that the next overwrites. */
  method Store56(out: array<nat>, b: array<nat>)
    requires out.Length == 32 && b.Length == 5 && out != b && Limbs56(ScalarAt(b, 0)) && Val56(ScalarAt(b, 0)) < POW256
    modifies out
    ensures IsLimbs(Base(8), Slice(out, 0, 32)) && Val(Base(8), out, 0, 32) == Val56(ScalarAt(b, 0))
  {
    hide Eval, IsLimbs, Base, Pow, Slice, Weigh56;
    Below256(ScalarAt(b, 0));
    SevenBytes();
    StoreSeven(out, 0, b[0]);
    StoreSeven(out, 7, b[1]);
    StoreSeven(out, 14, b[2]);
    StoreSeven(out, 21, b[3]);
    StoreLe(out, 28, 4, b[4] % 0x100000000);
    FiveLimbs(out);
    FiveParts(out);
  }

  method StoreSeven(out: array<nat>, off: nat, x: nat)
    requires off + 8 <= out.Length && x < 0x100000000000000
    modifies out
    ensures IsLimbs(Base(8), Slice(out, off, 7)) && Val(Base(8), out, off, 7) == x
    ensures forall z: array<nat>, i: nat, m: nat {:trigger Slice(z, i, m)} ::
              old(allocated(z)) && Away(z, i, m, out, off, 8) ==> Slice(z, i, m) == old(Slice(z, i, m))
  {
    SevenBytes();
    StoreLe(out, off, 8, x);
    SevenOfEight(Slice(out, off, 8));
    assert Slice(out, off, 8)[..7] == Slice(out, off, 7);
  }

  lemma FiveParts(o: array<nat>)
    requires o.Length == 32 && IsLimbs(Base(8), Slice(o, 0, 7)) && IsLimbs(Base(8), Slice(o, 7, 7))
        && IsLimbs(Base(8), Slice(o, 14, 7))
    requires IsLimbs(Base(8), Slice(o, 21, 7)) && IsLimbs(Base(8), Slice(o, 28, 4))
    ensures IsLimbs(Base(8), Slice(o, 0, 32))
  {
    assert Slice(o, 0, 32) == Slice(o, 0, 7) + Slice(o, 7, 7) + Slice(o, 14, 7) + Slice(o, 21, 7) + Slice(o, 28, 4);
  }
}
