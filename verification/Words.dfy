/**
 * Machine words as natural numbers. A word of width w is a number below Base(w);
 * wrap-around is written out as a remainder, and the bit operations are defined bit by bit,
 * so that the branch-free selections of the source can be proved for every width.
 */
module Words {
  import opened Arith

  function Base(w: nat): (r: nat)
    ensures r > 0
  {
    PowPositive(2, w);
    Pow(2, w)
  }

  lemma BaseSplit(w: nat, k: nat)
    requires k <= w
    ensures Base(w) == Base(k) * Base(w - k)
  {
    PowAdd(2, k, w - k);
  }

  /** Base(w) for w > 0 is even; half of it is the weight of the top bit. */
  lemma BaseHalf(w: nat)
    requires w > 0
    ensures Base(w) == 2 * Base(w - 1)
  {
  }

  lemma BaseAtLeastTwo(w: nat)
    requires w > 0
    ensures Base(w) >= 2
  {
  }

  // ---- bit operations ----

  function Bit(b: bool): nat {
    if b then 1 else 0
  }

  function And(x: nat, y: nat): nat {
    if x == 0 || y == 0 then 0
    else 2 * And(x / 2, y / 2) + Bit(x % 2 == 1 && y % 2 == 1)
  }

  function Or(x: nat, y: nat): nat {
    if x == 0 then y else if y == 0 then x
    else 2 * Or(x / 2, y / 2) + Bit(x % 2 == 1 || y % 2 == 1)
  }

  function Xor(x: nat, y: nat): nat {
    if x == 0 then y else if y == 0 then x
    else 2 * Xor(x / 2, y / 2) + Bit(x % 2 != y % 2)
  }

  function Not(w: nat, x: nat): nat
    requires x < Base(w)
  {
    Base(w) - 1 - x
  }

  /** The step of And, Or and Xor without the special cases for zero. */
  lemma {:induction false} BitStep(x: nat, y: nat)
    ensures And(x, y) == 2 * And(x / 2, y / 2) + Bit(x % 2 == 1 && y % 2 == 1)
    ensures Or(x, y) == 2 * Or(x / 2, y / 2) + Bit(x % 2 == 1 || y % 2 == 1)
    ensures Xor(x, y) == 2 * Xor(x / 2, y / 2) + Bit(x % 2 != y % 2)
  {
  }

  lemma {:induction false} BitBounds(w: nat, x: nat, y: nat)
    requires x < Base(w) && y < Base(w)
    ensures And(x, y) < Base(w) && Or(x, y) < Base(w) && Xor(x, y) < Base(w)
  {
    if w > 0 {
      BitBounds(w - 1, x / 2, y / 2);
      BitStep(x, y);
    }
  }

  lemma {:induction false} BitSym(x: nat, y: nat)
    ensures And(x, y) == And(y, x) && Or(x, y) == Or(y, x) && Xor(x, y) == Xor(y, x)
  {
    if x > 0 && y > 0 { BitSym(x / 2, y / 2); }
  }

  /** Masking with k ones keeps the low k bits. */
  lemma {:induction false} AndOnes(k: nat, x: nat)
    ensures And(x, Base(k) - 1) == x % Base(k)
    ensures And(Base(k) - 1, x) == x % Base(k)
  {
    hide And, Or, Xor;
    BitSym(x, Base(k) - 1);
    if k == 0 {
      AndZero(x);
    } else {
      BaseHalf(k);
      hide *;
      AndOnes(k - 1, x / 2);
      AndOnesStep(x, Base(k - 1));
    }
  }

  lemma AndZero(x: nat)
    ensures And(x, 0) == 0
  {
  }

  lemma AndOnesStep(x: nat, b: nat)
    requires b > 0 && And(x / 2, b - 1) == x / 2 % b
    ensures And(x, 2 * b - 1) == x % (2 * b)
  {
    hide And, Or, Xor;
    BitStep(x, 2 * b - 1);
    assert (2 * b - 1) / 2 == b - 1 && (2 * b - 1) % 2 == 1;
    ModHalf(x, b);
  }

  lemma ModHalf(x: nat, b: nat)
    requires b > 0
    ensures x % (2 * b) == 2 * (x / 2 % b) + x % 2
  {
    var q, r := x / 2 / b, x / 2 % b;
    assert x / 2 == q * b + r;
    assert q * (2 * b) == 2 * (q * b) by { MulAssoc(q, 2, b); }
    DivModUnique(x, 2 * b, q, 2 * r + x % 2);
  }

  /** Words whose bits do not overlap are joined by addition. */
  lemma {:induction false} OrDisjoint(k: nat, x: nat, y: nat)
    requires x < Base(k)
    ensures Or(x, y * Base(k)) == x + y * Base(k)
  {
    if k > 0 {
      OrDisjoint(k - 1, x / 2, y);
      var b := Base(k - 1);
      assert y * (2 * b) == 2 * (y * b) by { MulAssoc(y, 2, b); MulAssoc(2, y, b); }
      BitStep(x, y * Base(k));
    }
  }

  /** The bits of x from bit k on. */
  function Shr(x: nat, k: nat): nat {
    x / Base(k)
  }

  /** The bits of x below bit k. */
  function Low(x: nat, k: nat): nat {
    x % Base(k)
  }

  lemma ShiftStep(x: nat, k: nat)
    requires k > 0
    ensures Shr(x, k) == Shr(x / 2, k - 1) && Low(x, k) == 2 * Low(x / 2, k - 1) + x % 2
  {
    BaseHalf(k);
    HalvedDivision(x, Base(k - 1));
  }

  lemma HalvedDivision(x: nat, b: nat)
    requires b > 0
    ensures x / (2 * b) == x / 2 / b && x % (2 * b) == 2 * (x / 2 % b) + x % 2
  {
    var q, r := x / 2 / b, x / 2 % b;
    ModHalf(x, b);
    assert x / 2 == q * b + r;
    MulAssoc(2, q, b);
    DivModUnique(x, 2 * b, q, 2 * r + x % 2);
  }

  /** And with, and or with, a multiple of 2^k act on the bits from k on. */
  lemma {:induction false} HighBitsOnly(k: nat, x: nat, m: nat)
    ensures And(x, Prod(m, Base(k))) == Prod(And(Shr(x, k), m), Base(k))
    ensures Or(x, Prod(m, Base(k))) == Low(x, k) + Prod(Or(Shr(x, k), m), Base(k))
  {
    if k > 0 {
      BaseHalf(k);
      hide *;
      var b, h := Base(k - 1), Shr(x / 2, k - 1);
      HighBitsOnly(k - 1, x / 2, m);
      HighBitsStep(x, Prod(m, b));
      ShiftStep(x, k);
      TwiceProd(m, b); TwiceProd(And(h, m), b); TwiceProd(Or(h, m), b);
    } else {
      assert Base(0) == 1;
      assert Prod(m, 1) == m && x / 1 == x;
      hide And, Or, Base, Pow;
    }
  }

  lemma HighBitsStep(x: nat, m: nat)
    ensures And(x, 2 * m) == 2 * And(x / 2, m) && Or(x, 2 * m) == 2 * Or(x / 2, m) + x % 2
  {
    BitStep(x, 2 * m);
  }

  lemma TwiceProd(x: nat, b: nat)
    ensures Prod(x, 2 * b) == 2 * Prod(x, b)
  {
  }

  lemma {:induction false} XorSelf(x: nat, y: nat)
    ensures Xor(x, x) == 0 && Xor(x, Xor(x, y)) == y && Xor(Xor(x, y), y) == x
    ensures Xor(x, y) == 0 <==> x == y
  {
    if x > 0 && y > 0 {
      XorSelf(x / 2, y / 2);
      BitStep(x, x); BitStep(x, y); BitStep(x, Xor(x, y)); BitStep(Xor(x, y), y);
    } else if x > 0 {
      XorSelf(x / 2, 0);
      BitStep(x, x);
    } else if y > 0 {
      XorSelf(0, y / 2);
      BitStep(y, y);
    }
  }

  /** The exclusive or acts on the bits below and from k on separately. */
  lemma {:induction false} XorSplit(k: nat, x0: nat, x: nat, y0: nat, y: nat)
    requires x0 < Base(k) && y0 < Base(k)
    ensures Xor(x0 + Prod(x, Base(k)), y0 + Prod(y, Base(k))) == Xor(x0, y0) + Prod(Xor(x, y), Base(k))
  {
    if k > 0 {
      BaseHalf(k);
      hide *;
      var b := Base(k - 1);
      var h, g, r := x0 / 2 + Prod(x, b), y0 / 2 + Prod(y, b), Prod(Xor(x, y), b);
      XorSplit(k - 1, x0 / 2, x, y0 / 2, y);
      TwiceProd(x, b); TwiceProd(y, b); TwiceProd(Xor(x, y), b);
      XorHalves(x0, y0, Prod(x, b), Prod(y, b), r);
    } else {
      assert Base(0) == 1 && Prod(x, 1) == x && Prod(y, 1) == y && Prod(Xor(x, y), 1) == Xor(x, y) && Xor(0, 0) == 0;
      hide *;
    }
  }

  lemma XorHalves(x0: nat, y0: nat, h: nat, g: nat, r: nat)
    requires Xor(x0 / 2 + h, y0 / 2 + g) == Xor(x0 / 2, y0 / 2) + r
    ensures Xor(x0 + 2 * h, y0 + 2 * g) == Xor(x0, y0) + 2 * r
  {
    BitStep(x0, y0);
    BitStep(x0 + 2 * h, y0 + 2 * g);
    hide Xor;
    assert (x0 + 2 * h) / 2 == x0 / 2 + h && (y0 + 2 * g) / 2 == y0 / 2 + g;
  }

  lemma XorBit(x: nat, y: nat)
    requires x <= 1 && y <= 1
    ensures Xor(x, y) == if x == y then 0 else 1
  {
  }

  /** Addition is xor plus twice the common bits: the halving step of the limb inverse. */
  lemma {:induction false} XorPlusAnd(x: nat, y: nat)
    ensures x + y == Xor(x, y) + 2 * And(x, y)
  {
    if x > 0 && y > 0 {
      XorPlusAnd(x / 2, y / 2);
    }
  }

  // ---- the top bit ----

  function Top(w: nat, x: nat): nat
    requires w > 0
  {
    x / Base(w - 1)
  }

  lemma TopRange(w: nat, x: nat)
    requires w > 0 && x < Base(w)
    ensures Top(w, x) == if x < Base(w - 1) then 0 else 1
  {
    var h := Base(w - 1);
    if x < h { DivModUnique(x, h, 0, x); } else { DivModUnique(x, h, 1, x - h); }
  }

  lemma {:induction false} TopBits(w: nat, x: nat, y: nat)
    requires w > 0 && x < Base(w) && y < Base(w)
    ensures Top(w, Xor(x, y)) == Xor(Top(w, x), Top(w, y))
    ensures Top(w, Or(x, y)) == Or(Top(w, x), Top(w, y))
  {
    BitBounds(w, x, y);
    TopRange(w, x); TopRange(w, y); TopRange(w, Xor(x, y)); TopRange(w, Or(x, y));
    if w > 1 {
      TopBits(w - 1, x / 2, y / 2);
      BitBounds(w - 1, x / 2, y / 2);
      TopRange(w - 1, x / 2); TopRange(w - 1, y / 2);
      TopRange(w - 1, Xor(x / 2, y / 2)); TopRange(w - 1, Or(x / 2, y / 2));
      BitStep(x, y);
    } else {
      assert x < 2 && y < 2 && Base(0) == 1;
    }
  }

  // ---- comparison masks, FStar_UInt64_eq_mask and FStar_UInt64_gte_mask ----

  function EqMask(w: nat, a: nat, b: nat): (m: nat)
    requires w > 0 && a < Base(w) && b < Base(w)
    ensures m == if a == b then Base(w) - 1 else 0
  {
    BitBounds(w, a, b);
    XorSelf(a, b);
    var x := Xor(a, b);
    var minusX := (Not(w, x) + 1) % Base(w);
    DivModUnique(Base(w) - x, Base(w), Bit(x == 0), if x == 0 then 0 else Base(w) - x);
    TopBits(w, x, minusX); TopRange(w, x); TopRange(w, minusX);
    var xnx := Top(w, Or(x, minusX));
    WrapPred(w, xnx);
    (xnx - 1) % Base(w)
  }

  /** A one-bit word minus one is a mask. */
  lemma WrapPred(w: nat, bit: nat)
    requires bit <= 1
    ensures (bit - 1) % Base(w) == if bit == 0 then Base(w) - 1 else 0
    ensures (0 - bit) % Base(w) == if bit == 0 then 0 else Base(w) - 1
  {
    var b := Base(w);
    DivModUnique(-1, b, -1, b - 1);
    DivModUnique(0, b, 0, 0);
  }

  function GteMask(w: nat, a: nat, b: nat): (m: nat)
    requires w > 0 && a < Base(w) && b < Base(w)
    ensures m == if a >= b then Base(w) - 1 else 0
  {
    var d := (a - b) % Base(w);
    BitBounds(w, a, b);
    BitBounds(w, d, b);
    var q := Or(Xor(a, b), Xor(d, b));
    BitBounds(w, Xor(a, b), Xor(d, b));
    BitBounds(w, a, q);
    var t := Top(w, Xor(a, q));
    GteTop(w, a, b);
    WrapPred(w, t);
    (t - 1) % Base(w)
  }

  lemma GteTop(w: nat, a: nat, b: nat)
    requires w > 0 && a < Base(w) && b < Base(w)
    ensures var d := (a - b) % Base(w);
            Top(w, Xor(a, Or(Xor(a, b), Xor(d, b)))) == Bit(a < b)
  {
    hide Base, Pow;
    var d := (a - b) % Base(w);
    BaseHalf(w);
    if a >= b { DivModUnique(a - b, Base(w), 0, a - b); }
    else { DivModUnique(a - b, Base(w), -1, a - b + Base(w)); }
    BitBounds(w, a, b);
    BitBounds(w, d, b);
    BitBounds(w, Xor(a, b), Xor(d, b));
    TopBits(w, a, b); TopBits(w, d, b);
    TopBits(w, Xor(a, b), Xor(d, b));
    TopBits(w, a, Or(Xor(a, b), Xor(d, b)));
    TopRange(w, a); TopRange(w, b); TopRange(w, d);
  }

  // ---- selection ----

  /** `0 - bit`: all ones or all zeros. */
  function BitMask(w: nat, bit: nat): (m: nat)
    requires bit <= 1
    ensures m == if bit == 0 then 0 else Base(w) - 1
  {
    WrapPred(w, bit);
    (0 - bit) % Base(w)
  }

  /** `(m & x) | (~m & y)`. */
  function Select(w: nat, m: nat, x: nat, y: nat): nat
    requires m < Base(w)
  {
    Or(And(m, x), And(Not(w, m), y))
  }

  lemma SelectMask(w: nat, m: nat, x: nat, y: nat)
    requires x < Base(w) && y < Base(w) && (m == 0 || m == Base(w) - 1)
    ensures Select(w, m, x, y) == if m == 0 then y else x
  {
    AndOnes(w, x); AndOnes(w, y);
    DivModUnique(x, Base(w), 0, x);
    DivModUnique(y, Base(w), 0, y);
  }

  /** The masked exclusive or swaps two words when the bit is set. */
  lemma SwapWords(w: nat, sw: nat, x: nat, y: nat)
    requires sw <= 1 && x < Base(w) && y < Base(w)
    ensures var dummy := And(BitMask(w, sw), Xor(x, y));
            Xor(x, dummy) == (if sw == 0 then x else y) && Xor(y, dummy) == (if sw == 0 then y else x)
  {
    BitBounds(w, x, y);
    AndOnes(w, Xor(x, y));
    DivModUnique(Xor(x, y), Base(w), 0, Xor(x, y));
    XorSelf(x, y);
    BitSym(x, y);
    XorSelf(y, x);
    hide Base;
  }

  // ---- carries, Hacl_IntTypes_Intrinsics_add_carry_u64 and sub_borrow_u64 ----

  lemma WrapAdd(t: nat, B: nat)
    requires t < 2 * B
    ensures t % B == if t < B then t else t - B
  {
    if t < B { DivModUnique(t, B, 0, t); } else { DivModUnique(t, B, 1, t - B); }
  }

  lemma WrapSub(t: int, B: nat)
    requires 0 <= t + B && t < B
    ensures t % B == if t < 0 then t + B else t
  {
    if t < 0 { DivModUnique(t, B, -1, t + B); } else { DivModUnique(t, B, 0, t); }
  }

  /** Sum word and carry, computed with comparison masks as the 64-bit intrinsic does. */
  function AddCarry(w: nat, cin: nat, x: nat, y: nat): (r: (nat, nat))
    requires w > 0 && cin <= 1 && x < Base(w) && y < Base(w)
    ensures r.0 <= 1 && r.1 < Base(w)
    ensures r.1 + r.0 * Base(w) == x + y + cin
  {
    var res := (x + cin + y) % Base(w);
    WrapAdd(x + cin + y, Base(w));
    AndOnes(w, cin); DivModUnique(cin, Base(w), 0, cin);
    var lt := Not(w, GteMask(w, res, x));
    var c := And(Or(lt, And(EqMask(w, res, x), cin)), 1);
    CarryBit(w, lt, EqMask(w, res, x), cin);
    (c, res)
  }

  function SubBorrow(w: nat, cin: nat, x: nat, y: nat): (r: (nat, nat))
    requires w > 0 && cin <= 1 && x < Base(w) && y < Base(w)
    ensures r.0 <= 1 && r.1 < Base(w)
    ensures r.1 - r.0 * Base(w) == x - y - cin
  {
    var res := (x - y - cin) % Base(w);
    WrapSub(x - y - cin, Base(w));
    var eq := EqMask(w, res, x);
    var gt := And(GteMask(w, res, x), Not(w, eq));
    AndOnes(w, GteMask(w, res, x)); DivModUnique(GteMask(w, res, x), Base(w), 0, GteMask(w, res, x));
    var c := And(Or(gt, And(eq, cin)), 1);
    CarryBit(w, gt, eq, cin);
    (c, res)
  }

  lemma CarryBit(w: nat, m: nat, eq: nat, cin: nat)
    requires w > 0 && cin <= 1
    requires m == 0 || m == Base(w) - 1
    requires eq == 0 || eq == Base(w) - 1
    ensures And(Or(m, And(eq, cin)), 1) == if m != 0 || (eq != 0 && cin == 1) then 1 else 0
  {
    BaseHalf(w);
    AndOnes(w, cin);
    DivModUnique(cin, Base(w), 0, cin);
    AndOnes(1, Or(m, And(eq, cin)));
    BitStep(m, And(eq, cin));
  }

  /** The low and high word of `a * b + c + d`, Hacl_Bignum_Base_mul_wide_add2_u64. */
  function MulWideAdd2(w: nat, a: nat, b: nat, cin: nat, out0: nat): (r: (nat, nat))
    requires a < Base(w) && b < Base(w) && cin < Base(w) && out0 < Base(w)
    ensures r.0 < Base(w) && r.1 < Base(w)
    ensures r.1 + r.0 * Base(w) == a * b + cin + out0
  {
    var t := a * b + cin + out0;
    ProductFits(Base(w), a, b, cin + out0);
    (t / Base(w), t % Base(w))
  }

  /** A product of two words plus two more words fits in two words. */
  lemma ProductFits(B: nat, a: nat, b: nat, c: nat)
    requires a < B && b < B && c <= 2 * (B - 1)
    ensures 0 <= (a * b + c) / B < B
  {
    var m := B - 1;
    assert a * b <= m * m by { MulLe(a, m, b); MulLe(b, m, m); }
    assert B * B == m * m + 2 * m + 1 by { MulDistrib(B, m, 1); MulDistrib(m, m, 1); }
    assert 0 <= a * b by { MulLe(0, a, b); }
    DivBound(a * b + c, B, B);
  }
}
