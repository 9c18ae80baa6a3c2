/** Modular exponentiation by four routes, Hacl_Bignum_Exponentiation. */
module Exponentiation {
  import opened Arith
  import opened Words
  import opened Limbs
  import opened Karatsuba
  import opened Montgomery

  // ---- reading bits of the exponent ----

  lemma DivDiv(x: nat, p: nat, q: nat)
    requires p > 0 && q > 0
    ensures p * q > 0 && x / (p * q) == x / p / q
  {
    var y, r := x / p, x % p;
    var t, u := y / q, y % q;
    assert x == t * (p * q) + (u * p + r) by {
      assert x == y * p + r && y == t * q + u;
      MulDistrib(p, t * q, u); MulAssoc(t, q, p);
    }
    assert 0 <= u * p + r < p * q by { MulLe(u, q - 1, p); MulDistrib(p, q, 1); MulLe(0, u, p); }
    DivModUnique(x, p * q, t, u * p + r);
  }

  lemma BaseShifted(w: nat, k: nat, j: nat)
    ensures Base(w * k + j) == Pow(Base(w), k) * Base(j) && Pow(Base(w), k) > 0
  {
    PowMul(2, w, k);
    PowAdd(2, w * k, j);
    PowPositive(2, w * k);
    hide Pow;
  }

  /** Dropping k limbs and j bits. */
  lemma ShiftedValue(w: nat, s: seq<nat>, k: nat, j: nat)
    requires IsLimbs(Base(w), s) && k <= |s|
    ensures Eval(Base(w), s) / Base(w * k + j) == Eval(Base(w), s[k..]) / Base(j)
  {
    hide Eval, Pow, Base;
    var B := Base(w);
    var lo, hi, p := Eval(B, s[..k]), Eval(B, s[k..]), Pow(B, k);
    EvalSplit(B, s, k);
    EvalBound(B, s[..k]);
    hide IsLimbs;
    BaseShifted(w, k, j);
    DivDiv(lo + p * hi, p, Base(j));
    DivModUnique(lo + p * hi, p, hi, lo);
  }

  /** A limb and the limbs above it, shifted right by j bits. */
  lemma ShiftedLimb(bj: nat, bc: nat, x: nat, e: nat)
    requires bj > 0
    ensures (x + bj * bc * e) / bj == x / bj + bc * e
  {
    var q, r := x / bj, x % bj;
    assert x + bj * bc * e == (q + bc * e) * bj + r by { MulDistrib(bj, q, bc * e); MulAssoc(bj, bc, e); }
    DivModUnique(x + bj * bc * e, bj, q + bc * e, r);
  }

  /** The word that the window code assembles from two adjacent limbs. */
  function TwoLimbs(w: nat, lo: nat, hi: nat, j: nat): nat
    requires j <= w
  {
    Or(lo / Base(j), hi * Base(w - j) % Base(w))
  }

  lemma TwoLimbsValue(w: nat, lo: nat, hi: nat, j: nat)
    requires j <= w && lo < Base(w)
    ensures TwoLimbs(w, lo, hi, j) == lo / Base(j) + Base(w - j) * (hi % Base(j))
  {
    hide Base, Or;
    var bj, bc := Base(j), Base(w - j);
    BaseSplit(w, j);
    DivBound(lo, bj, bc);
    ScaledMod(hi, bj, bc);
    OrDisjoint(w - j, lo / bj, hi % bj);
  }

  lemma ScaledMod(x: nat, p: nat, q: nat)
    requires p > 0 && q > 0
    ensures p * q > 0 && x * q % (p * q) == x % p * q
  {
    assert x * q == x / p * (p * q) + x % p * q by {
      assert x == x / p * p + x % p;
      MulDistrib(q, x / p * p, x % p); MulAssoc(x / p, p, q);
    }
    MulLt(x % p, p, q);
    DivModUnique(x * q, p * q, x / p, x % p * q);
  }

  /** Two values that agree up to multiples of the base agree in their low l <= w bits. */
  lemma LowBits(w: nat, l: nat, x: nat, y: nat, k: int)
    requires l <= w && x == y + k * Base(w)
    ensures x % Base(l) == y % Base(l)
  {
    BaseSplit(w, l);
    assert k * (Base(l) * Base(w - l)) == (k * Base(w - l)) * Base(l) by { MulAssoc(k, Base(w - l), Base(l)); }
    CongIntro(x, y, k * Base(w - l), Base(l));
  }

  lemma WindowArith(bj: nat, bc: nat, h: nat, e: nat)
    requires bj > 0
    ensures bc * (h + bj * bc * e) == bc * (h % bj) + (h / bj + bc * e) * (bj * bc)
  {
  }

  lemma CrossingWindow(w: nat, lo: nat, h: nat, e: nat, j: nat, l: nat)
    requires j <= w && l <= w && lo < Base(w)
    ensures TwoLimbs(w, lo, h, j) % Base(l) == (lo + Base(w) * (h + Base(w) * e)) / Base(j) % Base(l)
  {
    hide Base, Pow, TwoLimbs;
    var bj, bc := Base(j), Base(w - j);
    BaseSplit(w, j);
    TwoLimbsValue(w, lo, h, j);
    ShiftedLimb(bj, bc, lo, h + bj * bc * e);
    WindowArith(bj, bc, h, e);
    LowBits(w, l, lo / bj + bc * (h + bj * bc * e), lo / bj + bc * (h % bj), h / bj + bc * e);
  }

  lemma AlignedWindow(w: nat, lo: nat, e: nat, j: nat, l: nat)
    requires j <= w && l <= w && (j == 0 || e == 0)
    ensures lo / Base(j) % Base(l) == (lo + Base(w) * e) / Base(j) % Base(l)
  {
    if j == 0 {
      assert Base(j) == 1;
      LowBits(w, l, lo + Base(w) * e, lo, e);
    }
  }

  /** The l bits of the value from bit w * k + j on, as the code reads them from limbs k and k + 1. */
  lemma WindowBits(w: nat, s: seq<nat>, k: nat, j: nat, l: nat)
    requires IsLimbs(Base(w), s) && k < |s| && j < w && l <= w
    ensures (if k + 1 < |s| && 0 < j then TwoLimbs(w, s[k], s[k + 1], j) else s[k] / Base(j)) % Base(l)
         == Eval(Base(w), s) / Base(w * k + j) % Base(l)
  {
    hide Base, Pow, TwoLimbs;
    var e := Eval(Base(w), s[k + 1..]);
    PeelLimb(Base(w), s, k);
    if k + 1 < |s| {
      PeelLimb(Base(w), s, k + 1);
    } else {
      assert e == 0;
    }
    hide Eval;
    ShiftedValue(w, s, k, j);
    if k + 1 < |s| && 0 < j {
      CrossingWindow(w, s[k], s[k + 1], Eval(Base(w), s[k + 2..]), j, l);
    } else {
      AlignedWindow(w, s[k], e, j, l);
    }
  }

  lemma PeelLimb(B: nat, s: seq<nat>, k: nat)
    requires k < |s|
    ensures Eval(B, s[k..]) == s[k] + B * Eval(B, s[k + 1..])
  {
  }

  lemma ShiftedShr(w: nat, s: seq<nat>, k: nat, j: nat)
    requires IsLimbs(Base(w), s) && k <= |s|
    ensures Shr(Eval(Base(w), s), w * k + j) == Shr(Eval(Base(w), s[k..]), j)
  {
    hide Eval, Pow, Base;
    ShiftedValue(w, s, k, j);
  }

  lemma OneBit(w: nat, s: seq<nat>, k: nat, j: nat)
    requires IsLimbs(Base(w), s) && k < |s| && j < w
    ensures And(Shr(s[k], j), 1) == Shr(s[k], j) % 2 == Shr(Eval(Base(w), s), w * k + j) % 2
  {
    assert Base(1) == 2;
    PeelLimb(Base(w), s, k);
    ShiftedShr(w, s, k, j);
    hide *;
    AndOnes(1, Shr(s[k], j));
    BitOfLimb(w, s[k], Eval(Base(w), s[k + 1..]), j);
  }

  lemma BitOfLimb(w: nat, x: nat, e: nat, j: nat)
    requires j < w
    ensures Shr(x, j) % 2 == Shr(x + Base(w) * e, j) % 2
  {
    BaseSplit(w, j);
    BaseHalf(w - j);
    hide Base, Pow;
    ShiftedLimb(Base(j), Base(w - j), x, e);
    EvenMultiple(x / Base(j), Base(w - j - 1), e);
  }

  lemma EvenMultiple(y: nat, c: nat, e: nat)
    ensures (y + 2 * c * e) % 2 == y % 2
  {
    MulAssoc(2, c, e);
  }

  /** The number of limbs of an exponent of bBits bits. */
  function ExponentLimbs(w: nat, bBits: nat): nat
    requires w > 0
  {
    if bBits == 0 then 1 else (bBits - 1) / w + 1
  }

  lemma BitIndex(w: nat, bBits: nat, e: nat)
    requires w > 0 && e < bBits
    ensures e / w < ExponentLimbs(w, bBits) && e == w * (e / w) + e % w
  {
    var k := (bBits - 1) / w;
    assert bBits - 1 < w * (k + 1);
    DivBound(e, w, k + 1);
  }

  /** Bit e of the exponent. */
  method GetBit(w: nat, bBits: nat, b: array<nat>, e: nat) returns (bit: nat)
    requires w > 0 && e < bBits && ExponentLimbs(w, bBits) <= b.Length
        && IsLimbs(Base(w), Slice(b, 0, ExponentLimbs(w, bBits)))
    ensures bit == Shr(Val(Base(w), b, 0, ExponentLimbs(w, bBits)), e) % 2
  {
    BitIndex(w, bBits, e);
    var i1, j := e / w, e % w;
    OneBit(w, Slice(b, 0, ExponentLimbs(w, bBits)), i1, j);
    var tmp := b[i1];
    bit := And(Shr(tmp, j), 1);
  }

  /** The four bits of the exponent from bit e on, which may straddle two limbs or reach beyond the top. */
  method GetFourBits(w: nat, bBits: nat, b: array<nat>, e: nat) returns (bits: nat)
    requires w >= 4 && e < bBits && ExponentLimbs(w, bBits) <= b.Length
        && IsLimbs(Base(w), Slice(b, 0, ExponentLimbs(w, bBits)))
    ensures bits == Shr(Val(Base(w), b, 0, ExponentLimbs(w, bBits)), e) % 16
  {
    BitIndex(w, bBits, e);
    assert Base(4) == 16 by { assert Base(4) == 2 * Pow(2, 3) && Pow(2, 3) == 2 * Pow(2, 2)
                             && Pow(2, 2) == 2 * Pow(2, 1); }
    var maskL := 16 - 1;
    var bLen := ExponentLimbs(w, bBits);
    var i, j := e / w, e % w;
    WindowBits(w, Slice(b, 0, bLen), i, j, 4);
    var p1 := b[i] / Base(j);
    var ite;
    if i + 1 < bLen && 0 < j {
      ite := Or(p1, b[i + 1] * Base(w - j) % Base(w));
    } else {
      ite := p1;
    }
    AndOnes(4, ite);
    bits := And(ite, maskL);
  }

  // ---- the exponent step by step ----

  /** The low i + 1 bits from the low i. */
  lemma NextLowBit(x: nat, i: nat)
    ensures x % Base(i + 1) == x % Base(i) + Base(i) * (Shr(x, i) % 2)
  {
    BaseHalf(i + 1);
    var p := Base(i);
    var q, r := x / p, x % p;
    assert x == q * p + r;
    hide Base, Pow;
    SplitLowBit(x, p, q, r);
  }

  lemma SplitLowBit(x: nat, p: nat, q: nat, r: nat)
    requires x == q * p + r && r < p
    ensures x % (2 * p) == r + p * (q % 2)
  {
    var h, d := q / 2, q % 2;
    assert x == h * (2 * p) + (r + p * d) by { MulDistrib(p, 2 * h, d); MulAssoc(h, 2, p); }
    MulLe(d, 1, p);
    DivModUnique(x, 2 * p, h, r + p * d);
  }

  /** The bits from e on, from those from e + l on. */
  lemma NextHighBits(x: nat, e: nat, l: nat)
    ensures Shr(x, e) == Base(l) * Shr(x, e + l) + Shr(x, e) % Base(l)
  {
    PowAdd(2, e, l);
    DivDiv(x, Base(e), Base(l));
  }

  lemma DivAll(x: nat, e: nat)
    requires x < Base(e)
    ensures Shr(x, e) == 0 && x % Base(e) == x
  {
  }

  /** The operands of an exponentiation: odd modulus, inverse limb, r2, base and an exponent of bBits bits. */
  ghost predicate ExpArgs(w: nat, len: nat, n: array<nat>, mu: nat, r2: array<nat>, a: array<nat>, bBits: nat,
                          b: array<nat>)
    reads n, r2, a, b
  {
    && w >= 4 && Modulus(w, len, n, mu)
    && len <= r2.Length && IsLimbs(Base(w), Slice(r2, 0, len))
    && Val(Base(w), r2, 0, len) == Pow(2, 2 * w * len) % Val(Base(w), n, 0, len)
    && len <= a.Length && IsLimbs(Base(w), Slice(a, 0, len))
    && ExponentLimbs(w, bBits) <= b.Length && IsLimbs(Base(w), Slice(b, 0, ExponentLimbs(w, bBits)))
    && Val(Base(w), b, 0, ExponentLimbs(w, bBits)) < Base(bBits)
  }

  /** The n limbs of x stand for a^e. */
  ghost predicate Holds(w: nat, len: nat, n: array<nat>, x: array<nat>, xo: nat, av: nat, e: nat)
    reads n, x
  {
    0 < len <= n.Length && xo + len <= x.Length
        && InMont(w, len, Val(Base(w), n, 0, len), Slice(x, xo, len), Pow(av, e))
  }

  /** a and 1 in Montgomery form. */
  method ExpStart(w: nat, len: nat, n: array<nat>, mu: nat, r2: array<nat>, a: array<nat>, bBits: nat, b: array<nat>)
      returns (aM: array<nat>, resM: array<nat>)
    requires ExpArgs(w, len, n, mu, r2, a, bBits, b)
    ensures fresh(aM) && fresh(resM) && aM != resM && aM.Length == len && resM.Length == len
    ensures Holds(w, len, n, aM, 0, Val(Base(w), a, 0, len), 1) && Holds(w, len, n, resM, 0, Val(Base(w), a, 0, len), 0)
  {
    ghost var nv, av := Val(Base(w), n, 0, len), Val(Base(w), a, 0, len);
    ModulusOdd(w, len, n, mu);
    assert Pow(av, 1) == av && Pow(av, 0) == 1;
    ModBelow(Pow(2, 2 * w * len), nv);
    hide Eval, Pow, IsLimbs, Base, Prod;
    aM := new nat[len](_ => 0);
    BnMontMul(w, len, n, mu, a, 0, r2, 0, aM, 0);
    ToInMont(w, len, nv, av, Val(Base(w), r2, 0, len), Slice(aM, 0, len));
    resM := new nat[len](_ => 0);
    BnFromMont(w, len, n, mu, r2, resM);
    OneInMont(w, len, nv, Val(Base(w), r2, 0, len), Slice(resM, 0, len));
  }

  lemma ModBelow(x: nat, n: nat)
    requires n > 0
    ensures 0 <= x % n < n
  {
  }

  method ExpMul(w: nat, len: nat, n: array<nat>, mu: nat, aM: array<nat>, ao: nat, ghost e: nat, bM: array<nat>,
                bo: nat, ghost f: nat, resM: array<nat>, ro: nat, ghost av: nat)
    requires w >= 4 && Modulus(w, len, n, mu) && Holds(w, len, n, aM, ao, av, e) && Holds(w, len, n, bM, bo, av, f)
    requires ro + len <= resM.Length && n != resM
    modifies resM
    ensures Holds(w, len, n, resM, ro, av, e + f)
    ensures forall x: array<nat>, i: nat, k: nat {:trigger Slice(x, i, k)} ::
              old(allocated(x)) && Away(x, i, k, resM, ro, len) ==> Slice(x, i, k) == old(Slice(x, i, k))
  {
    ghost var nv := Val(Base(w), n, 0, len);
    ghost var s, t := Slice(aM, ao, len), Slice(bM, bo, len);
    ModulusOdd(w, len, n, mu);
    PowAdd(av, e, f);
    hide Eval, Pow, IsLimbs, Base, Prod;
    BnAlmostMontMul(w, len, n, mu, aM, ao, bM, bo, resM, ro);
    MulInMont(w, len, nv, s, Pow(av, e), t, Pow(av, f), Slice(resM, ro, len));
  }

  method ExpSqr(w: nat, len: nat, n: array<nat>, mu: nat, aM: array<nat>, ghost e: nat, resM: array<nat>, ghost av: nat)
    requires w >= 4 && Modulus(w, len, n, mu) && Holds(w, len, n, aM, 0, av, e)
    requires len <= resM.Length && n != resM
    modifies resM
    ensures Holds(w, len, n, resM, 0, av, 2 * e)
  {
    ghost var nv := Val(Base(w), n, 0, len);
    ghost var s := Slice(aM, 0, len);
    ModulusOdd(w, len, n, mu);
    PowAdd(av, e, e);
    hide Eval, Pow, IsLimbs, Base, Prod;
    BnAlmostMontSqr(w, len, n, mu, aM, 0, resM, 0);
    MulInMont(w, len, nv, s, Pow(av, e), s, Pow(av, e), Slice(resM, 0, len));
  }

  method ExpFinish(w: nat, len: nat, n: array<nat>, mu: nat, resM: array<nat>, res: array<nat>, ghost av: nat,
                   ghost e: nat)
    requires Modulus(w, len, n, mu) && Holds(w, len, n, resM, 0, av, e) && len <= res.Length && n != res
    modifies res
    ensures IsLimbs(Base(w), Slice(res, 0, len)) && Val(Base(w), res, 0, len) == Pow(av, e) % Val(Base(w), n, 0, len)
  {
    ghost var nv, s := Val(Base(w), n, 0, len), Slice(resM, 0, len);
    ModulusOdd(w, len, n, mu);
    hide Eval, Pow, IsLimbs, Base, Prod;
    BnFromMont(w, len, n, mu, resM, res);
    FromInMont(w, len, nv, s, Pow(av, e), Val(Base(w), res, 0, len));
  }

  // ---- the four routes ----

  /** One bit of the right-to-left loop. */
  method BinaryStep(w: nat, len: nat, n: array<nat>, mu: nat, aM: array<nat>, resM: array<nat>, bit: nat, ghost av: nat,
                    ghost bv: nat, ghost i: nat)
    requires w >= 4 && Modulus(w, len, n, mu) && n != aM && n != resM && aM != resM && bit == Shr(bv, i) % 2
    requires Holds(w, len, n, resM, 0, av, bv % Base(i)) && Holds(w, len, n, aM, 0, av, Base(i))
    modifies aM, resM
    ensures Holds(w, len, n, resM, 0, av, bv % Base(i + 1)) && Holds(w, len, n, aM, 0, av, Base(i + 1))
  {
    NextLowBit(bv, i);
    BaseHalf(i + 1);
    assert len <= aM.Length && len <= resM.Length;
    hide *;
    if !(bit == 0) {
      ExpMul(w, len, n, mu, resM, 0, bv % Base(i), aM, 0, Base(i), resM, 0, av);
    }
    ExpSqr(w, len, n, mu, aM, Base(i), aM, av);
  }

  /** Right to left: after i bits resM holds a^(b mod 2^i) and aM holds a^(2^i). */
  method BinaryVartime(w: nat, len: nat, n: array<nat>, mu: nat, r2: array<nat>, a: array<nat>, bBits: nat,
                       b: array<nat>, res: array<nat>)
    requires ExpArgs(w, len, n, mu, r2, a, bBits, b) && len <= res.Length && n != res
    modifies res
    ensures IsLimbs(Base(w), Slice(res, 0, len))
    ensures Val(Base(w), res, 0, len)
        == Pow(old(Val(Base(w), a, 0, len)), old(Val(Base(w), b, 0, ExponentLimbs(w, bBits)))) % Val(Base(w), n, 0, len)
  {
    ghost var av, bv := Val(Base(w), a, 0, len), Val(Base(w), b, 0, ExponentLimbs(w, bBits));
    var aM, resM := ExpStart(w, len, n, mu, r2, a, bBits, b);
    assert bv % Base(0) == 0 && Base(0) == 1;
    var i := 0;
    hide Eval, Pow, IsLimbs, Base, Holds, Modulus;
    while i < bBits
      invariant 0 <= i <= bBits
      invariant Holds(w, len, n, resM, 0, av, bv % Base(i)) && Holds(w, len, n, aM, 0, av, Base(i))
      modifies aM, resM
    {
      var bit := GetBit(w, bBits, b, i);
      BinaryStep(w, len, n, mu, aM, resM, bit, av, bv, i);
      i := i + 1;
    }
    DivAll(bv, bBits);
    ExpFinish(w, len, n, mu, resM, res, av, bv);
  }

  /** Swaps two bignums when sw is 1, by masked exclusive or. */
  method CSwap(w: nat, len: nat, sw: nat, x: array<nat>, y: array<nat>)
    requires sw <= 1 && x != y && len == x.Length == y.Length
    requires IsLimbs(Base(w), Slice(x, 0, len)) && IsLimbs(Base(w), Slice(y, 0, len))
    modifies x, y
    ensures Slice(x, 0, len) == if sw == 0 then old(Slice(x, 0, len)) else old(Slice(y, 0, len))
    ensures Slice(y, 0, len) == if sw == 0 then old(Slice(y, 0, len)) else old(Slice(x, 0, len))
  {
    ghost var xs, ys := Slice(x, 0, len), Slice(y, 0, len);
    var i := 0;
    while i < len
      invariant 0 <= i <= len
      invariant forall k :: i <= k < len ==> x[k] == xs[k] && y[k] == ys[k]
      invariant forall k :: 0 <= k < i ==>
                  x[k] == (if sw == 0 then xs[k] else ys[k]) && y[k] == if sw == 0 then ys[k] else xs[k]
    {
      SwapWords(w, sw, xs[i], ys[i]);
      var dummy := And(BitMask(w, sw), Xor(x[i], y[i]));
      x[i] := Xor(x[i], dummy);
      y[i] := Xor(y[i], dummy);
      i := i + 1;
    }
  }

  /** resM and aM hold a^e and a^(e + 1), the other way round when sw is set. */
  ghost predicate Ladder(w: nat, len: nat, n: array<nat>, aM: array<nat>, resM: array<nat>, av: nat, e: nat, sw: nat)
    reads n, aM, resM
  {
    && sw <= 1 && aM.Length == len == resM.Length
    && Holds(w, len, n, resM, 0, av, e + sw) && Holds(w, len, n, aM, 0, av, e + (1 - sw))
  }

  lemma HoldsLimbs(w: nat, len: nat, n: array<nat>, x: array<nat>, xo: nat, av: nat, e: nat)
    requires Holds(w, len, n, x, xo, av, e)
    ensures 0 < len <= n.Length && xo + len <= x.Length && IsLimbs(Base(w), Slice(x, xo, len))
  {
  }

  lemma HoldsCopy(w: nat, len: nat, n: array<nat>, x: array<nat>, xo: nat, s: seq<nat>, av: nat, e: nat)
    requires 0 < len <= n.Length && xo + len <= x.Length && Slice(x, xo, len) == s
    requires InMont(w, len, Val(Base(w), n, 0, len), s, Pow(av, e))
    ensures Holds(w, len, n, x, xo, av, e)
  {
  }

  /** Swapping turns a ladder into the ladder with the other orientation. */
  method SwapLadder(w: nat, len: nat, n: array<nat>, aM: array<nat>, resM: array<nat>, ghost av: nat, ghost e: nat,
                    ghost sw: nat, sw1: nat)
    requires w >= 4 && n != aM && n != resM && aM != resM && sw1 <= 1 && Ladder(w, len, n, aM, resM, av, e, sw)
    modifies aM, resM
    ensures Ladder(w, len, n, aM, resM, av, e, if sw1 == 0 then sw else 1 - sw)
  {
    HoldsLimbs(w, len, n, resM, 0, av, e + sw);
    HoldsLimbs(w, len, n, aM, 0, av, e + (1 - sw));
    hide Pow, Base, InMont, IsLimbs;
    CSwap(w, len, sw1, resM, aM);
  }

  /** The swap ladder processes one bit: e becomes 2 * e + bit, and bit is the new orientation. */
  method LadderStep(w: nat, len: nat, n: array<nat>, mu: nat, aM: array<nat>, resM: array<nat>, bit: nat, sw: nat,
                    ghost av: nat, ghost e: nat)
    requires w >= 4 && Modulus(w, len, n, mu) && n != aM && n != resM && aM != resM && bit <= 1
    requires Ladder(w, len, n, aM, resM, av, e, sw)
    modifies aM, resM
    ensures Ladder(w, len, n, aM, resM, av, 2 * e + bit, bit)
  {
    var sw1 := Xor(bit, sw);
    XorBit(bit, sw);
    SwapLadder(w, len, n, aM, resM, av, e, sw, sw1);
    hide Pow, Base, Holds, Modulus, Eval, IsLimbs, Xor;
    ExpMul(w, len, n, mu, aM, 0, e + (1 - bit), resM, 0, e + bit, aM, 0, av);
    ExpSqr(w, len, n, mu, resM, e + bit, resM, av);
  }

  method LadderConsttime(w: nat, len: nat, n: array<nat>, mu: nat, r2: array<nat>, a: array<nat>, bBits: nat,
                         b: array<nat>, res: array<nat>)
    requires ExpArgs(w, len, n, mu, r2, a, bBits, b) && len <= res.Length && n != res
    modifies res
    ensures IsLimbs(Base(w), Slice(res, 0, len))
    ensures Val(Base(w), res, 0, len)
        == Pow(old(Val(Base(w), a, 0, len)), old(Val(Base(w), b, 0, ExponentLimbs(w, bBits)))) % Val(Base(w), n, 0, len)
  {
    ghost var av, bv := Val(Base(w), a, 0, len), Val(Base(w), b, 0, ExponentLimbs(w, bBits));
    var aM, resM := ExpStart(w, len, n, mu, r2, a, bBits, b);
    DivAll(bv, bBits);
    assert Ladder(w, len, n, aM, resM, av, 0, 0);
    hide Eval, Pow, IsLimbs, Base, Ladder, Modulus, Slice, Shr;
    var sw := LadderLoop(w, len, n, mu, bBits, b, aM, resM, av, bv);
    SwapLadder(w, len, n, aM, resM, av, bv, sw, sw);
    LadderDone(w, len, n, aM, resM, av, bv);
    ExpFinish(w, len, n, mu, resM, res, av, bv);
  }

  /** The bits of the exponent from the top down. */
  method LadderLoop(w: nat, len: nat, n: array<nat>, mu: nat, bBits: nat, b: array<nat>, aM: array<nat>,
                    resM: array<nat>, ghost av: nat, ghost bv: nat) returns (sw: nat)
    requires w >= 4 && Modulus(w, len, n, mu) && aM !in {n, b, resM} && resM !in {n, b}
    requires ExponentLimbs(w, bBits) <= b.Length && IsLimbs(Base(w), Slice(b, 0, ExponentLimbs(w, bBits)))
    requires bv == Val(Base(w), b, 0, ExponentLimbs(w, bBits)) && Ladder(w, len, n, aM, resM, av, Shr(bv, bBits), 0)
    modifies aM, resM
    ensures sw <= 1 && Ladder(w, len, n, aM, resM, av, bv, sw)
  {
    sw := 0;
    var i0 := 0;
    ShrZero(bv);
    hide Eval, Pow, IsLimbs, Base, Ladder, Modulus, Slice, Shr;
    while i0 < bBits
      invariant 0 <= i0 <= bBits && sw <= 1
      invariant Ladder(w, len, n, aM, resM, av, Shr(bv, bBits - i0), sw)
    {
      var bit := GetBit(w, bBits, b, bBits - i0 - 1);
      NextHighBit(bv, bBits - i0 - 1);
      LadderStep(w, len, n, mu, aM, resM, bit, sw, av, Shr(bv, bBits - i0));
      sw := bit;
      i0 := i0 + 1;
    }
  }

  lemma NextHighBit(x: nat, e: nat)
    ensures Shr(x, e) == 2 * Shr(x, e + 1) + Shr(x, e) % 2
  {
    NextHighBits(x, e, 1);
    assert Base(1) == 2;
  }

  lemma LadderDone(w: nat, len: nat, n: array<nat>, aM: array<nat>, resM: array<nat>, av: nat, e: nat)
    requires Ladder(w, len, n, aM, resM, av, e, 0)
    ensures Holds(w, len, n, resM, 0, av, e)
  {
  }

  lemma ShrZero(x: nat)
    ensures Shr(x, 0) == x
  {
  }

  /** Where entry k of a table of bignums starts. */
  function Slot(k: nat, len: nat): nat {
    k * len
  }

  lemma SlotsApart(k: nat, m: nat, len: nat)
    requires k < m
    ensures Slot(k, len) + len <= Slot(m, len)
  {
    MulLe(k + 1, m, len);
    MulDistrib(len, k, 1);
  }

  /** The first m entries of the table hold a^0, a^1, ..., a^(m - 1). */
  ghost predicate Table(w: nat, len: nat, n: array<nat>, table: array<nat>, av: nat, m: nat)
    reads n, table
  {
    table.Length == 16 * len && forall k :: 0 <= k < m ==> Holds(w, len, n, table, Slot(k, len), av, k)
  }

  /** Writing entry m completes it and keeps the entries below. */
  method TableEntry(w: nat, len: nat, n: array<nat>, mu: nat, aM: array<nat>, table: array<nat>, ghost av: nat, m: nat)
    requires w >= 4 && Modulus(w, len, n, mu) && Holds(w, len, n, aM, 0, av, 1) && n != table && aM != table
    requires 1 <= m < 16 && Table(w, len, n, table, av, m)
    modifies table
    ensures Table(w, len, n, table, av, m + 1)
  {
    SlotsApart(m, 16, len);
    assert Slot(16, len) == 16 * len;
    label L:
    hide Slot, Base, Pow, InMont, Modulus;
    ExpMul(w, len, n, mu, table, Slot(m - 1, len), m - 1, aM, 0, 1, table, Slot(m, len), av);
    forall k | 0 <= k < m ensures Holds(w, len, n, table, Slot(k, len), av, k) {
      SlotsApart(k, m, len);
      assert old@L(Holds(w, len, n, table, Slot(k, len), av, k));
      assert Slice(table, Slot(k, len), len) == old@L(Slice(table, Slot(k, len), len));
    }
  }

  method BuildTable(w: nat, len: nat, n: array<nat>, mu: nat, aM: array<nat>, resM: array<nat>, ghost av: nat)
      returns (table: array<nat>)
    requires w >= 4 && Modulus(w, len, n, mu) && Holds(w, len, n, aM, 0, av, 1) && Holds(w, len, n, resM, 0, av, 0)
    ensures fresh(table) && Table(w, len, n, table, av, 16)
  {
    table := new nat[16 * len](_ => 0);
    assert Slot(0, len) == 0 && Slot(1, len) == len;
    hide Slot, Base, Pow, Modulus, InMont;
    Memcpy(len, resM, 0, table, Slot(0, len));
    Memcpy(len, aM, 0, table, Slot(1, len));
    var i := 0;
    while i < 14
      invariant 0 <= i <= 14 && Table(w, len, n, table, av, i + 2)
      modifies table
    {
      TableEntry(w, len, n, mu, aM, table, av, i + 2);
      i := i + 1;
    }
  }

  /** Entry `bits` of the table: read by index, or selected by a masked scan over all sixteen entries. */
  method Lookup(consttime: bool, w: nat, len: nat, n: array<nat>, table: array<nat>, bits: nat, dst: array<nat>,
                ghost av: nat)
    requires w >= 4 && Table(w, len, n, table, av, 16) && bits < 16 && dst.Length == len && dst !in {n, table}
    modifies dst
    ensures Holds(w, len, n, dst, 0, av, bits)
  {
    ghost var entry := Slice(table, Slot(bits, len), len) ;
    assert InMont(w, len, Val(Base(w), n, 0, len), entry, Pow(av, bits)) by {
      assert Holds(w, len, n, table, Slot(bits, len), av, bits);
    }
    if !consttime {
      Memcpy(len, table, Slot(bits, len), dst, 0);
    } else {
      ScanTable(w, len, n, table, bits, dst, av);
    }
    HoldsCopy(w, len, n, dst, 0, entry, av, bits);
  }

  method ScanTable(w: nat, len: nat, n: array<nat>, table: array<nat>, bits: nat, dst: array<nat>, ghost av: nat)
    requires w >= 4 && Table(w, len, n, table, av, 16) && bits < 16 && dst.Length == len && dst !in {n, table}
    modifies dst
    ensures Slot(bits, len) + len <= table.Length && Slice(dst, 0, len) == Slice(table, Slot(bits, len), len)
  {
    PowMonotonic(2, 4, w);
    FourBits();
    assert Holds(w, len, n, table, Slot(0, len), av, 0) && Holds(w, len, n, table, Slot(bits, len), av, bits);
    assert Slot(0, len) == 0;
    hide Slot, Pow, InMont;
    Memcpy(len, table, Slot(0, len), dst, 0);
    var i1 := 0;
    while i1 < 15
      invariant 0 <= i1 <= 15
      invariant Slice(dst, 0, len)
             == if bits <= i1 then Slice(table, Slot(bits, len), len) else Slice(table, Slot(0, len), len)
    {
      assert Holds(w, len, n, table, Slot(i1 + 1, len), av, i1 + 1);
      HoldsLimbs(w, len, n, table, Slot(i1 + 1, len), av, i1 + 1);
      HoldsLimbs(w, len, n, table, Slot(bits, len), av, bits);
      HoldsLimbs(w, len, n, table, Slot(0, len), av, 0);
      var c := EqMask(w, bits, i1 + 1);
      BnSelect(w, c, len, table, Slot(i1 + 1, len), dst, 0, dst, 0);
      i1 := i1 + 1;
    }
  }

  lemma FourBits()
    ensures Pow(2, 4) == 16
  {
  }

  /** Four squarings and one multiplication by a table entry. */
  method WindowStep(consttime: bool, w: nat, len: nat, n: array<nat>, mu: nat, table: array<nat>, bits: nat,
                    resM: array<nat>, ghost av: nat, ghost e: nat)
    requires w >= 4 && Modulus(w, len, n, mu) && Table(w, len, n, table, av, 16) && bits < 16
    requires resM.Length == len && resM !in {n, table} && Holds(w, len, n, resM, 0, av, e)
    modifies resM
    ensures Holds(w, len, n, resM, 0, av, 16 * e + bits)
  {
    hide Pow, Base, Holds, Modulus, InMont, Table;
    ExpSqr(w, len, n, mu, resM, e, resM, av);
    ExpSqr(w, len, n, mu, resM, 2 * e, resM, av);
    ExpSqr(w, len, n, mu, resM, 4 * e, resM, av);
    ExpSqr(w, len, n, mu, resM, 8 * e, resM, av);
    var aBitsL := new nat[len](_ => 0);
    Lookup(consttime, w, len, n, table, bits, aBitsL, av);
    ExpMul(w, len, n, mu, resM, 0, 16 * e, aBitsL, 0, bits, resM, 0, av);
  }

  method WindowLoop(consttime: bool, w: nat, len: nat, n: array<nat>, mu: nat, table: array<nat>, bBits: nat,
                    b: array<nat>, resM: array<nat>, ghost av: nat, ghost bv: nat)
    requires w >= 4 && Modulus(w, len, n, mu) && Table(w, len, n, table, av, 16) && resM.Length == len
        && resM !in {n, table, b}
    requires ExponentLimbs(w, bBits) <= b.Length && IsLimbs(Base(w), Slice(b, 0, ExponentLimbs(w, bBits)))
    requires bv == Val(Base(w), b, 0, ExponentLimbs(w, bBits)) && Holds(w, len, n, resM, 0, av, Shr(bv, bBits / 4 * 4))
    modifies resM
    ensures Holds(w, len, n, resM, 0, av, bv)
  {
    var i := 0;
    ShrZero(bv);
    hide Eval, Pow, IsLimbs, Base, Holds, Modulus, Slice, Shr, Table;
    while i < bBits / 4
      invariant 0 <= i <= bBits / 4
      invariant Holds(w, len, n, resM, 0, av, Shr(bv, bBits / 4 * 4 - 4 * i))
    {
      var bk := bBits - bBits % 4;
      var bits := GetFourBits(w, bBits, b, bk - 4 * i - 4);
      NextHighFour(bv, bk - 4 * i - 4);
      WindowStep(consttime, w, len, n, mu, table, bits, resM, av, Shr(bv, bk - 4 * i));
      i := i + 1;
    }
  }

  lemma NextHighFour(x: nat, e: nat)
    ensures Shr(x, e) == 16 * Shr(x, e + 4) + Shr(x, e) % 16
  {
    NextHighBits(x, e, 4);
    FourBits();
  }

  /** An exponent of bBits bits leaves at most bBits % 4 bits above the last full window. */
  lemma LeadingWindow(x: nat, bBits: nat)
    requires x < Base(bBits)
    ensures Shr(x, bBits / 4 * 4) % 16 == Shr(x, bBits / 4 * 4)
    ensures bBits % 4 == 0 ==> Shr(x, bBits / 4 * 4) == 0
  {
    var e := bBits / 4 * 4;
    DivAll(x, bBits);
    PowMonotonic(2, bBits, e + 4);
    DivAll(x, e + 4);
    NextHighFour(x, e);
  }

  method Window(consttime: bool, w: nat, len: nat, n: array<nat>, mu: nat, r2: array<nat>, a: array<nat>, bBits: nat,
                b: array<nat>, res: array<nat>)
    requires ExpArgs(w, len, n, mu, r2, a, bBits, b) && len <= res.Length && n != res
    modifies res
    ensures IsLimbs(Base(w), Slice(res, 0, len))
    ensures Val(Base(w), res, 0, len)
        == Pow(old(Val(Base(w), a, 0, len)), old(Val(Base(w), b, 0, ExponentLimbs(w, bBits)))) % Val(Base(w), n, 0, len)
  {
    ghost var av, bv := Val(Base(w), a, 0, len), Val(Base(w), b, 0, ExponentLimbs(w, bBits));
    var aM, resM := ExpStart(w, len, n, mu, r2, a, bBits, b);
    LeadingWindow(bv, bBits);
    hide Eval, Pow, IsLimbs, Base, Modulus, Slice, Shr, Holds, Table;
    var table := BuildTable(w, len, n, mu, aM, resM, av);
    if bBits % 4 != 0 {
      var bitsC := GetFourBits(w, bBits, b, bBits / 4 * 4);
      Lookup(consttime, w, len, n, table, bitsC, resM, av);
    }
    WindowLoop(consttime, w, len, n, mu, table, bBits, b, resM, av, bv);
    ExpFinish(w, len, n, mu, resM, res, av, bv);
  }

  // ---- the two entry points ----

  /** The routes: chosen by the size of the exponent and by whether the table is read by index. */
  method BnModExpPrecomp(consttime: bool, w: nat, len: nat, n: array<nat>, mu: nat, r2: array<nat>, a: array<nat>,
                         bBits: nat, b: array<nat>, res: array<nat>)
    requires ExpArgs(w, len, n, mu, r2, a, bBits, b) && len <= res.Length && n != res
    modifies res
    ensures IsLimbs(Base(w), Slice(res, 0, len))
    ensures Val(Base(w), res, 0, len)
        == Pow(old(Val(Base(w), a, 0, len)), old(Val(Base(w), b, 0, ExponentLimbs(w, bBits)))) % Val(Base(w), n, 0, len)
  {
    hide *;
    if bBits < 200 {
      if consttime {
        LadderConsttime(w, len, n, mu, r2, a, bBits, b, res);
      } else {
        BinaryVartime(w, len, n, mu, r2, a, bBits, b, res);
      }
      return;
    }
    Window(consttime, w, len, n, mu, r2, a, bBits, b, res);
  }
}
