/**
 * The checked entry points of Hacl_Bignum256 for bignums of any length: full reduction, modular exponentiation
 * and the inverse modulo a prime. Each reports whether its inputs were acceptable and clears the result if not.
 */
module Bignum256 {
  import opened Arith
  import opened Words
  import opened Limbs
  import opened Addition
  import opened ModArith
  import opened Montgomery
  import opened Exponentiation
  import opened Fermat

  /** An odd number above 1. */
  predicate Acceptable(n: nat) {
    n % 2 == 1 && n > 1
  }

  ghost predicate Number(w: nat, len: nat, x: array<nat>)
    reads x
  {
    len == x.Length && IsLimbs(Base(w), Slice(x, 0, len))
  }

  method BnClear(len: nat, res: array<nat>)
    requires len == res.Length
    modifies res
    ensures Slice(res, 0, len) == seq(len, _ => 0)
  {
    forall k | 0 <= k < len { res[k] := 0; }
  }

  lemma ClearedIsZero(w: nat, len: nat, res: array<nat>)
    requires len == res.Length && Slice(res, 0, len) == seq(len, _ => 0)
    ensures Number(w, len, res) && Val(Base(w), res, 0, len) == 0
  {
    EvalZeros(Base(w), Slice(res, 0, len));
  }

  lemma TopPower(w: nat, top: nat, v: nat)
    requires w > 0 && Acceptable(v) && Pow(Base(w), top) <= v
    ensures Pow(2, w * top) < v
  {
    PowMul(2, w, top);
    if top > 0 { PowSuccessor(2, w * top - 1); }
  }

  lemma InverseGivesModulus(w: nat, len: nat, n: array<nat>, mu: nat)
    requires w >= 4 && 0 < len == n.Length && Number(w, len, n) && Acceptable(Val(Base(w), n, 0, len))
    requires mu < Base(w) && (1 + n[0] * mu) % Base(w) == 0
    ensures Modulus(w, len, n, mu)
  {
  }

  /** r2 from the position of the top limb, and the limb inverse. */
  method MontSetup(w: nat, len: nat, n: array<nat>) returns (r2: array<nat>, mu: nat)
    requires w >= 4 && 0 < len <= Base(w) && Number(w, len, n) && Acceptable(Val(Base(w), n, 0, len))
    ensures fresh(r2) && Number(w, len, r2) && Modulus(w, len, n, mu)
    ensures Val(Base(w), r2, 0, len) == Pow(2, 2 * w * len) % Val(Base(w), n, 0, len)
  {
    var top := BnGetTopIndex(w, len, n);
    var nBits := w * top;
    TopPower(w, top, Val(Base(w), n, 0, len));
    r2 := new nat[len](_ => 0);
    BnPrecompR2(w, len, nBits, n, r2);
    LowBit(w, Slice(n, 0, len));
    ModulusHead(w, len, n, 0);
    mu := ModInvLimb(w, n[0]);
    InverseGivesModulus(w, len, n, mu);
  }

  // ---- a mod n for a of twice the length ----

  lemma TwoReductions(w: nat, len: nat, nv: nat, av: nat, r2: nat, x: nat, r: nat)
    requires nv % 2 == 1 && r2 == Pow(2, 2 * w * len) % nv && r < nv
    requires Cong(Prod(x, Pow(Base(w), len)), av, nv) && Cong(Prod(r, Pow(Base(w), len)), Prod(x, r2), nv)
    ensures r == av % nv
  {
    var p := Pow(Base(w), len);
    var e := Prod(w, len);
    RadixSquare(w, len, e);
    assert 2 * w * len == e + e by { MulAssoc(2, w, len); }
    assert Prod(p, p) == p * p;
    hide Pow, Base, Prod;
    FormOfNumber(nv, p, x, r2, Prod(r, p));
    ProductsAgree(nv, p, Prod(x, p), av, Prod(r, p));
    CancelRadix(w, len, nv, r, av);
    DivModUnique(r, nv, 0, r);
  }

  lemma ProductsAgree(n: nat, p: nat, x: nat, y: nat, z: nat)
    requires n > 0 && Cong(x, y, n) && Cong(z, Prod(x, p), n)
    ensures Cong(z, Prod(y, p), n)
  {
    CongMul(x, y, p, p, n);
  }

  /** bn_slow_precomp: an almost reduction, a product with r2 and an exact reduction give a mod n exactly. */
  method BnSlowPrecomp(w: nat, len: nat, n: array<nat>, mu: nat, r2: array<nat>, a: array<nat>, res: array<nat>)
    requires w >= 4 && Modulus(w, len, n, mu) && Number(w, len, n) && Number(w, len, r2) && Number(w, 2 * len, a)
    requires Val(Base(w), r2, 0, len) == Pow(2, 2 * w * len) % Val(Base(w), n, 0, len)
    requires len == res.Length && n != res
    modifies res
    ensures Number(w, len, res)
    ensures Val(Base(w), res, 0, len) == old(Val(Base(w), a, 0, 2 * len)) % Val(Base(w), n, 0, len)
  {
    ghost var B := Base(w);
    ghost var nv, av, r2v := Val(B, n, 0, len), Val(B, a, 0, 2 * len), Val(B, r2, 0, len);
    ModulusOdd(w, len, n, mu);
    ModBelow(Pow(2, 2 * w * len), nv);
    var aMod := new nat[len](_ => 0);
    var a1 := new nat[2 * len](_ => 0);
    hide Eval, Pow, IsLimbs, Base, Prod, Slice, Modulus;
    Memcpy(2 * len, a, 0, a1, 0);
    BnAlmostMontReduction(w, len, n, mu, a1, aMod, 0);
    ghost var x := Val(B, aMod, 0, len);
    BnMontMul(w, len, n, mu, aMod, 0, r2, 0, res, 0);
    TwoReductions(w, len, nv, av, r2v, x, Val(B, res, 0, len));
  }

  /** a mod n, accepted exactly for odd n above 1. */
  method BnMod(w: nat, len: nat, n: array<nat>, a: array<nat>, res: array<nat>) returns (ok: bool)
    requires w >= 4 && 0 < len <= Base(w) && Number(w, len, n) && Number(w, 2 * len, a) && len == res.Length && n != res
    modifies res
    ensures ok == Acceptable(Val(Base(w), n, 0, len)) && Number(w, len, res)
    ensures Val(Base(w), res, 0, len) == if ok then old(Val(Base(w), a, 0, 2 * len)) % Val(Base(w), n, 0, len) else 0
  {
    BaseAtLeastTwo(w);
    hide Eval, Pow, IsLimbs, Base, Slice, Modulus;
    var isValidM := BnCheckModulus(w, len, n);
    if isValidM == Base(w) - 1 {
      var r2, mu := MontSetup(w, len, n);
      BnSlowPrecomp(w, len, n, mu, r2, a, res);
    } else {
      BnClear(len, res);
      ClearedIsZero(w, len, res);
    }
    ok := isValidM == Base(w) - 1;
  }

  // ---- exponentiation ----

  lemma ExponentCapacity(w: nat, bBits: nat)
    requires w > 0
    ensures bBits <= w * ExponentLimbs(w, bBits)
    ensures Pow(Base(w), ExponentLimbs(w, bBits)) == Base(w * ExponentLimbs(w, bBits))
  {
    PowMul(2, w, ExponentLimbs(w, bBits));
    if bBits > 0 {
      MulDistrib(w, (bBits - 1) / w, 1);
    }
  }

  lemma BelowPowers(x: nat, e: nat, f: nat)
    requires e < f
    ensures Base(e) < Base(f)
  {
    PowMonotonic(2, e + 1, f);
  }

  /** b < 2^bBits, as a mask; an exponent that fills its limbs needs no comparison. */
  method BnFitsMask(w: nat, bBits: nat, b: array<nat>) returns (m1: nat)
    requires w >= 4 && ExponentLimbs(w, bBits) <= b.Length && IsLimbs(Base(w), Slice(b, 0, ExponentLimbs(w, bBits)))
    ensures m1 == if Val(Base(w), b, 0, ExponentLimbs(w, bBits)) < Base(bBits) then Base(w) - 1 else 0
  {
    var bLen := ExponentLimbs(w, bBits);
    ExponentCapacity(w, bBits);
    EvalBound(Base(w), Slice(b, 0, bLen));
    hide Eval, IsLimbs, Slice;
    if bBits < w * bLen {
      BelowPowers(0, bBits, w * bLen);
      var b2 := new nat[bLen](_ => 0);
      BnSetBit(w, bLen, bBits, b2);
      m1 := BnLtMask(w, bLen, b, 0, b2, 0);
    } else {
      m1 := Base(w) - 1;
    }
  }

  /** All ones exactly when n is odd and above 1, b has at most bBits bits and a < n. */
  method BnCheckModExp(w: nat, len: nat, n: array<nat>, a: array<nat>, bBits: nat, b: array<nat>) returns (m: nat)
    requires w >= 4 && 0 < len && Number(w, len, n) && Number(w, len, a)
    requires ExponentLimbs(w, bBits) <= b.Length && IsLimbs(Base(w), Slice(b, 0, ExponentLimbs(w, bBits)))
    ensures m == if Acceptable(Val(Base(w), n, 0, len)) && Val(Base(w), b, 0, ExponentLimbs(w, bBits)) < Base(bBits)
                    && Val(Base(w), a, 0, len) < Val(Base(w), n, 0, len) then Base(w) - 1 else 0
  {
    var m00 := BnCheckModulus(w, len, n);
    var m1 := BnFitsMask(w, bBits, b);
    var m2 := BnLtMask(w, len, a, 0, n, 0);
    BaseAtLeastTwo(w);
    AndMasks(w, m1, m2);
    AndMasks(w, m00, And(m1, m2));
    m := And(m00, And(m1, m2));
  }

  /** a^b mod n for acceptable operands, by the table-index or the constant-time routes alike. */
  method BnModExp(consttime: bool, w: nat, len: nat, n: array<nat>, a: array<nat>, bBits: nat, b: array<nat>,
                  res: array<nat>)
      returns (ok: bool)
    requires w >= 4 && 0 < len <= Base(w) && Number(w, len, n) && Number(w, len, a) && len == res.Length && n != res
    requires ExponentLimbs(w, bBits) <= b.Length && IsLimbs(Base(w), Slice(b, 0, ExponentLimbs(w, bBits)))
    modifies res
    ensures ok == (Acceptable(Val(Base(w), n, 0, len)) && old(Val(Base(w), b, 0, ExponentLimbs(w, bBits))) < Base(bBits)
                   && old(Val(Base(w), a, 0, len)) < Val(Base(w), n, 0, len))
    ensures Number(w, len, res)
    ensures Val(Base(w), res, 0, len)
         == if ok then Pow(old(Val(Base(w), a, 0, len)),
                           old(Val(Base(w), b, 0, ExponentLimbs(w, bBits)))) % Val(Base(w), n, 0, len) else 0
  {
    BaseAtLeastTwo(w);
    hide Eval, Pow, IsLimbs, Base, Slice, Modulus;
    var isValidM := BnCheckModExp(w, len, n, a, bBits, b);
    if isValidM == Base(w) - 1 {
      var r2, mu := MontSetup(w, len, n);
      BnModExpPrecomp(consttime, w, len, n, mu, r2, a, bBits, b, res);
    } else {
      BnClear(len, res);
      ClearedIsZero(w, len, res);
    }
    ok := isValidM == Base(w) - 1;
  }

  // ---- the inverse modulo a prime ----

  /** All ones exactly for the number 0. */
  method BnIsZeroMask(w: nat, len: nat, a: array<nat>) returns (mask: nat)
    requires w >= 4 && Number(w, len, a)
    ensures mask == if Val(Base(w), a, 0, len) == 0 then Base(w) - 1 else 0
  {
    BaseAtLeastTwo(w);
    ghost var s := Slice(a, 0, len);
    mask := Base(w) - 1;
    var i := 0;
    assert s[..0] == [];
    while i < len
      invariant 0 <= i <= len
      invariant mask == if Eval(Base(w), s[..i]) == 0 then Base(w) - 1 else 0
    {
      assert s[..i + 1] == s[..i] + [s[i]] && a[i] == s[i];
      EvalSnoc(Base(w), s[..i], s[i]);
      PowPositive(Base(w), i);
      if s[i] > 0 { MulLe(1, s[i], Pow(Base(w), i)); }
      var eq := EqMask(w, a[i], 0);
      AndMasks(w, eq, mask);
      mask := And(eq, mask);
      i := i + 1;
    }
    assert s[..len] == s;
  }

  lemma LargerThanTwo(w: nat)
    requires w >= 4
    ensures 2 < Base(w)
  {
    PowMonotonic(2, 4, w);
    FourBits();
  }

  /** n - 2 by one borrow chain, as an exponent of w * len bits. */
  method BnMinusTwo(w: nat, len: nat, n: array<nat>) returns (n2: array<nat>)
    requires w >= 4 && 0 < len && Number(w, len, n) && Acceptable(Val(Base(w), n, 0, len))
    ensures fresh(n2) && Number(w, len, n2) && ExponentLimbs(w, w * len) == len
    ensures Val(Base(w), n2, 0, len) == Val(Base(w), n, 0, len) - 2 < Base(w * len)
  {
    LargerThanTwo(w);
    PowMul(2, w, len);
    n2 := new nat[len](_ => 0);
    EvalBound(Base(w), Slice(n, 0, len));
    DivModUnique(w * len - 1, w, len - 1, w - 1);
    MulDistrib(w, len - 1, 1);
    hide Eval, Pow, IsLimbs, Base, Slice;
    var c1 := BnSub1(w, len, n, 0, 2, n2, 0);
    EvalBound(Base(w), Slice(n2, 0, len));
  }

  /**
   * a^(n - 2) mod n for odd n > 1 and 0 < a < n, and the inverse of a when n is prime.
   */
  method BnModInvPrime(w: nat, len: nat, n: array<nat>, a: array<nat>, res: array<nat>) returns (ok: bool)
    requires w >= 4 && 0 < len <= Base(w) && Number(w, len, n) && Number(w, len, a) && len == res.Length && n != res
    modifies res
    ensures ok == (Acceptable(Val(Base(w), n, 0, len)) && 0 < old(Val(Base(w), a, 0, len)) < Val(Base(w), n, 0, len))
    ensures Number(w, len, res)
    ensures Val(Base(w), res, 0, len)
         == if ok then Pow(old(Val(Base(w), a, 0, len)), Val(Base(w), n, 0, len) - 2) % Val(Base(w), n, 0, len) else 0
    ensures ok && Prime(Val(Base(w), n, 0, len)) ==>
              Val(Base(w), res, 0, len) < Val(Base(w), n, 0, len)
              && old(Val(Base(w), a, 0, len)) * Val(Base(w), res, 0, len) % Val(Base(w), n, 0, len) == 1
  {
    BaseAtLeastTwo(w);
    ghost var nv, av := Val(Base(w), n, 0, len), Val(Base(w), a, 0, len);
    hide Eval, Pow, IsLimbs, Base, Slice, Modulus;
    var m00 := BnCheckModulus(w, len, n);
    var m10 := BnIsZeroMask(w, len, a);
    var m2 := BnLtMask(w, len, a, 0, n, 0);
    AndMasks(w, m00, Not(w, m10));
    AndMasks(w, And(m00, Not(w, m10)), m2);
    var isValidM := And(And(m00, Not(w, m10)), m2);
    if isValidM == Base(w) - 1 {
      var r2, mu := MontSetup(w, len, n);
      var n2 := BnMinusTwo(w, len, n);
      BnModExpPrecomp(false, w, len, n, mu, r2, a, w * len, n2, res);
      InverseIfPrime(nv, av);
    } else {
      BnClear(len, res);
      ClearedIsZero(w, len, res);
    }
    ok := isValidM == Base(w) - 1;
  }

  lemma InverseIfPrime(n: nat, a: nat)
    requires n > 2 && 0 < a < n
    ensures Prime(n) ==> a * (Pow(a, n - 2) % n) % n == 1
  {
    if Prime(n) { InverseByPower(n, a); }
  }

  // ---- the Montgomery context ----

  /** A private copy of a modulus with its precomputed constants, Hacl_Bignum256_mont_ctx_init. */
  class MontCtx {
    const w: nat
    const len: nat
    const n: array<nat>
    const r2: array<nat>
    const mu: nat

    ghost predicate Valid()
      reads n, r2
    {
      && w >= 4 && 0 < len <= Base(w) && n != r2 && Number(w, len, n) && Number(w, len, r2) && Modulus(w, len, n, mu)
      && Acceptable(N()) && Val(Base(w), r2, 0, len) == Pow(2, 2 * w * len) % N()
    }

    /** The modulus. */
    ghost function N(): nat
      requires len <= n.Length
      reads n
    {
      Val(Base(w), n, 0, len)
    }

    constructor (w: nat, len: nat, n: array<nat>)
      requires w >= 4 && 0 < len <= Base(w) && Number(w, len, n) && Acceptable(Val(Base(w), n, 0, len))
      ensures Valid() && fresh(this.n) && fresh(r2) && this.w == w && this.len == len && N() == Val(Base(w), n, 0, len)
    {
      hide Eval, Pow, IsLimbs, Base, Modulus;
      var n1 := new nat[len](_ => 0);
      Memcpy(len, n, 0, n1, 0);
      var r2, mu := MontSetup(w, len, n1);
      this.w, this.len, this.n, this.r2, this.mu := w, len, n1, r2, mu;
    }

    method Mod(a: array<nat>, res: array<nat>)
      requires Valid() && Number(w, 2 * len, a) && len == res.Length && res !in {n, r2}
      modifies res
      ensures Valid() && N() == old(N()) && Number(w, len, res)
      ensures Val(Base(w), res, 0, len) == old(Val(Base(w), a, 0, 2 * len)) % N()
    {
      hide Eval, Pow, IsLimbs, Base, Modulus, Slice;
      BnSlowPrecomp(w, len, n, mu, r2, a, res);
    }

    method ModExp(consttime: bool, a: array<nat>, bBits: nat, b: array<nat>, res: array<nat>)
      requires Valid() && Number(w, len, a) && len == res.Length && res !in {n, r2}
      requires ExponentLimbs(w, bBits) <= b.Length && IsLimbs(Base(w), Slice(b, 0, ExponentLimbs(w, bBits)))
      requires Val(Base(w), b, 0, ExponentLimbs(w, bBits)) < Base(bBits)
      modifies res
      ensures Valid() && N() == old(N()) && Number(w, len, res)
      ensures Val(Base(w), res, 0, len)
           == Pow(old(Val(Base(w), a, 0, len)), old(Val(Base(w), b, 0, ExponentLimbs(w, bBits)))) % N()
    {
      hide Eval, Pow, IsLimbs, Base, Modulus, Slice;
      BnModExpPrecomp(consttime, w, len, n, mu, r2, a, bBits, b, res);
    }

    method ModInvPrime(a: array<nat>, res: array<nat>)
      requires Valid() && Number(w, len, a) && len == res.Length && res !in {n, r2}
      requires Prime(N()) && 0 < Val(Base(w), a, 0, len) < N()
      modifies res
      ensures Valid() && N() == old(N()) && Number(w, len, res) && Val(Base(w), res, 0, len) < N()
      ensures old(Val(Base(w), a, 0, len)) * Val(Base(w), res, 0, len) % N() == 1
    {
      hide Eval, Pow, IsLimbs, Base, Modulus, Slice;
      var n2 := BnMinusTwo(w, len, n);
      InverseIfPrime(N(), Val(Base(w), a, 0, len));
      BnModExpPrecomp(false, w, len, n, mu, r2, a, w * len, n2, res);
    }
  }
}
