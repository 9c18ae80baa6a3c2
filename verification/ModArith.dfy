/** Addition and subtraction modulo n, the limb inverse, and 2^(2 * w * len) mod n by doubling. */
module ModArith {
  import opened Arith
  import opened Words
  import opened Limbs
  import opened Addition
  import opened Karatsuba

  // ---- bn_add_mod_n, bn_sub_mod_n ----

  /**
   * A number t below 2n, given as s with a carry c0, is reduced by one subtraction: the difference is taken
   * unless subtracting n borrows more than t carried. The mask c0 - c1 is always all zeros or all ones.
   */
  lemma ReduceChoice(w: nat, t: nat, n: nat, p: nat, s: nat, c0: nat, d: nat, c1: nat)
    requires w > 0 && t < 2 * n && n <= p && s < p && d < p && c0 <= 1 && c1 <= 1
    requires s + Carry(c0, p) == t && d - Carry(c1, p) == s - n
    ensures (c0 - c1) % Base(w) == 0 || (c0 - c1) % Base(w) == Base(w) - 1
    ensures (if (c0 - c1) % Base(w) == 0 then d else s) == t % n
  {
    BaseAtLeastTwo(w);
    WrapSub(c0 - c1, Base(w));
    WrapAdd(t, n);
  }

  /** res = (a + b) mod n; res may be a or b, as in the doubling `add_mod(n, res, res, res)`. */
  method BnAddModN(w: nat, len: nat, n: array<nat>, a: array<nat>, ao: nat, b: array<nat>, bo: nat, res: array<nat>,
                   ro: nat)
    requires w > 0 && len <= n.Length && ao + len <= a.Length && bo + len <= b.Length && ro + len <= res.Length
    requires SameOrApart(a, ao, res, ro, len) && SameOrApart(b, bo, res, ro, len) && Apart(n, 0, len, res, ro, len)
    requires IsLimbs(Base(w), Slice(n, 0, len)) && IsLimbs(Base(w), Slice(a, ao, len))
        && IsLimbs(Base(w), Slice(b, bo, len))
    requires Val(Base(w), a, ao, len) < Val(Base(w), n, 0, len) && Val(Base(w), b, bo, len) < Val(Base(w), n, 0, len)
    modifies res
    ensures IsLimbs(Base(w), Slice(res, ro, len))
    ensures Val(Base(w), res, ro, len)
         == (old(Val(Base(w), a, ao, len)) + old(Val(Base(w), b, bo, len))) % old(Val(Base(w), n, 0, len))
    ensures forall x: array<nat>, i: nat, k: nat {:trigger Slice(x, i, k)} ::
              old(allocated(x)) && Away(x, i, k, res, ro, len) ==> Slice(x, i, k) == old(Slice(x, i, k))
  {
    ghost var B := Base(w);
    ghost var x, y, nv := Val(B, a, ao, len), Val(B, b, bo, len), Val(B, n, 0, len);
    hide Eval, Pow, Slice, IsLimbs, Base;
    ValBound(B, n, 0, len);
    var c00 := BnAddEqLen(w, len, a, ao, b, bo, res, ro);
    var tmp := new nat[len](_ => 0);
    var c1 := BnSubEqLen(w, len, res, ro, n, 0, tmp, 0);
    ValBound(B, res, ro, len); ValBound(B, tmp, 0, len);
    ReduceChoice(w, x + y, nv, Pow(B, len), Val(B, res, ro, len), c00, Val(B, tmp, 0, len), c1);
    var c2 := (c00 - c1) % Base(w);
    BnSelect(w, c2, len, res, ro, tmp, 0, res, ro);
  }

  lemma SubModChoice(w: nat, x: nat, y: nat, n: nat, p: nat, s: nat, c0: nat, d: nat, c1: nat)
    requires w > 0 && x < n && y < n && n <= p && s < p && d < p && c0 <= 1 && c1 <= 1
    requires s - Carry(c0, p) == x - y && d + Carry(c1, p) == s + n
    ensures (if c0 == 0 then s else d) == (x - y) % n
  {
    WrapSub(x - y, n);
  }

  /** res = (a - b) mod n. */
  method BnSubModN(w: nat, len: nat, n: array<nat>, a: array<nat>, ao: nat, b: array<nat>, bo: nat, res: array<nat>,
                   ro: nat)
    requires w > 0 && len <= n.Length && ao + len <= a.Length && bo + len <= b.Length && ro + len <= res.Length
    requires SameOrApart(a, ao, res, ro, len) && SameOrApart(b, bo, res, ro, len) && Apart(n, 0, len, res, ro, len)
    requires IsLimbs(Base(w), Slice(n, 0, len)) && IsLimbs(Base(w), Slice(a, ao, len))
        && IsLimbs(Base(w), Slice(b, bo, len))
    requires Val(Base(w), a, ao, len) < Val(Base(w), n, 0, len) && Val(Base(w), b, bo, len) < Val(Base(w), n, 0, len)
    modifies res
    ensures IsLimbs(Base(w), Slice(res, ro, len))
    ensures Val(Base(w), res, ro, len)
         == (old(Val(Base(w), a, ao, len)) - old(Val(Base(w), b, bo, len))) % old(Val(Base(w), n, 0, len))
    ensures forall x: array<nat>, i: nat, k: nat {:trigger Slice(x, i, k)} ::
              old(allocated(x)) && Away(x, i, k, res, ro, len) ==> Slice(x, i, k) == old(Slice(x, i, k))
  {
    ghost var B := Base(w);
    ghost var x, y, nv := Val(B, a, ao, len), Val(B, b, bo, len), Val(B, n, 0, len);
    hide Eval, Pow, Slice, IsLimbs, Base;
    ValBound(B, n, 0, len);
    BaseAtLeastTwo(w);
    var c00 := BnSubEqLen(w, len, a, ao, b, bo, res, ro);
    var tmp := new nat[len](_ => 0);
    var c1 := BnAddEqLen(w, len, res, ro, n, 0, tmp, 0);
    ValBound(B, res, ro, len); ValBound(B, tmp, 0, len);
    SubModChoice(w, x, y, nv, Pow(B, len), Val(B, res, ro, len), c00, Val(B, tmp, 0, len), c1);
    BnSelect(w, BitMask(w, c00), len, tmp, 0, res, ro, res, ro);
  }

  // ---- mod_inv_uint64 ----

  /** The invariant of the limb inverse after i of w steps: ub * 2^w - vb * n0 = 2^(w - i). */
  ghost predicate Inverting(w: nat, n0: nat, i: nat, ub: nat, vb: nat) {
    i <= w && ub <= n0 && vb < Base(w) && ub * Base(w) - vb * n0 == Pow(2, w - i)
  }

  /** n0 is odd, so v is even ... */
  lemma HalvingParity(u: nat, v: nat, n0: nat, h: nat, q: nat)
    requires n0 % 2 == 1 && u * (2 * h) - v * n0 == 2 * q
    ensures v % 2 == 0 && u * h - v / 2 * n0 == q
  {
    var m := n0 / 2;
    assert u * (2 * h) == 2 * (u * h) by { MulAssoc(u, 2, h); }
    assert v * n0 == 2 * (v * m) + v by { MulDistrib(v, 2 * m, 1); MulAssoc(v, 2, m); MulAssoc(2, v, m); }
    assert v == 2 * (u * h - q - v * m);
    MulAssoc(2, v / 2, n0);
  }

  /** ... and both words can be halved exactly, also when n0 is added to an odd u. */
  lemma HalvingArith(u: nat, v': nat, n0: nat, h: nat, q: nat)
    requires n0 % 2 == 1 && u * h - v' * n0 == q
    ensures u % 2 == 0 ==> u / 2 * (2 * h) - v' * n0 == q
    ensures u % 2 == 1 ==> (u + n0) / 2 * (2 * h) - (v' + h) * n0 == q
  {
    if u % 2 == 0 {
      HalfTimesTwice(u, u / 2, h);
    } else {
      HalfTimesTwice(u + n0, (u + n0) / 2, h);
      assert (u + n0) * h == u * h + n0 * h by { MulDistrib(h, u, n0); }
      assert (v' + h) * n0 == v' * n0 + n0 * h by { MulDistrib(n0, v', h); }
    }
  }

  lemma HalfTimesTwice(x: nat, y: nat, h: nat)
    requires x == 2 * y
    ensures y * (2 * h) == x * h
  {
    MulAssoc(y, 2, h);
  }

  lemma InvertingStep(w: nat, n0: nat, i: nat, ub: nat, vb: nat)
    requires n0 % 2 == 1 && Inverting(w, n0, i, ub, vb) && i < w
    ensures Inverting(w, n0, i + 1, if ub % 2 == 0 then ub / 2 else (ub + n0) / 2,
                      if ub % 2 == 0 then vb / 2 else vb / 2 + Base(w - 1))
  {
    BaseHalf(w);
    BaseHalf(w - i);
    HalvingParity(ub, vb, n0, Base(w - 1), Base(w - i - 1));
    HalvingArith(ub, vb / 2, n0, Base(w - 1), Base(w - i - 1));
  }

  /** The halving step on words: the sum of u and an optional n0 is never formed, so no carry is lost. */
  lemma HalvingWords(w: nat, n0: nat, us: nat, vs: nat, mask: nat)
    requires w > 0 && n0 < Base(w) && mask == BitMask(w, us % 2)
    ensures var b := And(n0, mask);
            Xor(us, b) / 2 + And(us, b) == if us % 2 == 0 then us / 2 else (us + n0) / 2
    ensures vs / 2 + And(Base(w - 1), mask) == if us % 2 == 0 then vs / 2 else vs / 2 + Base(w - 1)
  {
    BaseHalf(w);
    AndOnes(w, n0); AndOnes(w, Base(w - 1));
    DivModUnique(n0, Base(w), 0, n0); DivModUnique(Base(w - 1), Base(w), 0, Base(w - 1));
    XorPlusAnd(us, And(n0, mask));
  }

  /** -1 / n0 modulo 2^w. */
  method ModInvLimb(w: nat, n0: nat) returns (vb: nat)
    requires w > 0 && n0 % 2 == 1 && n0 < Base(w)
    ensures vb < Base(w) && (1 + n0 * vb) % Base(w) == 0
  {
    var alpha, beta := Base(w - 1), n0;
    var ub: nat := 1;
    vb := 0;
    BaseAtLeastTwo(w);
    var i := 0;
    while i < w
      invariant 0 <= i <= w && Inverting(w, n0, i, ub, vb)
    {
      var us, vs := ub, vb;
      AndOnes(1, us);
      var uIsOdd := BitMask(w, And(us, 1));
      var betaIfUIsOdd := And(beta, uIsOdd);
      HalvingWords(w, n0, us, vs, uIsOdd);
      InvertingStep(w, n0, i, us, vs);
      ub := Xor(us, betaIfUIsOdd) / 2 + And(us, betaIfUIsOdd);
      var alphaIfUIsOdd := And(alpha, uIsOdd);
      vb := vs / 2 + alphaIfUIsOdd;
      i := i + 1;
    }
    assert n0 * vb == vb * n0;
    DivModUnique(1 + n0 * vb, Base(w), ub, 0);
  }

  // ---- comparison by masks ----

  /** The highest differing limb decides. */
  lemma EvalLess(B: nat, s: seq<nat>, x: nat, t: seq<nat>, y: nat)
    requires B > 0 && |s| == |t| && IsLimbs(B, s) && IsLimbs(B, t)
    ensures Eval(B, s + [x]) < Eval(B, t + [y]) <==> x < y || (x == y && Eval(B, s) < Eval(B, t))
  {
    EvalSnoc(B, s, x); EvalSnoc(B, t, y);
    EvalBound(B, s); EvalBound(B, t);
    var p := Pow(B, |s|);
    if x < y { MulLe(x + 1, y, p); MulDistrib(p, x, 1); }
    if y < x { MulLe(y + 1, x, p); MulDistrib(p, y, 1); }
  }

  /** All ones when a < b and zero otherwise, in one pass from the lowest limb up. */
  method BnLtMask(w: nat, len: nat, a: array<nat>, ao: nat, b: array<nat>, bo: nat) returns (acc: nat)
    requires w > 0 && ao + len <= a.Length && bo + len <= b.Length
    requires IsLimbs(Base(w), Slice(a, ao, len)) && IsLimbs(Base(w), Slice(b, bo, len))
    ensures acc == if Val(Base(w), a, ao, len) < Val(Base(w), b, bo, len) then Base(w) - 1 else 0
  {
    ghost var B, s, t := Base(w), Slice(a, ao, len), Slice(b, bo, len);
    BaseAtLeastTwo(w);
    acc := 0;
    var i := 0;
    assert s[..0] == t[..0] == [];
    while i < len
      invariant 0 <= i <= len
      invariant acc == if Eval(B, s[..i]) < Eval(B, t[..i]) then B - 1 else 0
    {
      assert a[ao + i] == s[i] && b[bo + i] == t[i];
      var beq := EqMask(w, a[ao + i], b[bo + i]);
      var blt := Not(w, GteMask(w, a[ao + i], b[bo + i]));
      assert s[..i + 1] == s[..i] + [s[i]] && t[..i + 1] == t[..i] + [t[i]];
      EvalLess(B, s[..i], s[i], t[..i], t[i]);
      SelectMask(w, blt, B - 1, 0);
      SelectMask(w, beq, acc, Select(w, blt, Base(w) - 1, 0));
      acc := Select(w, beq, acc, Select(w, blt, Base(w) - 1, 0));
      i := i + 1;
    }
    assert s[..len] == s && t[..len] == t;
  }

  lemma {:induction false} LowBit(w: nat, s: seq<nat>)
    requires w > 0 && s != []
    ensures Eval(Base(w), s) % 2 == s[0] % 2 == And(s[0], 1)
  {
    AndOnes(1, s[0]);
    assert Base(w) * Eval(Base(w), s[1..]) == 2 * (Base(w - 1) * Eval(Base(w), s[1..])) by {
      MulAssoc(2, Base(w - 1), Eval(Base(w), s[1..]));
    }
  }

  lemma AndMasks(w: nat, x: nat, y: nat)
    requires x == 0 || x == Base(w) - 1
    requires y == 0 || y == Base(w) - 1
    ensures And(x, y) == if x == 0 then 0 else y
  {
    AndOnes(w, y);
    DivModUnique(y, Base(w), 0, y);
  }

  /** All ones exactly for an odd modulus above 1. */
  method BnCheckModulus(w: nat, len: nat, n: array<nat>) returns (m: nat)
    requires w > 0 && 0 < len <= n.Length && IsLimbs(Base(w), Slice(n, 0, len))
    ensures m == if Val(Base(w), n, 0, len) % 2 == 1 && Val(Base(w), n, 0, len) > 1 then Base(w) - 1 else 0
  {
    BaseAtLeastTwo(w);
    var one := new nat[len](_ => 0);
    one[0] := 1;
    assert Slice(one, 0, len) == OneLimb(1, len);
    EvalOneLimb(Base(w), 1, len);
    LowBit(w, Slice(n, 0, len));
    var bit0 := And(n[0], 1);
    var m0 := BitMask(w, bit0);
    var m1 := BnLtMask(w, len, one, 0, n, 0);
    m := And(m0, m1);
    AndMasks(w, m0, m1);
  }

  // ---- bn_get_top_index ----

  /** The index of the highest nonzero limb, and 0 for the number 0. */
  method BnGetTopIndex(w: nat, len: nat, b: array<nat>) returns (priv: nat)
    requires w > 0 && 0 < len <= b.Length && len <= Base(w) && IsLimbs(Base(w), Slice(b, 0, len))
    ensures priv < len
    ensures forall k :: priv < k < len ==> b[k] == 0
    ensures Val(Base(w), b, 0, len) > 0 ==>
              b[priv] > 0 && Pow(Base(w), priv) <= Val(Base(w), b, 0, len) < Pow(Base(w), priv + 1)
  {
    BaseAtLeastTwo(w);
    priv := 0;
    var i := 0;
    while i < len
      invariant 0 <= i <= len && (priv < i || priv == i == 0)
      invariant forall k :: priv < k < i ==> b[k] == 0
      invariant 0 < i && b[priv] == 0 ==> forall k :: 0 <= k < i ==> b[k] == 0
    {
      assert b[i] == Slice(b, 0, len)[i];
      var mask := EqMask(w, b[i], 0);
      SelectMask(w, mask, priv, i);
      priv := Select(w, mask, priv, i);
      i := i + 1;
    }
    if b[priv] == 0 {
      EvalZeros(Base(w), Slice(b, 0, len));
    } else {
      TopLimb(Base(w), Slice(b, 0, len), priv);
    }
  }

  lemma TopLimb(B: nat, s: seq<nat>, k: nat)
    requires B > 0 && k < |s| && IsLimbs(B, s) && s[k] > 0 && forall j :: k < j < |s| ==> s[j] == 0
    ensures Pow(B, k) <= Eval(B, s) < Pow(B, k + 1)
  {
    EvalSplit(B, s, k + 1);
    EvalZeros(B, s[k + 1..]);
    EvalCarryOut(B, s[..k + 1], k);
    EvalBound(B, s[..k + 1]);
    MulLe(1, s[k], Pow(B, k));
  }

  // ---- bn_precomp_r2_mod_n ----

  lemma {:induction false} EvalSingle(B: nat, s: seq<nat>, k: nat)
    requires k < |s| && forall j :: 0 <= j < |s| && j != k ==> s[j] == 0
    ensures Eval(B, s) == Pow(B, k) * s[k]
  {
    if k == 0 {
      EvalZeros(B, s[1..]);
    } else {
      EvalSingle(B, s[1..], k - 1);
      MulAssoc(B, Pow(B, k - 1), s[k]);
    }
  }

  /** A power of two below the modulus, written as a single bit of a bignum. */
  method BnSetBit(w: nat, len: nat, nBits: nat, res: array<nat>)
    requires w > 0 && len == res.Length && Pow(2, nBits) < Pow(Base(w), len)
    modifies res
    ensures IsLimbs(Base(w), Slice(res, 0, len)) && Val(Base(w), res, 0, len) == Pow(2, nBits)
  {
    hide Eval, Pow, Base;
    forall k | 0 <= k < len { res[k] := 0; }
    var i, j := nBits / w, nBits % w;
    BitFits(w, len, nBits);
    BitValue(w, i, j);
    assert nBits == w * i + j;
    res[i] := Or(res[i], Pow(2, j) % Base(w));
    EvalSingle(Base(w), Slice(res, 0, len), i);
  }

  lemma BitValue(w: nat, i: nat, j: nat)
    requires w > 0 && j < w
    ensures Pow(2, j) % Base(w) == Pow(2, j) < Base(w)
    ensures Pow(Base(w), i) * Pow(2, j) == Pow(2, w * i + j)
  {
    PowMonotonic(2, j + 1, w);
    PowPositive(2, j);
    DivModUnique(Pow(2, j), Base(w), 0, Pow(2, j));
    PowMul(2, w, i);
    PowAdd(2, w * i, j);
  }

  lemma BitFits(w: nat, len: nat, nBits: nat)
    requires w > 0 && Pow(2, nBits) < Pow(Base(w), len)
    ensures nBits < w * len && nBits / w < len
  {
    PowMul(2, w, len);
    if nBits >= w * len { PowMonotonic(2, w * len, nBits); }
    DivBound(nBits, w, len);
  }

  lemma DoubledMod(x: nat, n: nat)
    requires n > 0
    ensures (x % n + x % n) % n == (2 * x) % n
  {
    CongMod(x, n);
    CongAdd(x % n, x, x % n, x, n);
  }

  /** 2^(2 * w * len) mod n, from a power of two below n by doubling in place. */
  method BnPrecompR2(w: nat, len: nat, nBits: nat, n: array<nat>, res: array<nat>)
    requires w > 0 && len == n.Length == res.Length && n != res
    requires IsLimbs(Base(w), Slice(n, 0, len)) && Pow(2, nBits) < Val(Base(w), n, 0, len)
    modifies res
    ensures IsLimbs(Base(w), Slice(res, 0, len))
    ensures Val(Base(w), res, 0, len) == Pow(2, 2 * w * len) % Val(Base(w), n, 0, len)
  {
    ghost var B, nv := Base(w), Val(Base(w), n, 0, len);
    EvalBound(B, Slice(n, 0, len));
    BitFits(w, len, nBits);
    BnSetBit(w, len, nBits, res);
    DivModUnique(Pow(2, nBits), nv, 0, Pow(2, nBits));
    assert 2 * w * len == w * len + w * len;
    var i0 := 0;
    hide Eval, Pow, IsLimbs, Slice, Base;
    while i0 < 2 * w * len - nBits
      invariant 0 <= i0 <= 2 * w * len - nBits
      invariant IsLimbs(Base(w), Slice(n, 0, len)) && Val(Base(w), n, 0, len) == nv > 0
      invariant IsLimbs(Base(w), Slice(res, 0, len)) && Val(Base(w), res, 0, len) == Pow(2, nBits + i0) % nv
    {
      BnAddModN(w, len, n, res, 0, res, 0, res, 0);
      DoubledMod(Pow(2, nBits + i0), nv);
      PowSuccessor(2, nBits + i0);
      i0 := i0 + 1;
    }
  }
}
