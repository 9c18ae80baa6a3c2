/** Recursive Karatsuba multiplication and squaring on one shared scratch buffer. */
module Karatsuba {
  import opened Arith
  import opened Words
  import opened Limbs
  import opened Addition
  import opened Multiplication
  import opened Squaring

  // ---- branch-free selection of a whole bignum ----

  method SelectLoop(w: nat, m: nat, n: nat, x: array<nat>, xo: nat, y: array<nat>, yo: nat, res: array<nat>, ro: nat)
    requires m == 0 || m == Base(w) - 1
    requires xo + n <= x.Length && yo + n <= y.Length && ro + n <= res.Length
    requires SameOrApart(x, xo, res, ro, n) && SameOrApart(y, yo, res, ro, n)
    requires IsLimbs(Base(w), Slice(x, xo, n)) && IsLimbs(Base(w), Slice(y, yo, n))
    modifies res
    ensures Slice(res, ro, n) == old(if m == 0 then Slice(y, yo, n) else Slice(x, xo, n))
    ensures SameOutside(old(res[..]), res[..], ro, ro + n)
  {
    hide Base, Select;
    ghost var xs, ys, r0 := x[xo..xo + n], y[yo..yo + n], res[..];
    var i := 0;
    while i < n
      invariant 0 <= i <= n
      invariant forall k :: i <= k < n ==> x[xo + k] == xs[k] && y[yo + k] == ys[k]
      invariant forall k :: 0 <= k < i ==> res[ro + k] == if m == 0 then ys[k] else xs[k]
      invariant forall k :: 0 <= k < res.Length && !(ro <= k < ro + i) ==> res[k] == r0[k]
    {
      assert x[xo + i] == xs[i] && y[yo + i] == ys[i];
      SelectMask(w, m, xs[i], ys[i]);
      res[ro + i] := Select(w, m, x[xo + i], y[yo + i]);
      i := i + 1;
    }
  }

  /** `res[i] = (m & x[i]) | (~m & y[i])` for n limbs; res may be x or y. */
  method BnSelect(w: nat, m: nat, n: nat, x: array<nat>, xo: nat, y: array<nat>, yo: nat, res: array<nat>, ro: nat)
    requires m == 0 || m == Base(w) - 1
    requires xo + n <= x.Length && yo + n <= y.Length && ro + n <= res.Length
    requires SameOrApart(x, xo, res, ro, n) && SameOrApart(y, yo, res, ro, n)
    requires IsLimbs(Base(w), Slice(x, xo, n)) && IsLimbs(Base(w), Slice(y, yo, n))
    modifies res
    ensures Slice(res, ro, n) == old(if m == 0 then Slice(y, yo, n) else Slice(x, xo, n))
    ensures forall z: array<nat>, i: nat, k: nat {:trigger Slice(z, i, k)} ::
              old(allocated(z)) && Away(z, i, k, res, ro, n) ==> Slice(z, i, k) == old(Slice(z, i, k))
  {
    ghost var r0 := res[..];
    SelectLoop(w, m, n, x, xo, y, yo, res, ro);
    forall z: array<nat>, i: nat, k: nat | old(allocated(z)) && Away(z, i, k, res, ro, n)
      ensures Slice(z, i, k) == old(Slice(z, i, k))
    {
      AwayKept(z, i, k, res, r0, ro, n);
    }
  }

  // ---- |x - y| and its sign ----

  ghost function Signed(sign: nat, x: nat): int {
    if sign == 1 then x else 0 - x
  }

  ghost function AbsDiff(x: nat, y: nat): nat {
    if x < y then y - x else x - y
  }

  /**
   * x and y are n limbs of a each. Both differences are computed, one into the scratch at so and one
   * into to, and the borrow of the first selects the one that did not borrow.
   */
  method BnSignAbs(w: nat, n: nat, a: array<nat>, x: nat, y: nat, tmp: array<nat>, to: nat, so: nat) returns (c0: nat)
    requires w > 0 && x + n <= a.Length && y + n <= a.Length && to + n <= so && so + n <= tmp.Length
    requires Apart(a, x, n, tmp, to, n) && Apart(a, x, n, tmp, so, n) && Apart(a, y, n, tmp, to, n)
        && Apart(a, y, n, tmp, so, n)
    requires IsLimbs(Base(w), Slice(a, x, n)) && IsLimbs(Base(w), Slice(a, y, n))
    modifies tmp
    ensures c0 == if old(Val(Base(w), a, x, n)) < old(Val(Base(w), a, y, n)) then 1 else 0
    ensures IsLimbs(Base(w), Slice(tmp, to, n))
    ensures Val(Base(w), tmp, to, n) == AbsDiff(old(Val(Base(w), a, x, n)), old(Val(Base(w), a, y, n)))
    ensures forall z: array<nat>, i: nat, k: nat {:trigger Slice(z, i, k)} ::
              old(allocated(z)) && Away(z, i, k, tmp, to, n) && Away(z, i, k, tmp, so, n)
              ==> Slice(z, i, k) == old(Slice(z, i, k))
  {
    BaseAtLeastTwo(w);
    ghost var B := Base(w);
    ghost var xv, yv := Val(B, a, x, n), Val(B, a, y, n);
    hide Eval, Pow, Slice, IsLimbs, Base;
    c0 := BnSubEqLen(w, n, a, x, a, y, tmp, so);
    var c1 := BnSubEqLen(w, n, a, y, a, x, tmp, to);
    EvalBound(B, Slice(tmp, so, n)); EvalBound(B, Slice(tmp, to, n));
    SignOfBorrow(xv, yv, Pow(B, n), Val(B, tmp, so, n), c0, Val(B, tmp, to, n), c1);
    BnSelect(w, BitMask(w, c0), n, tmp, to, tmp, so, tmp, to);
  }

  lemma SignOfBorrow(x: nat, y: nat, p: nat, d: nat, c: nat, e: nat, c': nat)
    requires d < p && e < p && c <= 1 && c' <= 1
    requires d - Carry(c, p) == x - y && e - Carry(c', p) == y - x
    ensures c == if x < y then 1 else 0
    ensures (if c == 1 then e else d) == AbsDiff(x, y)
  {
  }

  // ---- the middle term ----

  /** t01 = r01 + r23, t67 = t01 - t23 and t45 = t01 + t23, each with its carry. */
  method KaratsubaSums(w: nat, n: nat, res: array<nat>, r01: nat, r23: nat, tmp: array<nat>, t01: nat, t23: nat,
                       t45: nat, t67: nat)
      returns (c2: nat, c3: nat, c4: nat, ghost v01: nat)
    requires w > 0 && r01 + n <= r23 && r23 + n <= res.Length
    requires t01 + n <= t23 && t23 + n <= t45 && t45 + n <= t67 && t67 + n <= tmp.Length
    requires Apart(res, r01, r23 + n - r01, tmp, t01, t67 + n - t01)
    requires IsLimbs(Base(w), Slice(res, r01, n)) && IsLimbs(Base(w), Slice(res, r23, n))
    requires IsLimbs(Base(w), Slice(tmp, t23, n))
    modifies tmp
    ensures c2 <= 1 && c3 <= 1 && c4 <= 1
    ensures IsLimbs(Base(w), Slice(tmp, t45, n)) && IsLimbs(Base(w), Slice(tmp, t67, n))
    ensures v01 + Carry(c2, Pow(Base(w), n)) == old(Val(Base(w), res, r01, n)) + old(Val(Base(w), res, r23, n))
    ensures Val(Base(w), tmp, t45, n) + Carry(c4, Pow(Base(w), n)) == v01 + old(Val(Base(w), tmp, t23, n))
    ensures Val(Base(w), tmp, t67, n) - Carry(c3, Pow(Base(w), n)) == v01 - old(Val(Base(w), tmp, t23, n))
    ensures forall x: array<nat>, i: nat, k: nat {:trigger Slice(x, i, k)} ::
              old(allocated(x)) && Away(x, i, k, tmp, t01, t67 + n - t01) ==> Slice(x, i, k) == old(Slice(x, i, k))
  {
    hide Eval, Pow, Slice, IsLimbs, Base, Carry;
    c2 := BnAddEqLen(w, n, res, r01, res, r23, tmp, t01);
    v01 := Val(Base(w), tmp, t01, n);
    c3 := BnSubEqLen(w, n, tmp, t01, tmp, t23, tmp, t67);
    c4 := BnAddEqLen(w, n, tmp, t01, tmp, t23, tmp, t45);
  }

  /**
   * From r01, r23 and t23 = |a0 - a1| * |b0 - b1| the middle term a0 * b1 + a1 * b0. Sum and difference are
   * both computed; the mask of the sign picks one.
   */
  method KaratsubaMiddle(w: nat, n: nat, cSign: nat, res: array<nat>, r01: nat, r23: nat, tmp: array<nat>, t01: nat,
                         t23: nat, t45: nat, t67: nat, ghost mid: nat)
      returns (c5: nat)
    requires w >= 2 && cSign <= 1 && r01 + n <= r23 && r23 + n <= res.Length
    requires t01 + n <= t23 && t23 + n <= t45 && t45 + n <= t67 && t67 + n <= tmp.Length
    requires Apart(res, r01, r23 + n - r01, tmp, t01, t67 + n - t01)
    requires IsLimbs(Base(w), Slice(res, r01, n)) && IsLimbs(Base(w), Slice(res, r23, n))
    requires IsLimbs(Base(w), Slice(tmp, t23, n))
    requires mid == Val(Base(w), res, r01, n) + Val(Base(w), res, r23, n) + Signed(cSign, Val(Base(w), tmp, t23, n))
    requires mid < 2 * Pow(Base(w), n)
    modifies tmp
    ensures c5 <= 1 && IsLimbs(Base(w), Slice(tmp, t45, n))
    ensures Val(Base(w), tmp, t45, n) + Carry(c5, Pow(Base(w), n)) == mid
    ensures forall x: array<nat>, i: nat, k: nat {:trigger Slice(x, i, k)} ::
              old(allocated(x)) && Away(x, i, k, tmp, t01, t67 + n - t01) ==> Slice(x, i, k) == old(Slice(x, i, k))
  {
    BaseAtLeastTwo(w);
    ghost var B, v23 := Base(w), Val(Base(w), tmp, t23, n);
    hide Eval, Pow, Slice, IsLimbs, Base;
    var c2, c3, c4;
    ghost var v01;
    c2, c3, c4, v01 := KaratsubaSums(w, n, res, r01, r23, tmp, t01, t23, t45, t67);
    ghost var sum, dif := Val(B, tmp, t45, n), Val(B, tmp, t67, n);
    EvalBound(B, Slice(tmp, t45, n)); EvalBound(B, Slice(tmp, t67, n));
    BnSelect(w, BitMask(w, cSign), n, tmp, t45, tmp, t67, tmp, t45);
    c5 := MiddleCarry(w, cSign, c2, c3, c4, Pow(B, n), mid, sum, dif, v01, v23);
  }

  /** The carry of the selected middle term; the one not selected may have wrapped around. */
  function MiddleCarry(w: nat, cSign: nat, c2: nat, c3: nat, c4: nat, ghost p: nat, ghost mid: nat, ghost sum: nat,
                       ghost dif: nat, ghost t01: nat, ghost t23: nat): (c5: nat)
    requires w >= 2 && cSign <= 1 && c2 <= 1 && c3 <= 1 && c4 <= 1 && sum < p && dif < p && mid < 2 * p
    requires sum + Carry(c4, p) == t01 + t23 && dif - Carry(c3, p) == t01 - t23
    requires mid == t01 + Carry(c2, p) + Signed(cSign, t23)
    ensures c5 <= 1 && (if cSign == 1 then sum else dif) + Carry(c5, p) == mid
  {
    BaseHalf(w); BaseHalf(w - 1);
    WrapSub(c2 - c3, Base(w));
    SelectMask(w, BitMask(w, cSign), c2 + c4, (c2 - c3) % Base(w));
    CarryOfMiddle(cSign, c2, c3, c4, p, mid, sum, dif, t01, t23);
    Select(w, BitMask(w, cSign), c2 + c4, (c2 - c3) % Base(w))
  }

  lemma CarryOfMiddle(cSign: nat, c2: nat, c3: nat, c4: nat, p: nat, mid: nat, sum: nat, dif: nat, t01: nat, t23: nat)
    requires cSign <= 1 && c2 <= 1 && c3 <= 1 && c4 <= 1 && sum < p && dif < p && mid < 2 * p
    requires sum + Carry(c4, p) == t01 + t23 && dif - Carry(c3, p) == t01 - t23
    requires mid == t01 + Carry(c2, p) + Signed(cSign, t23)
    ensures cSign == 1 ==> c2 + c4 <= 1 && sum + Carry(c2 + c4, p) == mid
    ensures cSign == 0 ==> 0 <= c2 - c3 <= 1 && dif + Carry(c2 - c3, p) == mid
  {
  }

  // ---- adding the middle term into the result ----

  lemma EvalThree(B: nat, s: seq<nat>, h: nat)
    requires |s| == 4 * h
    ensures Eval(B, s) == Eval(B, s[..h]) + Pow(B, h) * Eval(B, s[h..3 * h])
                          + Pow(B, h) * Pow(B, 2 * h) * Eval(B, s[3 * h..])
  {
    EvalSplit(B, s, 3 * h);
    EvalSplit(B, s[..3 * h], h);
    assert s[..3 * h][..h] == s[..h] && s[..3 * h][h..] == s[h..3 * h];
    PowAdd(B, h, 2 * h);
  }

  lemma CombineArith(p: nat, p2: nat, lo: nat, m: nat, m': nat, hi: nat, hi': nat, t: nat, c5: nat, c6: nat, c9: nat)
    requires c5 <= 1 && c6 <= 1 && c9 <= 1
    requires m' + Carry(c6, p2) == m + t && hi' + Carry(c9, p) == hi + (c5 + c6)
    ensures lo + p * m' + p * p2 * hi' + Carry(c9, p * p2 * p) == lo + p * m + p * p2 * hi + p * (t + Carry(c5, p2))
  {
    assert p * m' == p * m + p * t - p * Carry(c6, p2) by { MulDistrib(p, m + t, Carry(c6, p2)); MulDistrib(p, m, t); }
    var q := p * p2;
    assert q * hi' == q * hi + q * (c5 + c6) - q * Carry(c9, p) by {
      MulDistrib(q, hi + (c5 + c6), Carry(c9, p)); MulDistrib(q, hi, c5 + c6);
    }
    assert p * (t + Carry(c5, p2)) == p * t + p * Carry(c5, p2) by { MulDistrib(p, t, Carry(c5, p2)); }
    assert q * (c5 + c6) == p * Carry(c5, p2) + p * Carry(c6, p2) by { MulDistrib(q, c5, c6); }
  }

  /** The three parts of the result before and after: the middle term enters at limb h and no carry is lost. */
  lemma CombineParts(B: nat, h: nat, s: seq<nat>, s': seq<nat>, t: nat, c5: nat, c6: nat, c9: nat)
    requires |s| == |s'| == 4 * h && s'[..h] == s[..h] && c5 <= 1 && c6 <= 1 && c9 <= 1
    requires Eval(B, s'[h..3 * h]) + Carry(c6, Pow(B, 2 * h)) == Eval(B, s[h..3 * h]) + t
    requires Eval(B, s'[3 * h..]) + Carry(c9, Pow(B, h)) == Eval(B, s[3 * h..]) + (c5 + c6)
    requires Eval(B, s) + Prod(Pow(B, h), t + Carry(c5, Pow(B, 2 * h))) < Pow(B, 4 * h)
    ensures c9 == 0 && Eval(B, s') == Eval(B, s) + Prod(Pow(B, h), t + Carry(c5, Pow(B, 2 * h)))
  {
    hide Eval, Pow;
    EvalThree(B, s, h);
    EvalThree(B, s', h);
    var p, p2 := Pow(B, h), Pow(B, 2 * h);
    CombineArith(p, p2, Eval(B, s[..h]), Eval(B, s[h..3 * h]), Eval(B, s'[h..3 * h]),
                 Eval(B, s[3 * h..]), Eval(B, s'[3 * h..]), t, c5, c6, c9);
    PowAdd(B, h, 2 * h);
    PowAdd(B, 3 * h, h);
  }

  lemma ThreeParts(B: nat, s: seq<nat>, h: nat)
    requires |s| == 4 * h
    ensures s[0..h] == s[..h] && s[3 * h..4 * h] == s[3 * h..]
    ensures IsLimbs(B, s) <==> IsLimbs(B, s[..h]) && IsLimbs(B, s[h..3 * h]) && IsLimbs(B, s[3 * h..])
  {
    assert s == s[..h] + s[h..3 * h] + s[3 * h..];
  }

  /** The parts of a result of 4h limbs as the methods see them. */
  lemma Parts(B: nat, a: array<nat>, r: nat, h: nat)
    requires r + 4 * h <= a.Length
    ensures |Slice(a, r, 4 * h)| == 4 * h
    ensures Slice(a, r, h) == Slice(a, r, 4 * h)[..h]
    ensures Slice(a, r + h, 2 * h) == Slice(a, r, 4 * h)[h..3 * h]
    ensures Slice(a, r + 3 * h, h) == Slice(a, r, 4 * h)[3 * h..]
    ensures IsLimbs(B, Slice(a, r, 4 * h))
       <==> IsLimbs(B, Slice(a, r, h)) && IsLimbs(B, Slice(a, r + h, 2 * h)) && IsLimbs(B, Slice(a, r + 3 * h, h))
  {
    hide *;
    SliceInside(a, r, 4 * h, 0, h);
    SliceInside(a, r, 4 * h, h, 2 * h);
    SliceInside(a, r, 4 * h, 3 * h, h);
    ThreeParts(B, Slice(a, r, 4 * h), h);
  }

  /** Adds the middle term, 2h limbs at t45 and the carry c5, into the 4h limbs of the result at limb h. */
  method KaratsubaCombine(w: nat, h: nat, c5: nat, tmp: array<nat>, t45: nat, res: array<nat>, ro: nat, r0: nat, r: nat)
      returns (c9: nat)
    requires w >= 2 && h > 0 && c5 <= 1 && t45 + 2 * h <= tmp.Length && Apart(tmp, t45, 2 * h, res, ro, 4 * h)
    requires r0 == ro + h && r == ro + 3 * h && ro + 4 * h <= res.Length
    requires IsLimbs(Base(w), Slice(res, ro, 4 * h)) && IsLimbs(Base(w), Slice(tmp, t45, 2 * h))
    requires Val(Base(w), res, ro, 4 * h)
             + Prod(Pow(Base(w), h), Val(Base(w), tmp, t45, 2 * h)
                    + Carry(c5, Pow(Base(w), 2 * h))) < Pow(Base(w), 4 * h)
    modifies res
    ensures c9 == 0 && IsLimbs(Base(w), Slice(res, ro, 4 * h))
    ensures Val(Base(w), res, ro, 4 * h)
         == old(Val(Base(w), res, ro, 4 * h))
            + Prod(Pow(Base(w), h), old(Val(Base(w), tmp, t45, 2 * h)) + Carry(c5, Pow(Base(w), 2 * h)))
    ensures forall x: array<nat>, i: nat, k: nat {:trigger Slice(x, i, k)} ::
              old(allocated(x)) && Away(x, i, k, res, ro, 4 * h) ==> Slice(x, i, k) == old(Slice(x, i, k))
  {
    hide Eval, Pow, Slice, IsLimbs, Base, Prod, Carry;
    BaseHalf(w); BaseAtLeastTwo(w - 1);
    ghost var B, t := Base(w), Val(Base(w), tmp, t45, 2 * h);
    ghost var s := Slice(res, ro, 4 * h);
    Parts(B, res, ro, h);
    var c6 := BnAddEqLen(w, 2 * h, res, r0, tmp, t45, res, r0);
    var c7 := c5 + c6;
    c9 := BnAdd1(w, h, res, r, c7, res, r);
    Parts(B, res, ro, h);
    CombineParts(B, h, s, Slice(res, ro, 4 * h), t, c5, c6, c9);
  }

  // ---- the recursion ----

  ghost predicate Ranges(n: nat, a: array<nat>, ao: nat, b: array<nat>, bo: nat, tmp: array<nat>, to: nat,
                         res: array<nat>, ro: nat)
  {
    && to + 4 * n <= tmp.Length && ro + 2 * n <= res.Length
    && FreeOf(a, ao, n, res, ro, 2 * n, tmp, to, 4 * n)
    && FreeOf(b, bo, n, res, ro, 2 * n, tmp, to, 4 * n)
    && Apart(res, ro, 2 * n, tmp, to, 4 * n)
  }

  /** t0 = |a0 - a1| and t1 = |b0 - b1|; the result is the exclusive or of the two borrows. */
  method KaratsubaDiffs(w: nat, h: nat, a: array<nat>, a0: nat, a1: nat, b: array<nat>, b0: nat, b1: nat,
                        tmp: array<nat>, t0: nat, t1: nat, tmp_: nat) returns (cSign: nat)
    requires w >= 2 && t1 == t0 + h && tmp_ == t1 + h && tmp_ + h <= tmp.Length
    requires Away(a, a0, h, tmp, t0, 3 * h) && Away(a, a1, h, tmp, t0, 3 * h)
    requires Away(b, b0, h, tmp, t0, 3 * h) && Away(b, b1, h, tmp, t0, 3 * h)
    requires IsLimbs(Base(w), Slice(a, a0, h)) && IsLimbs(Base(w), Slice(a, a1, h))
    requires IsLimbs(Base(w), Slice(b, b0, h)) && IsLimbs(Base(w), Slice(b, b1, h))
    modifies tmp
    ensures IsLimbs(Base(w), Slice(tmp, t0, h)) && IsLimbs(Base(w), Slice(tmp, t1, h))
    ensures cSign == if old(Val(Base(w), a, a0, h) < Val(Base(w), a, a1, h))
                        == old(Val(Base(w), b, b0, h) < Val(Base(w), b, b1, h)) then 0 else 1
    ensures Val(Base(w), tmp, t0, h) == AbsDiff(old(Val(Base(w), a, a0, h)), old(Val(Base(w), a, a1, h)))
    ensures Val(Base(w), tmp, t1, h) == AbsDiff(old(Val(Base(w), b, b0, h)), old(Val(Base(w), b, b1, h)))
    ensures forall x: array<nat>, i: nat, k: nat {:trigger Slice(x, i, k)} ::
              old(allocated(x)) && Away(x, i, k, tmp, t0, 3 * h) ==> Slice(x, i, k) == old(Slice(x, i, k))
  {
    hide Eval, Pow, Base, IsLimbs, Slice, AbsDiff, Xor;
    var c00 := BnSignAbs(w, h, a, a0, a1, tmp, t0, tmp_);
    var c11 := BnSignAbs(w, h, b, b0, b1, tmp, t1, tmp_);
    cSign := Xor(c00, c11);
    XorBit(c00, c11);
  }

  /** t23 = t0 * t1, r01 = a0 * b0 and r23 = a1 * b1, with tmp1 as scratch. */
  method ThreeProducts(w: nat, h: nat, a: array<nat>, a0: nat, a1: nat, b: array<nat>, b0: nat, b1: nat,
                       tmp: array<nat>, t0: nat, t1: nat, t23: nat, tmp1: nat, res: array<nat>, r01: nat, r23: nat)
    requires w >= 2 && h > 0 && Ranges(2 * h, a, a0, b, b0, tmp, t0, res, r01)
    requires a1 == a0 + h && b1 == b0 + h && t1 == t0 + h && t23 == t1 + h && tmp1 == t23 + 2 * h && r23 == r01 + 2 * h
    requires IsLimbs(Base(w), Slice(a, a0, h)) && IsLimbs(Base(w), Slice(a, a1, h))
    requires IsLimbs(Base(w), Slice(b, b0, h)) && IsLimbs(Base(w), Slice(b, b1, h))
    requires IsLimbs(Base(w), Slice(tmp, t0, h)) && IsLimbs(Base(w), Slice(tmp, t1, h))
    modifies res, tmp
    ensures IsLimbs(Base(w), Slice(tmp, t23, 2 * h))
    ensures IsLimbs(Base(w), Slice(res, r01, 2 * h)) && IsLimbs(Base(w), Slice(res, r23, 2 * h))
    ensures Val(Base(w), tmp, t23, 2 * h) == Prod(old(Val(Base(w), tmp, t0, h)), old(Val(Base(w), tmp, t1, h)))
    ensures Val(Base(w), res, r01, 2 * h) == Prod(old(Val(Base(w), a, a0, h)), old(Val(Base(w), b, b0, h)))
    ensures Val(Base(w), res, r23, 2 * h) == Prod(old(Val(Base(w), a, a1, h)), old(Val(Base(w), b, b1, h)))
    ensures forall x: array<nat>, i: nat, k: nat {:trigger Slice(x, i, k)} ::
              old(allocated(x)) && FreeOf(x, i, k, res, r01, 4 * h, tmp, t23, 6 * h)
              ==> Slice(x, i, k) == old(Slice(x, i, k))
    decreases 2 * h, 0
  {
    hide Eval, Pow, Base, IsLimbs, Slice, Prod;
    BnKaratsubaMul(w, h, tmp, t0, tmp, t1, tmp, tmp1, tmp, t23);
    BnKaratsubaMul(w, h, a, a0, b, b0, tmp, tmp1, res, r01);
    BnKaratsubaMul(w, h, a, a1, b, b1, tmp, tmp1, res, r23);
  }

  /** The integer identity behind Karatsuba, with the bounds that make every carry fit. */
  lemma KaratsubaIdentity(a0: nat, a1: nat, b0: nat, b1: nat, p: nat, cSign: nat)
    requires a0 < p && a1 < p && b0 < p && b1 < p
    requires cSign == if (a0 < a1) == (b0 < b1) then 0 else 1
    ensures var mid := a0 * b1 + a1 * b0;
            && mid == Prod(a0, b0) + Prod(a1, b1) + Signed(cSign, Prod(AbsDiff(a0, a1), AbsDiff(b0, b1)))
            && 0 <= mid < 2 * (p * p)
            && Prod(a0, b0) + p * p * Prod(a1, b1) + p * mid == (a0 + p * a1) * (b0 + p * b1)
  {
    DifferenceProduct(a0, a1, b0, b1);
    SignedProduct(a0 - a1, b0 - b1);
    ProductRoom(a0, b1, p);
    ProductRoom(a1, b0, p);
    KaratsubaExpand(a0, a1, b0, b1, p);
  }

  lemma DifferenceProduct(a0: nat, a1: nat, b0: nat, b1: nat)
    ensures (a0 - a1) * (b0 - b1) == a0 * b0 + a1 * b1 - a0 * b1 - a1 * b0
  {
  }

  lemma ProductRoom(x: nat, y: nat, p: nat)
    requires x < p && y < p
    ensures 0 <= x * y < p * p
  {
  }

  lemma SignedProduct(x: int, y: int)
    ensures x * y == (if (x < 0) == (y < 0) then 1 else -1)
                     * ((if x < 0 then 0 - x else x) * (if y < 0 then 0 - y else y))
  {
  }

  lemma KaratsubaExpand(a0: nat, a1: nat, b0: nat, b1: nat, p: nat)
    ensures a0 * b0 + p * p * (a1 * b1) + p * (a0 * b1 + a1 * b0) == (a0 + p * a1) * (b0 + p * b1)
  {
    var q := p * b1;
    assert (a0 + p * a1) * (b0 + q) == a0 * b0 + a0 * q + p * a1 * b0 + p * a1 * q;
    assert a0 * q == p * (a0 * b1) by { MulAssoc(a0, p, b1); MulAssoc(p, a0, b1); }
    assert p * a1 * b0 == p * (a1 * b0) by { MulAssoc(p, a1, b0); }
    assert p * a1 * q == p * p * (a1 * b1) by {
      calc {
        p * a1 * q;
        { MulAssoc(p, a1, q); }
        p * (a1 * (p * b1));
        { MulAssoc(a1, p, b1); MulAssoc(p, a1, b1); }
        p * (p * (a1 * b1));
        { MulAssoc(p, p, a1 * b1); }
        p * p * (a1 * b1);
      }
    }
    MulDistrib(p, a0 * b1, a1 * b0);
  }

  lemma TwoHalves(B: nat, a: array<nat>, r: nat, h: nat)
    requires r + 2 * h <= a.Length
    ensures Val(B, a, r, 2 * h) == Val(B, a, r, h) + Prod(Pow(B, h), Val(B, a, r + h, h))
    ensures IsLimbs(B, Slice(a, r, 2 * h)) <==> IsLimbs(B, Slice(a, r, h)) && IsLimbs(B, Slice(a, r + h, h))
  {
    hide Eval, Pow;
    var s := Slice(a, r, 2 * h);
    assert Slice(a, r, h) == s[..h] && Slice(a, r + h, h) == s[h..];
    assert s == s[..h] + s[h..];
    EvalSplit(B, s, h);
  }

  /** The result before the middle term is added, and the bounds the addition needs. */
  lemma SplitArith(p: nat, a0: nat, a1: nat, b0: nat, b1: nat, cSign: nat, v: nat, r01: nat,
                   r23: nat) returns (mid: nat)
    requires a0 < p && a1 < p && b0 < p && b1 < p
    requires cSign == if (a0 < a1) == (b0 < b1) then 0 else 1
    requires r01 == Prod(a0, b0) && r23 == Prod(a1, b1) && v == r01 + Prod(Prod(p, p), r23)
    ensures mid == r01 + r23 + Signed(cSign, Prod(AbsDiff(a0, a1), AbsDiff(b0, b1)))
    ensures mid < 2 * Prod(p, p)
    ensures v + Prod(p, mid) == Prod(a0 + Prod(p, a1), b0 + Prod(p, b1)) < Prod(Prod(p, p), Prod(p, p))
  {
    mid := Prod(a0, b1) + Prod(a1, b0);
    KaratsubaIdentity(a0, a1, b0, b1, p, cSign);
    BoundSplit(a0, a1, p);
    BoundSplit(b0, b1, p);
    ProductBound(a0 + Prod(p, a1), b0 + Prod(p, b1), Prod(p, p));
  }

  lemma BoundSplit(x0: nat, x1: nat, p: nat)
    requires x0 < p && x1 < p
    ensures x0 + Prod(p, x1) < Prod(p, p)
  {
    MulLe(x1, p - 1, p);
    MulDistrib(p, p, 1);
  }

  lemma PowSquares(B: nat, h: nat)
    ensures Pow(B, 2 * h) == Prod(Pow(B, h), Pow(B, h))
    ensures Pow(B, 4 * h) == Prod(Pow(B, 2 * h), Pow(B, 2 * h))
  {
    PowAdd(B, h, h);
    PowAdd(B, 2 * h, 2 * h);
  }

  lemma ProductBound(x: nat, y: nat, q: nat)
    requires x < q && y < q
    ensures x * y < q * q
  {
  }

  /** The sign, t23 = |a0 - a1| * |b0 - b1|, and the outer products in the two halves of the result. */
  method KaratsubaProducts(w: nat, h: nat, a: array<nat>, ao: nat, b: array<nat>, bo: nat, tmp: array<nat>, to: nat,
                           t23: nat, res: array<nat>, ro: nat, r23: nat)
      returns (cSign: nat)
    requires w >= 2 && h > 0 && Ranges(2 * h, a, ao, b, bo, tmp, to, res, ro) && t23 == to + 2 * h && r23 == ro + 2 * h
    requires IsLimbs(Base(w), Slice(a, ao, h)) && IsLimbs(Base(w), Slice(a, ao + h, h))
    requires IsLimbs(Base(w), Slice(b, bo, h)) && IsLimbs(Base(w), Slice(b, bo + h, h))
    modifies res, tmp
    ensures cSign == if old(Val(Base(w), a, ao, h) < Val(Base(w), a, ao + h, h))
                        == old(Val(Base(w), b, bo, h) < Val(Base(w), b, bo + h, h)) then 0 else 1
    ensures IsLimbs(Base(w), Slice(tmp, t23, 2 * h))
    ensures IsLimbs(Base(w), Slice(res, ro, 2 * h)) && IsLimbs(Base(w), Slice(res, r23, 2 * h))
    ensures Val(Base(w), tmp, t23, 2 * h) == Prod(AbsDiff(old(Val(Base(w), a, ao, h)), old(Val(Base(w), a, ao + h, h))),
                                                  AbsDiff(old(Val(Base(w), b, bo, h)), old(Val(Base(w), b, bo + h, h))))
    ensures Val(Base(w), res, ro, 2 * h) == Prod(old(Val(Base(w), a, ao, h)), old(Val(Base(w), b, bo, h)))
    ensures Val(Base(w), res, r23, 2 * h) == Prod(old(Val(Base(w), a, ao + h, h)), old(Val(Base(w), b, bo + h, h)))
    ensures forall x: array<nat>, i: nat, k: nat {:trigger Slice(x, i, k)} ::
              old(allocated(x)) && FreeOf(x, i, k, res, ro, 4 * h, tmp, to, 8 * h)
              ==> Slice(x, i, k) == old(Slice(x, i, k))
    decreases 2 * h, 1
  {
    hide Eval, Pow, Base, IsLimbs, Slice, Prod, AbsDiff;
    cSign := KaratsubaDiffs(w, h, a, ao, ao + h, b, bo, bo + h, tmp, to, to + h, t23);
    ThreeProducts(w, h, a, ao, ao + h, b, bo, bo + h, tmp, to, to + h, t23, to + 4 * h, res, ro, r23);
  }

  /** The middle term is formed in the scratch and added into the result. */
  method KaratsubaFinish(w: nat, h: nat, cSign: nat, tmp: array<nat>, to: nat, t23: nat, t45: nat, t67: nat,
                         res: array<nat>, ro: nat, r23: nat, ghost mid: nat)
    requires w >= 2 && h > 0 && cSign <= 1 && t23 == to + 2 * h && t45 == t23 + 2 * h && t67 == t45 + 2 * h
        && t67 + 2 * h <= tmp.Length
    requires r23 == ro + 2 * h && ro + 4 * h <= res.Length && Apart(res, ro, 4 * h, tmp, to, 8 * h)
    requires IsLimbs(Base(w), Slice(res, ro, 2 * h)) && IsLimbs(Base(w), Slice(res, r23, 2 * h))
    requires IsLimbs(Base(w), Slice(tmp, t23, 2 * h))
    requires mid == Val(Base(w), res, ro, 2 * h) + Val(Base(w), res, r23, 2 * h)
        + Signed(cSign, Val(Base(w), tmp, t23, 2 * h))
    requires mid < 2 * Pow(Base(w), 2 * h)
    requires Val(Base(w), res, ro, 4 * h) + Prod(Pow(Base(w), h), mid) < Pow(Base(w), 4 * h)
    modifies res, tmp
    ensures IsLimbs(Base(w), Slice(res, ro, 4 * h))
    ensures Val(Base(w), res, ro, 4 * h) == old(Val(Base(w), res, ro, 4 * h)) + Prod(Pow(Base(w), h), mid)
    ensures forall x: array<nat>, i: nat, k: nat {:trigger Slice(x, i, k)} ::
              old(allocated(x)) && FreeOf(x, i, k, res, ro, 4 * h, tmp, to, 8 * h)
              ==> Slice(x, i, k) == old(Slice(x, i, k))
  {
    TwoHalves(Base(w), res, ro, 2 * h);
    hide Eval, Pow, Base, IsLimbs, Slice, Prod, Signed, Carry;
    var c5 := KaratsubaMiddle(w, 2 * h, cSign, res, ro, r23, tmp, to, t23, t45, t67, mid);
    var c9 := KaratsubaCombine(w, h, c5, tmp, t45, res, ro, ro + h, ro + 3 * h);
  }

  /** One level of the recursion on 2h limbs. */
  method KaratsubaSplit(w: nat, h: nat, a: array<nat>, ao: nat, b: array<nat>, bo: nat, tmp: array<nat>, to: nat,
                        res: array<nat>, ro: nat)
    requires w >= 2 && h > 0 && Ranges(2 * h, a, ao, b, bo, tmp, to, res, ro)
    requires IsLimbs(Base(w), Slice(a, ao, 2 * h)) && IsLimbs(Base(w), Slice(b, bo, 2 * h))
    modifies res, tmp
    ensures IsLimbs(Base(w), Slice(res, ro, 4 * h))
    ensures Val(Base(w), res, ro, 4 * h) == Prod(old(Val(Base(w), a, ao, 2 * h)), old(Val(Base(w), b, bo, 2 * h)))
    ensures forall x: array<nat>, i: nat, k: nat {:trigger Slice(x, i, k)} ::
              old(allocated(x)) && FreeOf(x, i, k, res, ro, 4 * h, tmp, to, 8 * h)
              ==> Slice(x, i, k) == old(Slice(x, i, k))
    decreases 2 * h, 2
  {
    hide Eval, Pow, Base, IsLimbs, Slice, Prod, AbsDiff, Signed, Carry;
    ghost var B := Base(w);
    TwoHalves(B, a, ao, h);
    TwoHalves(B, b, bo, h);
    ghost var a0, a1, b0, b1 := Val(B, a, ao, h), Val(B, a, ao + h, h), Val(B, b, bo, h), Val(B, b, bo + h, h);
    ValBound(B, a, ao, h); ValBound(B, a, ao + h, h); ValBound(B, b, bo, h); ValBound(B, b, bo + h, h);
    var t23, t45, t67, r23 := to + 2 * h, to + 4 * h, to + 6 * h, ro + 2 * h;
    var cSign := KaratsubaProducts(w, h, a, ao, b, bo, tmp, to, t23, res, ro, r23);
    TwoHalves(B, res, ro, 2 * h);
    PowSquares(B, h);
    ghost var mid := SplitArith(Pow(B, h), a0, a1, b0, b1, cSign, Val(B, res, ro, 4 * h), Val(B, res, ro, 2 * h),
                                Val(B, res, r23, 2 * h));
    KaratsubaFinish(w, h, cSign, tmp, to, t23, t45, t67, res, ro, r23, mid);
  }

  /** res = a * b for n limbs each, with 4n limbs of scratch. */
  method BnKaratsubaMul(w: nat, n: nat, a: array<nat>, ao: nat, b: array<nat>, bo: nat, tmp: array<nat>, to: nat,
                        res: array<nat>, ro: nat)
    requires w >= 2 && Ranges(n, a, ao, b, bo, tmp, to, res, ro)
    requires IsLimbs(Base(w), Slice(a, ao, n)) && IsLimbs(Base(w), Slice(b, bo, n))
    modifies res, tmp
    ensures IsLimbs(Base(w), Slice(res, ro, 2 * n))
    ensures Val(Base(w), res, ro, 2 * n) == Prod(old(Val(Base(w), a, ao, n)), old(Val(Base(w), b, bo, n)))
    ensures forall x: array<nat>, i: nat, k: nat {:trigger Slice(x, i, k)} ::
              old(allocated(x)) && FreeOf(x, i, k, res, ro, 2 * n, tmp, to, 4 * n)
              ==> Slice(x, i, k) == old(Slice(x, i, k))
    decreases n, 3
  {
    hide Eval, Pow, Base, IsLimbs, Slice;
    if n < 32 || n % 2 == 1 {
      BnMul(w, n, a, ao, n, b, bo, res, ro);
      return;
    }
    var len2 := n / 2;
    KaratsubaSplit(w, len2, a, ao, b, bo, tmp, to, res, ro);
  }

  // ---- squaring ----

  /** t0 = |a0 - a1|, t23 = t0 * t0, and the squares of the halves in the two halves of the result. */
  method KaratsubaSquares(w: nat, h: nat, a: array<nat>, ao: nat, tmp: array<nat>, to: nat, t23: nat, tmp1: nat,
                          res: array<nat>, ro: nat, r23: nat)
    requires w >= 2 && h > 0 && Ranges(2 * h, a, ao, a, ao, tmp, to, res, ro)
    requires t23 == to + 2 * h && tmp1 == t23 + 2 * h && r23 == ro + 2 * h
    requires IsLimbs(Base(w), Slice(a, ao, h)) && IsLimbs(Base(w), Slice(a, ao + h, h))
    modifies res, tmp
    ensures IsLimbs(Base(w), Slice(tmp, t23, 2 * h))
    ensures IsLimbs(Base(w), Slice(res, ro, 2 * h)) && IsLimbs(Base(w), Slice(res, r23, 2 * h))
    ensures Val(Base(w), tmp, t23, 2 * h) == Prod(AbsDiff(old(Val(Base(w), a, ao, h)), old(Val(Base(w), a, ao + h, h))),
                                                  AbsDiff(old(Val(Base(w), a, ao, h)), old(Val(Base(w), a, ao + h, h))))
    ensures Val(Base(w), res, ro, 2 * h) == Prod(old(Val(Base(w), a, ao, h)), old(Val(Base(w), a, ao, h)))
    ensures Val(Base(w), res, r23, 2 * h) == Prod(old(Val(Base(w), a, ao + h, h)), old(Val(Base(w), a, ao + h, h)))
    ensures forall x: array<nat>, i: nat, k: nat {:trigger Slice(x, i, k)} ::
              old(allocated(x)) && FreeOf(x, i, k, res, ro, 4 * h, tmp, to, 8 * h)
              ==> Slice(x, i, k) == old(Slice(x, i, k))
    decreases 2 * h, 1
  {
    hide Eval, Pow, Base, IsLimbs, Slice, Prod, AbsDiff;
    var c0 := BnSignAbs(w, h, a, ao, ao + h, tmp, to, t23);
    BnKaratsubaSqr(w, h, tmp, to, tmp, tmp1, tmp, t23);
    HalfSquares(w, h, a, ao, tmp, tmp1, res, ro, r23);
  }

  /** The squares of the two halves. */
  method HalfSquares(w: nat, h: nat, a: array<nat>, ao: nat, tmp: array<nat>, tmp1: nat, res: array<nat>, ro: nat,
                     r23: nat)
    requires w >= 2 && h > 0 && r23 == ro + 2 * h && tmp1 + 4 * h <= tmp.Length && ro + 4 * h <= res.Length
    requires FreeOf(a, ao, 2 * h, res, ro, 4 * h, tmp, tmp1, 4 * h) && Apart(res, ro, 4 * h, tmp, tmp1, 4 * h)
    requires IsLimbs(Base(w), Slice(a, ao, h)) && IsLimbs(Base(w), Slice(a, ao + h, h))
    modifies res, tmp
    ensures IsLimbs(Base(w), Slice(res, ro, 2 * h)) && IsLimbs(Base(w), Slice(res, r23, 2 * h))
    ensures Val(Base(w), res, ro, 2 * h) == Prod(old(Val(Base(w), a, ao, h)), old(Val(Base(w), a, ao, h)))
    ensures Val(Base(w), res, r23, 2 * h) == Prod(old(Val(Base(w), a, ao + h, h)), old(Val(Base(w), a, ao + h, h)))
    ensures forall x: array<nat>, i: nat, k: nat {:trigger Slice(x, i, k)} ::
              old(allocated(x)) && FreeOf(x, i, k, res, ro, 4 * h, tmp, tmp1, 4 * h)
              ==> Slice(x, i, k) == old(Slice(x, i, k))
    decreases 2 * h, 0
  {
    hide Eval, Pow, Base, IsLimbs, Slice, Prod;
    BnKaratsubaSqr(w, h, a, ao, tmp, tmp1, res, ro);
    BnKaratsubaSqr(w, h, a, ao + h, tmp, tmp1, res, r23);
  }

  /** For a square the middle term is r01 + r23 - t23, without a sign to select. */
  method SquareMiddle(w: nat, n: nat, res: array<nat>, r01: nat, r23: nat, tmp: array<nat>, t01: nat, t23: nat,
                      t45: nat, ghost mid: nat) returns (c5: nat)
    requires w >= 2 && r01 + n <= r23 && r23 + n <= res.Length
    requires t01 + n <= t23 && t23 + n <= t45 && t45 + n <= tmp.Length
    requires Apart(res, r01, r23 + n - r01, tmp, t01, t45 + n - t01)
    requires IsLimbs(Base(w), Slice(res, r01, n)) && IsLimbs(Base(w), Slice(res, r23, n))
    requires IsLimbs(Base(w), Slice(tmp, t23, n))
    requires mid == Val(Base(w), res, r01, n) + Val(Base(w), res, r23, n) - Val(Base(w), tmp, t23, n)
    requires mid < 2 * Pow(Base(w), n)
    modifies tmp
    ensures c5 <= 1 && IsLimbs(Base(w), Slice(tmp, t45, n))
    ensures Val(Base(w), tmp, t45, n) + Carry(c5, Pow(Base(w), n)) == mid
    ensures forall x: array<nat>, i: nat, k: nat {:trigger Slice(x, i, k)} ::
              old(allocated(x)) && Away(x, i, k, tmp, t01, t45 + n - t01) ==> Slice(x, i, k) == old(Slice(x, i, k))
  {
    hide Eval, Pow, Slice, IsLimbs, Base;
    ghost var B, v23 := Base(w), Val(Base(w), tmp, t23, n);
    BaseAtLeastTwo(w);
    var c2 := BnAddEqLen(w, n, res, r01, res, r23, tmp, t01);
    ghost var v01 := Val(B, tmp, t01, n);
    var c3 := BnSubEqLen(w, n, tmp, t01, tmp, t23, tmp, t45);
    ValBound(B, tmp, t45, n);
    NoWrap(w, c2, c3, Pow(B, n), mid, Val(B, tmp, t45, n), v01, v23);
    c5 := (c2 - c3) % Base(w);
  }

  lemma NoWrap(w: nat, c2: nat, c3: nat, p: nat, mid: nat, dif: nat, t01: nat, t23: nat)
    requires w > 0 && c2 <= 1 && c3 <= 1 && dif < p && mid < 2 * p
    requires dif - Carry(c3, p) == t01 - t23 && mid == t01 + Carry(c2, p) - t23
    ensures (c2 - c3) % Base(w) == c2 - c3 && 0 <= c2 - c3 <= 1 && dif + Carry(c2 - c3, p) == mid
  {
    BaseAtLeastTwo(w);
    WrapSub(c2 - c3, Base(w));
  }

  method KaratsubaSqrSplit(w: nat, h: nat, a: array<nat>, ao: nat, tmp: array<nat>, to: nat, res: array<nat>, ro: nat)
    requires w >= 2 && h > 0 && Ranges(2 * h, a, ao, a, ao, tmp, to, res, ro)
    requires IsLimbs(Base(w), Slice(a, ao, 2 * h))
    modifies res, tmp
    ensures IsLimbs(Base(w), Slice(res, ro, 4 * h))
    ensures Val(Base(w), res, ro, 4 * h) == Prod(old(Val(Base(w), a, ao, 2 * h)), old(Val(Base(w), a, ao, 2 * h)))
    ensures forall x: array<nat>, i: nat, k: nat {:trigger Slice(x, i, k)} ::
              old(allocated(x)) && FreeOf(x, i, k, res, ro, 4 * h, tmp, to, 8 * h)
              ==> Slice(x, i, k) == old(Slice(x, i, k))
    decreases 2 * h, 2
  {
    hide Eval, Pow, Base, IsLimbs, Slice, Prod, AbsDiff, Carry;
    ghost var B := Base(w);
    TwoHalves(B, a, ao, h);
    ghost var a0, a1 := Val(B, a, ao, h), Val(B, a, ao + h, h);
    ValBound(B, a, ao, h); ValBound(B, a, ao + h, h);
    ghost var mid;
    var t23, t45, r23 := to + 2 * h, to + 4 * h, ro + 2 * h;
    KaratsubaSquares(w, h, a, ao, tmp, to, t23, t45, res, ro, r23);
    TwoHalves(B, res, ro, 2 * h);
    PowSquares(B, h);
    mid := SplitArith(Pow(B, h), a0, a1, a0, a1, 0, Val(B, res, ro, 4 * h), Val(B, res, ro, 2 * h),
                      Val(B, res, r23, 2 * h));
    var c5 := SquareMiddle(w, 2 * h, res, ro, r23, tmp, to, t23, t45, mid);
    TwoHalves(B, res, ro, 2 * h);
    var c9 := KaratsubaCombine(w, h, c5, tmp, t45, res, ro, ro + h, ro + 3 * h);
  }

  /** res = a * a: the same value as BnKaratsubaMul of a with itself. */
  method BnKaratsubaSqr(w: nat, n: nat, a: array<nat>, ao: nat, tmp: array<nat>, to: nat, res: array<nat>, ro: nat)
    requires w >= 2 && Ranges(n, a, ao, a, ao, tmp, to, res, ro)
    requires IsLimbs(Base(w), Slice(a, ao, n))
    modifies res, tmp
    ensures IsLimbs(Base(w), Slice(res, ro, 2 * n))
    ensures Val(Base(w), res, ro, 2 * n) == Prod(old(Val(Base(w), a, ao, n)), old(Val(Base(w), a, ao, n)))
    ensures forall x: array<nat>, i: nat, k: nat {:trigger Slice(x, i, k)} ::
              old(allocated(x)) && FreeOf(x, i, k, res, ro, 2 * n, tmp, to, 4 * n)
              ==> Slice(x, i, k) == old(Slice(x, i, k))
    decreases n, 3
  {
    hide Eval, Pow, Base, IsLimbs, Slice;
    if n < 32 || n % 2 == 1 {
      BnSqr(w, n, a, ao, res, ro);
      return;
    }
    var len2 := n / 2;
    KaratsubaSqrSplit(w, len2, a, ao, tmp, to, res, ro);
  }
}
