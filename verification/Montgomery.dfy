/** Montgomery and "almost Montgomery" reduction, Hacl_Bignum_Montgomery and bn_almost_mont_*. */
module Montgomery {
  import opened Arith
  import opened Words
  import opened Limbs
  import opened Addition
  import opened Multiplication
  import opened Karatsuba
  import opened ModArith

  // ---- the reduction loop ----

  /**
   * After i rows the buffer, with the carry c0 above limb len + i, holds c + n * q and its low i limbs are zero.
   */
  ghost predicate Reducing(B: nat, len: nat, nv: nat, cv: nat, cs: seq<nat>, i: nat, c0: nat, q: nat) {
    && |cs| == 2 * len && IsLimbs(B, cs) && i <= len && c0 <= 1 && q < Pow(B, i)
    && (forall k :: 0 <= k < i ==> cs[k] == 0)
    && Eval(B, cs) + Carry(c0, Pow(B, len + i)) == cv + Prod(nv, q)
  }

  /** Adding d to the n limbs from i on, with the carry word c1 out of them. */
  lemma RowInside(B: nat, n: nat, i: nat, d: nat, c1: nat, cs: seq<nat>, cs': seq<nat>)
    requires i + n <= |cs| && SameOutside(cs, cs', i, i + n)
    requires Eval(B, cs'[i..i + n]) + c1 * Pow(B, n) == Eval(B, cs[i..i + n]) + d
    ensures Eval(B, cs') + Prod(Pow(B, i + n), c1) == Eval(B, cs) + Prod(Pow(B, i), d)
  {
    hide Eval, Pow;
    var p := Pow(B, n);
    EvalSplit(B, cs[i..], n);
    EvalSplit(B, cs'[i..], n);
    assert cs[i..][..n] == cs[i..i + n] && cs'[i..][..n] == cs'[i..i + n];
    assert cs[i..][n..] == cs[i + n..] && cs'[i..][n..] == cs'[i + n..];
    EvalReplaceHigh(B, i, d - c1 * p, cs, cs');
    PowAdd(B, i, n);
    MulDistrib(Pow(B, i), d, c1 * p);
    MulAssoc(Pow(B, i), p, c1);
  }

  lemma EvalUpdate(B: nat, s: seq<nat>, k: nat, v: nat)
    requires k < |s|
    ensures Eval(B, s[k := v]) == Eval(B, s) + Pow(B, k) * (v - s[k])
  {
    var t := s[k := v];
    assert t[..k] == s[..k];
    assert t[k..][1..] == s[k..][1..];
    EvalReplaceHigh(B, k, v - s[k], s, t);
  }

  lemma CancelFactor(B: nat, m: nat, nInv: nat, x: nat, q: nat)
    requires B > 1 && (1 + m * nInv) % B == 0 && q == nInv * x % B
    ensures Cong(x + q * m, 0, B)
  {
    CongMod(nInv * x, B);
    CongMul(q, nInv * x, m, m, B);
    DivModUnique(0, B, 0, 0);
    CongMul(1 + m * nInv, 0, x, x, B);
    assert (1 + m * nInv) * x == x + nInv * x * m by {
      MulDistrib(x, 1, m * nInv); MulAssoc(x, m, nInv); MulAssoc(nInv, x, m);
    }
    CongAdd(x, x, q * m, nInv * x * m, B);
  }

  lemma PowDivides(B: nat, n: nat, c: nat)
    requires B > 0 && n > 0
    ensures Cong(c * Pow(B, n), 0, B)
  {
    assert c * (B * Pow(B, n - 1)) == (c * Pow(B, n - 1)) * B by { MulAssoc(c, Pow(B, n - 1), B); }
    CongIntro(c * Pow(B, n), 0, c * Pow(B, n - 1), B);
  }

  /** The factor q = nInv * c[i] cancels the lowest limb. */
  lemma LowLimbCancels(B: nat, ns: seq<nat>, cs: seq<nat>, cs': seq<nat>, nInv: nat, q: nat, c1: nat)
    requires B > 1 && |ns| == |cs| == |cs'| > 0 && IsLimbs(B, cs') && (1 + ns[0] * nInv) % B == 0
    requires q == nInv * cs[0] % B
    requires Eval(B, cs') + c1 * Pow(B, |ns|) == Eval(B, cs) + q * Eval(B, ns)
    ensures cs'[0] == 0
  {
    assert cs'[0] < B;
    hide *;
    EvalLow(B, cs'); EvalLow(B, cs); EvalLow(B, ns);
    PowDivides(B, |ns|, c1);
    LowLimbZero(B, Eval(B, cs'), cs'[0], Eval(B, cs), cs[0], q, Eval(B, ns), ns[0], nInv, c1 * Pow(B, |ns|));
  }

  lemma LowLimbZero(B: nat, e': nat, x': nat, e: nat, x: nat, q: nat, en: nat, m: nat, nInv: nat, u: nat)
    requires B > 1 && x' < B && Cong(e', x', B) && Cong(e, x, B) && Cong(en, m, B) && Cong(u, 0, B)
    requires (1 + m * nInv) % B == 0 && q == nInv * x % B && e' + u == e + q * en
    ensures x' == 0
  {
    hide *;
    CancelFactor(B, m, nInv, x, q);
    CongZero(B, e', x', e, x, q * en, q, en, m, u);
  }

  lemma CongZero(B: nat, e': nat, x': nat, e: nat, x: nat, t: nat, q: nat, en: nat, m: nat, u: nat)
    requires B > 1 && x' < B && Cong(e', x', B) && Cong(e, x, B) && Cong(en, m, B) && t == q * en
    requires Cong(u, 0, B) && Cong(x + q * m, 0, B) && e' + u == e + t
    ensures x' == 0
  {
    CongMul(q, q, en, m, B);
    CongAdd(e, x, t, q * m, B);
    CongAdd(e + t, 0, u, 0, B);
    assert e' == e + t - u;
    DivModUnique(x', B, 0, x');
    DivModUnique(0, B, 0, 0);
  }

  /** The arithmetic of one row: the carry word, the limb above and the carry bit are added once each. */
  lemma ReduceArith(B: nat, pi: nat, pl: nat, e: nat, e1: nat, e2: nat, cv: nat, nv: nat, q: nat, qj: nat, c0: nat,
                    c1: nat, c0': nat, x: nat, v: nat)
    requires c0 <= 1 && c0' <= 1 && e + Carry(c0, pl) == cv + Prod(nv, q)
    requires e1 + Prod(pl, c1) == e + Prod(pi, qj * nv)
    requires e2 == e1 + pl * (v - x) && v + c0' * B == c1 + x + c0
    ensures e2 + Carry(c0', B * pl) == cv + Prod(nv, q + Prod(pi, qj))
  {
    assert pl * (v - x) == pl * c1 + pl * c0 - pl * (c0' * B) by {
      assert v - x == c1 + c0 - c0' * B;
      MulDistrib(pl, c1 + c0, c0' * B); MulDistrib(pl, c1, c0);
    }
    assert pl * (c0' * B) == Carry(c0', B * pl);
    assert pi * (qj * nv) == nv * (pi * qj) by { MulAssoc(pi, qj, nv); }
    MulDistrib(nv, q, pi * qj);
  }

  lemma QuotientBound(p: nat, B: nat, q: nat, qj: nat)
    requires q < p && qj < B
    ensures q + Prod(p, qj) < B * p
  {
    MulLe(qj, B - 1, p);
    MulDistrib(p, B, 1);
  }

  lemma ReducingValue(B: nat, n: nat, nv: nat, cv: nat, cs: seq<nat>, cs1: seq<nat>, i: nat, c0: nat, q: nat, qj: nat,
                      c1: nat, v: nat, c0': nat)
    requires i + n < |cs| && c0 <= 1 && c0' <= 1 && qj < B && q < Pow(B, i)
    requires Eval(B, cs) + Carry(c0, Pow(B, n + i)) == cv + Prod(nv, q)
    requires SameOutside(cs, cs1, i, i + n) && v + c0' * B == c1 + cs1[i + n] + c0
    requires Eval(B, cs1[i..i + n]) + c1 * Pow(B, n) == Eval(B, cs[i..i + n]) + qj * nv
    ensures q + Prod(Pow(B, i), qj) < Pow(B, i + 1)
    ensures Eval(B, cs1[i + n := v]) + Carry(c0', Pow(B, n + i + 1)) == cv + Prod(nv, q + Prod(Pow(B, i), qj))
  {
    assert |cs1| == |cs|;
    hide *;
    PowSuccessor(B, i);
    PowSuccessor(B, n + i);
    RowInside(B, n, i, qj * nv, c1, cs, cs1);
    EvalUpdate(B, cs1, i + n, v);
    ReduceArith(B, Pow(B, i), Pow(B, n + i), Eval(B, cs), Eval(B, cs1), Eval(B, cs1[i + n := v]), cv, nv, q, qj, c0, c1,
                c0', cs1[i + n], v);
    QuotientBound(Pow(B, i), B, q, qj);
  }

  lemma ReducingNext(B: nat, n: nat, nv: nat, cv: nat, cs: seq<nat>, cs1: seq<nat>, i: nat, c0: nat, q: nat, qj: nat,
                     c1: nat, v: nat, c0': nat)
    requires Reducing(B, n, nv, cv, cs, i, c0, q) && i < n && qj < B && v < B && c0' <= 1
    requires SameOutside(cs, cs1, i, i + n) && IsLimbs(B, cs1[i..i + n]) && cs1[i..i + n][0] == 0
    requires Eval(B, cs1[i..i + n]) + c1 * Pow(B, n) == Eval(B, cs[i..i + n]) + qj * nv
    requires v + c0' * B == c1 + cs1[i + n] + c0
    ensures Reducing(B, n, nv, cv, cs1[i + n := v], i + 1, c0', q + Prod(Pow(B, i), qj))
  {
    hide Eval, Pow, Prod, Carry, IsLimbs;
    RowKeepsLimbs(B, n, i, cs, cs1, v);
    assert cs1[i] == cs1[i..i + n][0] == 0;
    ReducingValue(B, n, nv, cv, cs, cs1, i, c0, q, qj, c1, v, c0');
  }

  lemma RowKeepsLimbs(B: nat, n: nat, i: nat, cs: seq<nat>, cs1: seq<nat>, v: nat)
    requires i + n < |cs| && SameOutside(cs, cs1, i, i + n) && IsLimbs(B, cs) && IsLimbs(B, cs1[i..i + n]) && v < B
    ensures IsLimbs(B, cs1[i + n := v])
    ensures forall k :: 0 <= k < i ==> cs1[k] == cs[k]
  {
    forall k | 0 <= k < |cs| ensures cs1[k] < B && (k < i ==> cs1[k] == cs[k]) {
      if k < i {
        assert cs[..i][k] == cs1[..i][k];
      } else if k < i + n {
        assert cs1[i..i + n][k - i] == cs1[k];
      } else {
        assert cs[i + n..][k - i - n] == cs1[i + n..][k - i - n];
      }
    }
  }

  // ---- the loop on the buffer ----

  /** A modulus with its limb inverse: 1 + n * nInv is a multiple of the base, so n is not zero. */
  ghost predicate Modulus(w: nat, len: nat, n: array<nat>, nInv: nat)
    reads n
  {
    && w >= 2 && 0 < len <= n.Length && nInv < Base(w) && IsLimbs(Base(w), Slice(n, 0, len))
    && (1 + n[0] * nInv) % Base(w) == 0 && Val(Base(w), n, 0, len) > 0
  }

  ghost predicate MontState(w: nat, len: nat, n: array<nat>, nInv: nat, c: array<nat>, cv: nat, i: nat, c0: nat, q: nat)
    reads n, c
  {
    && Modulus(w, len, n, nInv) && c.Length == 2 * len && n != c
    && Reducing(Base(w), len, Val(Base(w), n, 0, len), cv, c[..], i, c0, q)
  }

  method MontRow(w: nat, len: nat, n: array<nat>, nInv: nat, c: array<nat>, ghost cv: nat, i0: nat, c0: nat,
                 ghost q: nat)
      returns (c0': nat, ghost q': nat)
    requires MontState(w, len, n, nInv, c, cv, i0, c0, q) && i0 < len
    modifies c
    ensures MontState(w, len, n, nInv, c, cv, i0 + 1, c0', q')
  {
    ghost var B, ns, cs := Base(w), Slice(n, 0, len), c[..];
    hide Eval, Pow, Prod, Base;
    BaseAtLeastTwo(w);
    var qj := nInv * c[i0] % Base(w);
    LimbsPart(B, cs, 0, 2 * len, i0, len);
    assert cs[i0..i0 + len] == c[i0..i0 + len];
    assert ns[0] == n[0];
    hide Reducing;
    var c1 := BnMulAddRow(w, len, n, 0, qj, c, i0);
    ghost var cs1 := c[..];
    assert cs1[i0..i0 + len] == c[i0..i0 + len];
    assert c[len + i0] == cs[i0 + len..][0] == cs[len + i0] < B;
    var r := AddCarry(w, c0, c1, c[len + i0]);
    c[len + i0] := r.1;
    c0' := r.0;
    q' := q + Prod(Pow(B, i0), qj);
    LowLimbCancels(B, ns, cs[i0..i0 + len], cs1[i0..i0 + len], nInv, qj, c1);
    ReducingNext(B, len, Eval(B, ns), cv, cs, cs1, i0, c0, q, qj, c1, r.1, c0');
    assert c[..] == cs1[i0 + len := r.1];
  }

  lemma ReducedTop(B: nat, len: nat, nv: nat, cv: nat, cs: seq<nat>, c0: nat, q: nat)
    requires Reducing(B, len, nv, cv, cs, len, c0, q) && nv > 0
    ensures IsLimbs(B, cs[len..])
    ensures Cong(Prod(Eval(B, cs[len..]) + Carry(c0, Pow(B, len)), Pow(B, len)), cv, nv)
    ensures Prod(Eval(B, cs[len..]) + Carry(c0, Pow(B, len)), Pow(B, len)) < cv + Prod(nv, Pow(B, len))
  {
    hide Eval, Pow, Prod, Carry;
    EvalSplit(B, cs, len);
    EvalZeros(B, cs[..len]);
    PowAdd(B, len, len);
    TopArith(Pow(B, len), Eval(B, cs[len..]), c0, cv, nv, q);
  }

  lemma TopArith(p: nat, e: nat, c0: nat, cv: nat, nv: nat, q: nat)
    requires nv > 0 && q < p && p * e + Carry(c0, p * p) == cv + Prod(nv, q)
    ensures Cong(Prod(e + Carry(c0, p), p), cv, nv)
    ensures Prod(e + Carry(c0, p), p) < cv + Prod(nv, p)
  {
    MulDistrib(p, e, Carry(c0, p));
    MulLt(q, p, nv);
    CongIntro(cv + nv * q, cv, q, nv);
  }

  /** The loop leaves t in the upper half of c and c0, with t * B^len = c + n * q for some q below B^len. */
  method MontLoop(w: nat, len: nat, n: array<nat>, nInv: nat, c: array<nat>) returns (c0: nat, ghost t: nat)
    requires Modulus(w, len, n, nInv) && c.Length == 2 * len && n != c && IsLimbs(Base(w), Slice(c, 0, 2 * len))
    modifies c
    ensures c0 <= 1 && IsLimbs(Base(w), Slice(c, len, len))
        && t == Val(Base(w), c, len, len) + Carry(c0, Pow(Base(w), len))
    ensures Cong(Prod(t, Pow(Base(w), len)), old(Val(Base(w), c, 0, 2 * len)), Val(Base(w), n, 0, len))
    ensures Prod(t, Pow(Base(w), len)) < old(Val(Base(w), c, 0, 2 * len))
        + Prod(Val(Base(w), n, 0, len), Pow(Base(w), len))
  {
    ghost var B, nv, cv, q := Base(w), Val(Base(w), n, 0, len), Val(Base(w), c, 0, 2 * len), 0;
    assert Slice(c, 0, 2 * len) == c[..];
    c0 := 0;
    var i0 := 0;
    assert MontState(w, len, n, nInv, c, cv, i0, c0, q);
    while i0 < len
      invariant 0 <= i0 <= len
      invariant MontState(w, len, n, nInv, c, cv, i0, c0, q)
    {
      c0, q := MontRow(w, len, n, nInv, c, cv, i0, c0, q);
      i0 := i0 + 1;
    }
    ReducedTop(B, len, nv, cv, c[..], c0, q);
    assert c[..][len..] == Slice(c, len, len);
    t := Val(B, c, len, len) + Carry(c0, Pow(B, len));
  }

  lemma TwiceBound(t: nat, p: nat, cv: nat, nv: nat)
    requires Prod(t, p) < cv + Prod(nv, p)
    ensures cv < Prod(nv, p) ==> t < 2 * nv
    ensures cv < Prod(p, p) ==> t < p + nv
  {
    if t >= 2 * nv { MulLe(2 * nv, t, p); }
    if t >= p + nv { MulLe(p + nv, t, p); MulDistrib(p, p, nv); }
  }

  lemma CongProd(x: nat, y: nat, p: nat, c: nat, n: nat)
    requires n > 0 && Cong(Prod(x, p), c, n) && Cong(y, x, n)
    ensures Cong(Prod(y, p), c, n)
  {
    CongMul(y, x, p, p, n);
  }

  /** Exact reduction: res < n and res * B^len is congruent to c, for every c below n * B^len. */
  method BnMontReduction(w: nat, len: nat, n: array<nat>, nInv: nat, c: array<nat>, res: array<nat>, ro: nat)
    requires Modulus(w, len, n, nInv) && c.Length == 2 * len && n != c && c != res
        && IsLimbs(Base(w), Slice(c, 0, 2 * len))
    requires ro + len <= res.Length && Apart(n, 0, len, res, ro, len)
    requires Val(Base(w), c, 0, 2 * len) < Prod(Val(Base(w), n, 0, len), Pow(Base(w), len))
    modifies c, res
    ensures IsLimbs(Base(w), Slice(res, ro, len)) && Val(Base(w), res, ro, len) < old(Val(Base(w), n, 0, len))
    ensures Cong(Prod(Val(Base(w), res, ro, len), Pow(Base(w), len)), old(Val(Base(w), c, 0, 2 * len)),
                 old(Val(Base(w), n, 0, len)))
    ensures forall x: array<nat>, i: nat, k: nat {:trigger Slice(x, i, k)} ::
              old(allocated(x)) && x != c && Away(x, i, k, res, ro, len) ==> Slice(x, i, k) == old(Slice(x, i, k))
  {
    ghost var B, nv, cv := Base(w), Val(Base(w), n, 0, len), Val(Base(w), c, 0, 2 * len);
    hide Eval, Pow, IsLimbs, Base, Prod, Carry;
    ValBound(B, n, 0, len);
    var c0;
    ghost var t;
    c0, t := MontLoop(w, len, n, nInv, c);
    hide Slice;
    Memcpy(len, c, len, res, ro);
    var tmp := new nat[len](_ => 0);
    var c1 := BnSubEqLen(w, len, res, ro, n, 0, tmp, 0);
    ValBound(B, res, ro, len); ValBound(B, tmp, 0, len);
    TwiceBound(t, Pow(B, len), cv, nv);
    ReduceChoice(w, t, nv, Pow(B, len), Val(B, res, ro, len), c0, Val(B, tmp, 0, len), c1);
    var c2 := (c0 - c1) % Base(w);
    BnSelect(w, c2, len, res, ro, tmp, 0, res, ro);
    CongMod(t, nv);
    CongProd(t, Val(B, res, ro, len), Pow(B, len), cv, nv);
  }

  /** Almost reduction: any c of 2 * len limbs; the result fits len limbs but may exceed n. */
  method BnAlmostMontReduction(w: nat, len: nat, n: array<nat>, nInv: nat, c: array<nat>, res: array<nat>, ro: nat)
    requires Modulus(w, len, n, nInv) && c.Length == 2 * len && n != c && c != res
        && IsLimbs(Base(w), Slice(c, 0, 2 * len))
    requires ro + len <= res.Length && Apart(n, 0, len, res, ro, len)
    modifies c, res
    ensures IsLimbs(Base(w), Slice(res, ro, len))
    ensures Cong(Prod(Val(Base(w), res, ro, len), Pow(Base(w), len)), old(Val(Base(w), c, 0, 2 * len)),
                 old(Val(Base(w), n, 0, len)))
    ensures forall x: array<nat>, i: nat, k: nat {:trigger Slice(x, i, k)} ::
              old(allocated(x)) && x != c && Away(x, i, k, res, ro, len) ==> Slice(x, i, k) == old(Slice(x, i, k))
  {
    ghost var B, nv, cv := Base(w), Val(Base(w), n, 0, len), Val(Base(w), c, 0, 2 * len);
    hide Eval, Pow, IsLimbs, Base, Prod, Carry;
    ValBound(B, n, 0, len); ValBound(B, c, 0, 2 * len);
    PowSquares(B, len);
    var c00;
    ghost var t;
    c00, t := MontLoop(w, len, n, nInv, c);
    hide Slice;
    Memcpy(len, c, len, res, ro);
    var tmp := new nat[len](_ => 0);
    var c1 := BnSubEqLen(w, len, res, ro, n, 0, tmp, 0);
    ValBound(B, res, ro, len); ValBound(B, tmp, 0, len);
    TwiceBound(t, Pow(B, len), cv, nv);
    AlmostChoice(t, nv, Pow(B, len), Val(B, res, ro, len), c00, Val(B, tmp, 0, len), c1);
    BnSelect(w, BitMask(w, c00), len, tmp, 0, res, ro, res, ro);
    CongProd(t, Val(B, res, ro, len), Pow(B, len), cv, nv);
  }

  /** A number t below p + n, given as s with a carry, loses n exactly when it carried. */
  lemma AlmostChoice(t: nat, n: nat, p: nat, s: nat, c0: nat, d: nat, c1: nat)
    requires 0 < n <= p && t < p + n && s < p && d < p && c0 <= 1 && c1 <= 1
    requires s + Carry(c0, p) == t && d - Carry(c1, p) == s - n
    ensures Cong(if c0 == 0 then s else d, t, n)
  {
    if c0 == 1 {
      assert c1 == 1;
      CongIntro(d, t, -1, n);
    }
  }

  // ---- products in Montgomery form ----

  lemma ModulusHead(w: nat, len: nat, n: array<nat>, nInv: nat)
    requires 0 < len <= n.Length
    ensures n[0] == Slice(n, 0, len)[0]
  {
  }

  lemma BelowProduct(x: nat, y: nat, p: nat, n: nat)
    requires x < p && y < n
    ensures Prod(x, y) < Prod(n, p)
  {
  }

  /** Montgomery multiplication of a, b < n; the result may be a or b. */
  method BnMontMul(w: nat, len: nat, n: array<nat>, nInv: nat, aM: array<nat>, ao: nat, bM: array<nat>, bo: nat,
                   resM: array<nat>, ro: nat)
    requires Modulus(w, len, n, nInv) && ao + len <= aM.Length && bo + len <= bM.Length && ro + len <= resM.Length
    requires Apart(n, 0, len, resM, ro, len)
    requires IsLimbs(Base(w), Slice(aM, ao, len)) && IsLimbs(Base(w), Slice(bM, bo, len))
    requires Val(Base(w), bM, bo, len) < Val(Base(w), n, 0, len)
    modifies resM
    ensures IsLimbs(Base(w), Slice(resM, ro, len)) && Val(Base(w), resM, ro, len) < old(Val(Base(w), n, 0, len))
    ensures Cong(Prod(Val(Base(w), resM, ro, len), Pow(Base(w), len)),
                 Prod(old(Val(Base(w), aM, ao, len)), old(Val(Base(w), bM, bo, len))), old(Val(Base(w), n, 0, len)))
    ensures forall x: array<nat>, i: nat, k: nat {:trigger Slice(x, i, k)} ::
              old(allocated(x)) && Away(x, i, k, resM, ro, len) ==> Slice(x, i, k) == old(Slice(x, i, k))
  {
    ghost var B := Base(w);
    EvalBound(B, Slice(aM, ao, len));
    BelowProduct(Val(B, aM, ao, len), Val(B, bM, bo, len), Pow(B, len), Val(B, n, 0, len));
    ModulusHead(w, len, n, nInv);
    hide Eval, Pow, IsLimbs, Base, Prod, Slice;
    var c := new nat[2 * len](_ => 0);
    var tmp := new nat[4 * len](_ => 0);
    BnKaratsubaMul(w, len, aM, ao, bM, bo, tmp, 0, c, 0);
    ModulusHead(w, len, n, nInv);
    BnMontReduction(w, len, n, nInv, c, resM, ro);
  }

  /** Montgomery squaring of a < n. */
  method BnMontSqr(w: nat, len: nat, n: array<nat>, nInv: nat, aM: array<nat>, ao: nat, resM: array<nat>, ro: nat)
    requires Modulus(w, len, n, nInv) && ao + len <= aM.Length && ro + len <= resM.Length
    requires Apart(n, 0, len, resM, ro, len) && IsLimbs(Base(w), Slice(aM, ao, len))
    requires Val(Base(w), aM, ao, len) < Val(Base(w), n, 0, len)
    modifies resM
    ensures IsLimbs(Base(w), Slice(resM, ro, len)) && Val(Base(w), resM, ro, len) < old(Val(Base(w), n, 0, len))
    ensures Cong(Prod(Val(Base(w), resM, ro, len), Pow(Base(w), len)),
                 Prod(old(Val(Base(w), aM, ao, len)), old(Val(Base(w), aM, ao, len))), old(Val(Base(w), n, 0, len)))
    ensures forall x: array<nat>, i: nat, k: nat {:trigger Slice(x, i, k)} ::
              old(allocated(x)) && Away(x, i, k, resM, ro, len) ==> Slice(x, i, k) == old(Slice(x, i, k))
  {
    EvalBound(Base(w), Slice(aM, ao, len));
    BelowProduct(Val(Base(w), aM, ao, len), Val(Base(w), aM, ao, len), Pow(Base(w), len), Val(Base(w), n, 0, len));
    ModulusHead(w, len, n, nInv);
    hide Eval, Pow, IsLimbs, Base, Prod, Slice;
    var c := new nat[2 * len](_ => 0);
    var tmp := new nat[4 * len](_ => 0);
    BnKaratsubaSqr(w, len, aM, ao, tmp, 0, c, 0);
    ModulusHead(w, len, n, nInv);
    BnMontReduction(w, len, n, nInv, c, resM, ro);
  }

  /** Almost Montgomery multiplication: the operands and the result are any len limbs, and may be the same. */
  method BnAlmostMontMul(w: nat, len: nat, n: array<nat>, nInv: nat, aM: array<nat>, ao: nat, bM: array<nat>, bo: nat,
                         resM: array<nat>, ro: nat)
    requires Modulus(w, len, n, nInv) && ao + len <= aM.Length && bo + len <= bM.Length && ro + len <= resM.Length
    requires Apart(n, 0, len, resM, ro, len) && IsLimbs(Base(w), Slice(aM, ao, len))
        && IsLimbs(Base(w), Slice(bM, bo, len))
    modifies resM
    ensures IsLimbs(Base(w), Slice(resM, ro, len))
    ensures Cong(Prod(Val(Base(w), resM, ro, len), Pow(Base(w), len)),
                 Prod(old(Val(Base(w), aM, ao, len)), old(Val(Base(w), bM, bo, len))), old(Val(Base(w), n, 0, len)))
    ensures forall x: array<nat>, i: nat, k: nat {:trigger Slice(x, i, k)} ::
              old(allocated(x)) && Away(x, i, k, resM, ro, len) ==> Slice(x, i, k) == old(Slice(x, i, k))
  {
    ModulusHead(w, len, n, nInv);
    hide Eval, Pow, IsLimbs, Base, Prod, Slice;
    var c := new nat[2 * len](_ => 0);
    var tmp := new nat[4 * len](_ => 0);
    BnKaratsubaMul(w, len, aM, ao, bM, bo, tmp, 0, c, 0);
    ModulusHead(w, len, n, nInv);
    BnAlmostMontReduction(w, len, n, nInv, c, resM, ro);
  }

  /** Almost Montgomery squaring. */
  method BnAlmostMontSqr(w: nat, len: nat, n: array<nat>, nInv: nat, aM: array<nat>, ao: nat, resM: array<nat>, ro: nat)
    requires Modulus(w, len, n, nInv) && ao + len <= aM.Length && ro + len <= resM.Length
    requires Apart(n, 0, len, resM, ro, len) && IsLimbs(Base(w), Slice(aM, ao, len))
    modifies resM
    ensures IsLimbs(Base(w), Slice(resM, ro, len))
    ensures Cong(Prod(Val(Base(w), resM, ro, len), Pow(Base(w), len)),
                 Prod(old(Val(Base(w), aM, ao, len)), old(Val(Base(w), aM, ao, len))), old(Val(Base(w), n, 0, len)))
    ensures forall x: array<nat>, i: nat, k: nat {:trigger Slice(x, i, k)} ::
              old(allocated(x)) && Away(x, i, k, resM, ro, len) ==> Slice(x, i, k) == old(Slice(x, i, k))
  {
    ModulusHead(w, len, n, nInv);
    hide Eval, Pow, IsLimbs, Base, Prod, Slice;
    var c := new nat[2 * len](_ => 0);
    var tmp := new nat[4 * len](_ => 0);
    BnKaratsubaSqr(w, len, aM, ao, tmp, 0, c, 0);
    ModulusHead(w, len, n, nInv);
    BnAlmostMontReduction(w, len, n, nInv, c, resM, ro);
  }

  /** Out of Montgomery form: the exact reduction of a alone, padded to 2 * len limbs. */
  method BnFromMont(w: nat, len: nat, n: array<nat>, nInv: nat, aM: array<nat>, a: array<nat>)
    requires Modulus(w, len, n, nInv) && len <= aM.Length && len <= a.Length && n != a
    requires IsLimbs(Base(w), Slice(aM, 0, len))
    modifies a
    ensures IsLimbs(Base(w), Slice(a, 0, len)) && Val(Base(w), a, 0, len) < Val(Base(w), n, 0, len)
    ensures Cong(Prod(Val(Base(w), a, 0, len), Pow(Base(w), len)), old(Val(Base(w), aM, 0, len)),
                 Val(Base(w), n, 0, len))
  {
    ghost var B := Base(w);
    var tmp := new nat[2 * len](_ => 0);
    BnCopyLow(w, len, aM, tmp);
    EvalBound(B, Slice(aM, 0, len));
    MulLe(1, Val(B, n, 0, len), Pow(B, len));
    ModulusHead(w, len, n, nInv);
    hide Eval, Pow, IsLimbs, Base, Slice;
    BnMontReduction(w, len, n, nInv, tmp, a, 0);
  }

  method BnCopyLow(w: nat, len: nat, x: array<nat>, tmp: array<nat>)
    requires len <= x.Length && tmp.Length == 2 * len && x != tmp
    requires IsLimbs(Base(w), Slice(x, 0, len)) && forall k :: 0 <= k < 2 * len ==> tmp[k] == 0
    modifies tmp
    ensures IsLimbs(Base(w), Slice(tmp, 0, 2 * len)) && Val(Base(w), tmp, 0, 2 * len) == Val(Base(w), x, 0, len)
  {
    ghost var xs := Slice(x, 0, len);
    forall k | 0 <= k < len { tmp[k] := x[k]; }
    var s := Slice(tmp, 0, 2 * len);
    assert s[..len] == xs;
    EvalSplit(Base(w), s, len);
    EvalZeros(Base(w), s[len..]);
  }

  // ---- numbers in Montgomery form ----

  /** The limbs s stand for v: they are v * B^len up to a multiple of n. */
  ghost predicate InMont(w: nat, len: nat, nv: nat, s: seq<nat>, v: nat) {
    |s| == len && nv > 0 && IsLimbs(Base(w), s) && Cong(Eval(Base(w), s), Prod(v, Pow(Base(w), len)), nv)
  }

  lemma OddFactor(x: nat, y: nat)
    requires x * y % 2 == 1
    ensures x % 2 == 1
  {
    MulAssoc(2, x / 2, y);
  }

  lemma ModulusOdd(w: nat, len: nat, n: array<nat>, nInv: nat)
    requires Modulus(w, len, n, nInv)
    ensures Val(Base(w), n, 0, len) % 2 == 1
  {
    hide Eval, Pow, Base;
    LowBit(w, Slice(n, 0, len));
    BaseHalf(w);
    OddBelow(n[0] * nInv, Base(w - 1));
    OddFactor(n[0], nInv);
  }

  lemma OddBelow(x: nat, h: nat)
    requires h > 0 && (1 + x) % (2 * h) == 0
    ensures x % 2 == 1
  {
    var k := (1 + x) / (2 * h);
    MulAssoc(2, h, k);
    assert 1 + x == 2 * (h * k);
  }

  /** B^len can be cancelled modulo an odd number. */
  lemma CancelRadix(w: nat, len: nat, nv: nat, x: nat, y: nat)
    requires nv % 2 == 1
    requires Cong(Prod(x, Pow(Base(w), len)), Prod(y, Pow(Base(w), len)), nv)
    ensures Cong(x, y, nv)
  {
    PowMul(2, w, len);
    var inv := PowTwoInvertible(nv, w * len);
    CongCancel(x, y, Pow(Base(w), len), inv, nv);
  }

  /** A Montgomery product stands for the product. */
  lemma MulInMont(w: nat, len: nat, nv: nat, s: seq<nat>, x: nat, t: seq<nat>, y: nat, r: seq<nat>)
    requires nv % 2 == 1 && InMont(w, len, nv, s, x) && InMont(w, len, nv, t, y)
    requires |r| == len && IsLimbs(Base(w), r)
    requires Cong(Prod(Eval(Base(w), r), Pow(Base(w), len)), Prod(Eval(Base(w), s), Eval(Base(w), t)), nv)
    ensures InMont(w, len, nv, r, x * y)
  {
    hide Eval, Pow, IsLimbs, Base, Prod;
    var p := Pow(Base(w), len);
    FormsMultiply(nv, p, Eval(Base(w), s), x, Eval(Base(w), t), y, Prod(Eval(Base(w), r), p));
    CancelRadix(w, len, nv, Eval(Base(w), r), Prod(x * y, p));
  }

  lemma FormsMultiply(n: nat, p: nat, s: nat, x: nat, t: nat, y: nat, z: nat)
    requires n > 0 && Cong(s, Prod(x, p), n) && Cong(t, Prod(y, p), n) && Cong(z, Prod(s, t), n)
    ensures Cong(z, Prod(Prod(x * y, p), p), n)
  {
    CongMul(s, x * p, t, y * p, n);
    assert (x * p) * (y * p) == (x * y * p) * p by {
      MulAssoc(x * p, y, p); MulAssoc(x, p, y); MulAssoc(x, y, p);
    }
  }

  lemma RadixSquare(w: nat, len: nat, e: nat)
    requires e == Prod(w, len)
    ensures Pow(2, e + e) == Prod(Pow(Base(w), len), Pow(Base(w), len))
  {
    PowMul(2, w, len);
    PowAdd(2, e, e);
  }

  /** r2 = B^(2 * len) mod n turns a number into its Montgomery form ... */
  lemma ToInMont(w: nat, len: nat, nv: nat, a: nat, r2: nat, r: seq<nat>)
    requires nv % 2 == 1 && r2 == Pow(2, 2 * w * len) % nv && |r| == len && IsLimbs(Base(w), r)
    requires Cong(Prod(Eval(Base(w), r), Pow(Base(w), len)), Prod(a, r2), nv)
    ensures InMont(w, len, nv, r, a)
  {
    var p := Pow(Base(w), len);
    var e := Prod(w, len);
    RadixSquare(w, len, e);
    assert 2 * w * len == e + e by { MulAssoc(2, w, len); }
    assert Prod(p, p) == p * p;
    hide Eval, Pow, IsLimbs, Base, Prod;
    FormOfNumber(nv, p, a, r2, Prod(Eval(Base(w), r), p));
    CancelRadix(w, len, nv, Eval(Base(w), r), Prod(a, p));
  }

  lemma FormOfNumber(n: nat, p: nat, a: nat, r2: nat, z: nat)
    requires n > 0 && r2 == (p * p) % n && Cong(z, Prod(a, r2), n)
    ensures Cong(z, Prod(Prod(a, p), p), n)
  {
    CongMod(p * p, n);
    CongMul(a, a, r2, p * p, n);
    MulAssoc(a, p, p);
  }

  /** ... its reduction is the form of 1 ... */
  lemma OneInMont(w: nat, len: nat, nv: nat, r2: nat, r: seq<nat>)
    requires nv % 2 == 1 && r2 == Pow(2, 2 * w * len) % nv && |r| == len && IsLimbs(Base(w), r)
    requires Cong(Prod(Eval(Base(w), r), Pow(Base(w), len)), r2, nv)
    ensures InMont(w, len, nv, r, 1)
  {
    hide *;
    assert Prod(1, r2) == r2 by { ProdOne(r2); }
    ToInMont(w, len, nv, 1, r2, r);
  }

  lemma ProdOne(x: nat)
    ensures Prod(1, x) == x
  {
  }

  /** ... and an exact reduction leaves the number itself, in its least form. */
  lemma FromInMont(w: nat, len: nat, nv: nat, s: seq<nat>, v: nat, r: nat)
    requires nv % 2 == 1 && InMont(w, len, nv, s, v) && r < nv
    requires Cong(Prod(r, Pow(Base(w), len)), Eval(Base(w), s), nv)
    ensures r == v % nv
  {
    hide Eval, Pow, IsLimbs, Base;
    CancelRadix(w, len, nv, r, v);
    DivModUnique(r, nv, 0, r);
  }
}
