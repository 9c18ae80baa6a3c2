/** Schoolbook multiplication and squaring, bn_mul_u64 and bn_sqr_u64. */
module Multiplication {
  import opened Arith
  import opened Words
  import opened Limbs

  // ---- one row: res += a * y, one call of mul_wide_add2 per limb ----

  /** After i limbs of a row: the low i limbs of res have become old + a * y, with carry word c. */
  ghost predicate Row(w: nat, as0: seq<nat>, y: nat, r0: seq<nat>, r: seq<nat>, ro: nat, i: nat, c: nat) {
    && i <= |as0| && ro + |as0| <= |r|
    && c < Base(w) && IsLimbs(Base(w), r[ro..ro + i])
    && SameOutside(r0, r, ro, ro + i)
    && Eval(Base(w), r[ro..ro + i]) + c * Pow(Base(w), i) == Eval(Base(w), r0[ro..ro + i]) + y * Eval(Base(w), as0[..i])
  }

  lemma RowArith(p: nat, B: nat, s: nat, v: nat, c: nat, c': nat, e: nat, o: nat, y: nat, ea: nat, x: nat)
    requires s + c * p == e + y * ea && v + c' * B == x * y + c + o
    ensures s + p * v + c' * (B * p) == e + p * o + y * (ea + p * x)
  {
  }

  lemma RowNext(w: nat, as0: seq<nat>, y: nat, r0: seq<nat>, r: seq<nat>, ro: nat, i: nat, c: nat, v: nat, c': nat)
    requires Row(w, as0, y, r0, r, ro, i, c) && i < |as0| && v < Base(w) && c' < Base(w)
    requires v + c' * Base(w) == as0[i] * y + c + r[ro + i]
    ensures Row(w, as0, y, r0, r[ro + i := v], ro, i + 1, c')
  {
    var B, r' := Base(w), r[ro + i := v];
    assert r0[ro + i] == r[ro + i] by { assert r0[ro + i..][0] == r[ro + i..][0]; }
    assert r'[ro..ro + i + 1] == r[ro..ro + i] + [v];
    assert r0[ro..ro + i + 1] == r0[ro..ro + i] + [r0[ro + i]];
    assert as0[..i + 1] == as0[..i] + [as0[i]];
    EvalSnoc(B, r[ro..ro + i], v);
    EvalSnoc(B, r0[ro..ro + i], r0[ro + i]);
    EvalSnoc(B, as0[..i], as0[i]);
    RowArith(Pow(B, i), B, Eval(B, r[ro..ro + i]), v, c, c', Eval(B, r0[ro..ro + i]), r0[ro + i], y,
             Eval(B, as0[..i]), as0[i]);
    assert r'[..ro] == r[..ro];
    assert r'[ro + i + 1..] == r[ro + i..][1..];
    assert r0[ro + i + 1..] == r0[ro + i..][1..];
  }

  ghost predicate RowState(w: nat, n: nat, a: array<nat>, ao: nat, as0: seq<nat>, y: nat, res: array<nat>, ro: nat,
                           r0: seq<nat>, i: nat, c: nat)
    reads a, res
  {
    && |as0| == n && ao + n <= a.Length && ro + n <= res.Length && Apart(a, ao, n, res, ro, n)
    && IsLimbs(Base(w), as0) && y < Base(w) && |r0| == res.Length && IsLimbs(Base(w), r0[ro..ro + n])
    && a[ao..ao + n] == as0
    && Row(w, as0, y, r0, res[..], ro, i, c)
  }

  method MulAddLimb(w: nat, c: nat, n: nat, a: array<nat>, ao: nat, ghost as0: seq<nat>, y: nat, res: array<nat>,
                    ro: nat, ghost r0: seq<nat>, i: nat) returns (c': nat)
    requires RowState(w, n, a, ao, as0, y, res, ro, r0, i, c) && i < n
    modifies res
    ensures RowState(w, n, a, ao, as0, y, res, ro, r0, i + 1, c')
  {
    ghost var before := res[..];
    assert r0[ro + i] == res[ro + i] by { assert r0[ro + i..][0] == res[..][ro + i..][0]; }
    assert r0[ro..ro + n][i] == r0[ro + i];
    assert a[ao..ao + n][i] == a[ao + i];
    var a_i := a[ao + i];
    var r := MulWideAdd2(w, a_i, y, c, res[ro + i]);
    RowNext(w, as0, y, r0, before, ro, i, c, r.1, r.0);
    res[ro + i] := r.1;
    c' := r.0;
    assert res[..] == before[ro + i := r.1];
    if a == res {
      assert a[ao..ao + n] == before[ro + i := r.1][ao..ao + n] == before[ao..ao + n];
    }
  }

  /** Adds a * y to n limbs of res and returns the carry word. */
  method BnMulAddRow(w: nat, n: nat, a: array<nat>, ao: nat, y: nat, res: array<nat>, ro: nat) returns (c: nat)
    requires ao + n <= a.Length && ro + n <= res.Length && Apart(a, ao, n, res, ro, n)
    requires IsLimbs(Base(w), a[ao..ao + n]) && y < Base(w) && IsLimbs(Base(w), res[ro..ro + n])
    modifies res
    ensures c < Base(w) && IsLimbs(Base(w), res[ro..ro + n])
    ensures SameOutside(old(res[..]), res[..], ro, ro + n)
    ensures Val(Base(w), res, ro, n) + c * Pow(Base(w), n)
         == old(Val(Base(w), res, ro, n)) + y * old(Val(Base(w), a, ao, n))
  {
    ghost var as0, r0 := a[ao..ao + n], res[..];
    assert r0[ro..ro + n] == res[ro..ro + n];
    assert as0[..0] == [] && r0[ro..ro] == [];
    c := BnMulAddLoops(w, n, a, ao, as0, y, res, ro, r0);
    assert as0[..n] == as0;
    assert res[..][ro..ro + n] == res[ro..ro + n];
  }

  method BnMulAddLoops(w: nat, n: nat, a: array<nat>, ao: nat, ghost as0: seq<nat>, y: nat, res: array<nat>, ro: nat,
                       ghost r0: seq<nat>) returns (c: nat)
    requires RowState(w, n, a, ao, as0, y, res, ro, r0, 0, 0)
    modifies res
    ensures RowState(w, n, a, ao, as0, y, res, ro, r0, n, c)
  {
    hide *;
    c := 0;
    var i := 0;
    while i < n / 4
      invariant 0 <= i <= n / 4
      invariant RowState(w, n, a, ao, as0, y, res, ro, r0, 4 * i, c)
    {
      c := MulAddLimb(w, c, n, a, ao, as0, y, res, ro, r0, 4 * i);
      c := MulAddLimb(w, c, n, a, ao, as0, y, res, ro, r0, 4 * i + 1);
      c := MulAddLimb(w, c, n, a, ao, as0, y, res, ro, r0, 4 * i + 2);
      c := MulAddLimb(w, c, n, a, ao, as0, y, res, ro, r0, 4 * i + 3);
      i := i + 1;
    }
    i := n / 4 * 4;
    while i < n
      invariant n / 4 * 4 <= i <= n
      invariant RowState(w, n, a, ao, as0, y, res, ro, r0, i, c)
    {
      c := MulAddLimb(w, c, n, a, ao, as0, y, res, ro, r0, i);
      i := i + 1;
    }
  }

  /** A row together with the store of its carry word above it. */
  method BnMulAddRowStore(w: nat, n: nat, a: array<nat>, ao: nat, y: nat, res: array<nat>, ro: nat)
    requires ao + n <= a.Length && ro + n < res.Length && Apart(a, ao, n, res, ro, n)
    requires IsLimbs(Base(w), a[ao..ao + n]) && y < Base(w) && IsLimbs(Base(w), res[ro..ro + n])
    modifies res
    ensures IsLimbs(Base(w), res[ro..ro + n + 1])
    ensures SameOutside(old(res[..]), res[..], ro, ro + n + 1)
    ensures Val(Base(w), res, ro, n + 1) == old(Val(Base(w), res, ro, n)) + y * old(Val(Base(w), a, ao, n))
  {
    hide Eval, Pow;
    ghost var before := res[..];
    var c := BnMulAddRow(w, n, a, ao, y, res, ro);
    ghost var mid := res[..];
    res[ro + n] := c;
    assert res[..] == mid[ro + n := c];
    assert res[..][..ro] == mid[..ro];
    assert res[..][ro + n + 1..] == mid[ro + n..][1..] == before[ro + n..][1..];
    ghost var post := res[ro..ro + n + 1];
    assert post[..n] == mid[ro..ro + n];
    EvalCarryOut(Base(w), post, n);
  }

  // ---- bn_mul ----

  method Clear(res: array<nat>, ro: nat, n: nat)
    requires ro + n <= res.Length
    modifies res
    ensures forall k :: ro <= k < ro + n ==> res[k] == 0
    ensures SameOutside(old(res[..]), res[..], ro, ro + n)
  {
    forall k | ro <= k < ro + n {
      res[k] := 0;
    }
  }

  /** The operand s at a[ao], or at the same place of what res held before when it is part of res. */
  ghost predicate Operand(a: array<nat>, ao: nat, n: nat, s: seq<nat>, res: array<nat>, before: seq<nat>, ro: nat,
                          m: nat)
    reads if a == res then {} else {a}
  {
    ao + n <= a.Length && |s| == n && Apart(a, ao, n, res, ro, m)
    && if a == res then ao + n <= |before| && s == before[ao..ao + n] else s == a[ao..ao + n]
  }

  lemma OperandNow(a: array<nat>, ao: nat, n: nat, s: seq<nat>, res: array<nat>, ro: nat, m: nat)
    requires ao + n <= a.Length && Apart(a, ao, n, res, ro, m) && s == a[ao..ao + n]
    ensures Operand(a, ao, n, s, res, res[..], ro, m)
  {
    assert a == res ==> res[..][ao..ao + n] == a[ao..ao + n];
  }

  /** An operand apart from a written region keeps its limbs. */
  lemma Kept(a: array<nat>, ao: nat, n: nat, s: seq<nat>, res: array<nat>, r0: seq<nat>, ro: nat, m: nat)
    requires ao + n <= a.Length && |s| == n && ro + m <= res.Length
    requires Apart(a, ao, n, res, ro, m) && SameOutside(r0, res[..], ro, ro + m)
    requires if a == res then s == r0[ao..ao + n] else s == a[ao..ao + n]
    ensures a[ao..ao + n] == s
  {
    if a == res {
      SliceOutside(r0, res[..], ro, ro + m, ao, n);
      assert res[..][ao..ao + n] == a[ao..ao + n];
    }
  }

  /** After j rows the m limbs of res from ro hold as0 times the low j limbs of bs. */
  ghost predicate Product(B: nat, m: nat, as0: seq<nat>, bs: seq<nat>, r0: seq<nat>, r: seq<nat>, ro: nat, j: nat) {
    && ro + m <= |r| && j <= |bs| && m == |as0| + |bs|
    && IsLimbs(B, r[ro..ro + m]) && SameOutside(r0, r, ro, ro + m)
    && Eval(B, r[ro..ro + |as0| + j]) == Eval(B, as0) * Eval(B, bs[..j])
  }

  /** The effect of one stored row, from r to r', as seen from the whole region. */
  ghost predicate RowWritten(B: nat, n: nat, lo: nat, d: nat, r: seq<nat>, r': seq<nat>) {
    && lo + n < |r| && SameOutside(r, r', lo, lo + n + 1) && IsLimbs(B, r'[lo..lo + n + 1])
    && Eval(B, r'[lo..lo + n + 1]) == Eval(B, r[lo..lo + n]) + d
  }

  lemma RowStored(B: nat, n: nat, lo: nat, d: nat, r: seq<nat>, res: array<nat>)
    requires lo + n < res.Length && SameOutside(r, res[..], lo, lo + n + 1) && IsLimbs(B, res[lo..lo + n + 1])
    requires Val(B, res, lo, n + 1) == Eval(B, r[lo..lo + n]) + d
    ensures RowWritten(B, n, lo, d, r, res[..])
  {
    assert res[..][lo..lo + n + 1] == res[lo..lo + n + 1];
  }

  /** Seen from ro, a stored row at limb j adds its value shifted by j limbs. */
  lemma RowShift(B: nat, n: nat, ro: nat, j: nat, d: nat, r: seq<nat>, r': seq<nat>)
    requires RowWritten(B, n, ro + j, d, r, r')
    ensures Eval(B, r'[ro..ro + n + j + 1]) == Eval(B, r[ro..ro + n + j]) + Pow(B, j) * d
  {
    hide Eval, Pow;
    var pre, post := r[ro..ro + n + j], r'[ro..ro + n + j + 1];
    assert pre[..j] == r[..ro + j][ro..] && post[..j] == r'[..ro + j][ro..];
    assert pre[j..] == r[ro + j..ro + j + n] && post[j..] == r'[ro + j..ro + j + n + 1];
    EvalReplaceHigh(B, j, d, pre, post);
  }

  lemma RowLimbs(B: nat, n: nat, ro: nat, m: nat, lo: nat, d: nat, r: seq<nat>, r': seq<nat>)
    requires RowWritten(B, n, lo, d, r, r') && ro <= lo && lo + n < ro + m <= |r| && IsLimbs(B, r[ro..ro + m])
    ensures IsLimbs(B, r'[ro..ro + m])
  {
    var s, t := r[ro..ro + m], r'[ro..ro + m];
    forall k | 0 <= k < m ensures t[k] < B {
      if ro + k < lo {
        assert r[..lo][ro + k] == r'[..lo][ro + k];
        assert s[k] == r[ro + k];
      } else if ro + k <= lo + n {
        assert r'[lo..lo + n + 1][ro + k - lo] == t[k];
      } else {
        assert r[lo + n + 1..][ro + k - lo - n - 1] == r'[lo + n + 1..][ro + k - lo - n - 1];
        assert s[k] == r[ro + k];
      }
    }
  }

  lemma ProductNext(B: nat, m: nat, as0: seq<nat>, bs: seq<nat>, r0: seq<nat>, r: seq<nat>, r': seq<nat>, ro: nat,
                    j: nat)
    requires Product(B, m, as0, bs, r0, r, ro, j) && j < |bs|
    requires RowWritten(B, |as0|, ro + j, bs[j] * Eval(B, as0), r, r')
    ensures Product(B, m, as0, bs, r0, r', ro, j + 1)
  {
    hide Eval, Pow;
    var n := |as0|;
    RowShift(B, n, ro, j, bs[j] * Eval(B, as0), r, r');
    RowLimbs(B, n, ro, m, ro + j, bs[j] * Eval(B, as0), r, r');
    SameOutsideWiden(r, r', ro + j, ro + j + n + 1, ro, ro + m);
    SameOutsideTrans(r0, r, r', ro, ro + m);
    assert bs[..j + 1] == bs[..j] + [bs[j]];
    EvalSnoc(B, bs[..j], bs[j]);
    ProductArith(Eval(B, as0), Eval(B, bs[..j]), Pow(B, j), bs[j]);
    assert ro + n + (j + 1) == ro + n + j + 1;
  }

  lemma ProductArith(e: nat, f: nat, p: nat, y: nat)
    ensures e * f + p * (y * e) == e * (f + p * y)
  {
  }

  method BnMul(w: nat, aLen: nat, a: array<nat>, ao: nat, bLen: nat, b: array<nat>, bo: nat, res: array<nat>, ro: nat)
    requires ao + aLen <= a.Length && bo + bLen <= b.Length && ro + aLen + bLen <= res.Length
    requires Apart(a, ao, aLen, res, ro, aLen + bLen) && Apart(b, bo, bLen, res, ro, aLen + bLen)
    requires IsLimbs(Base(w), Slice(a, ao, aLen)) && IsLimbs(Base(w), Slice(b, bo, bLen))
    modifies res
    ensures IsLimbs(Base(w), Slice(res, ro, aLen + bLen))
    ensures forall x: array<nat>, i: nat, m: nat {:trigger Slice(x, i, m)} ::
              old(allocated(x)) && Away(x, i, m, res, ro, aLen + bLen) ==> Slice(x, i, m) == old(Slice(x, i, m))
    ensures Val(Base(w), res, ro, aLen + bLen) == old(Val(Base(w), a, ao, aLen)) * old(Val(Base(w), b, bo, bLen))
  {
    ghost var as0, bs, r0 := a[ao..ao + aLen], b[bo..bo + bLen], res[..];
    assert Val(Base(w), a, ao, aLen) == Eval(Base(w), as0) && Val(Base(w), b, bo, bLen) == Eval(Base(w), bs);
    OperandNow(a, ao, aLen, as0, res, ro, aLen + bLen);
    OperandNow(b, bo, bLen, bs, res, ro, aLen + bLen);
    hide *;
    Clear(res, ro, aLen + bLen);
    MulStart(w, aLen, a, ao, as0, bLen, b, bo, bs, res, ro, r0);
    BnMulLoop(w, aLen, a, ao, as0, bLen, b, bo, bs, res, ro, r0);
    MulDone(w, aLen, a, ao, as0, bLen, b, bo, bs, res, ro, r0);
    forall x: array<nat>, i: nat, m: nat | old(allocated(x)) && Away(x, i, m, res, ro, aLen + bLen)
      ensures Slice(x, i, m) == old(Slice(x, i, m))
    {
      AwayKept(x, i, m, res, r0, ro, aLen + bLen);
    }
  }

  lemma MulStart(w: nat, aLen: nat, a: array<nat>, ao: nat, as0: seq<nat>, bLen: nat, b: array<nat>, bo: nat,
                 bs: seq<nat>, res: array<nat>, ro: nat, r0: seq<nat>)
    requires Operand(a, ao, aLen, as0, res, r0, ro, aLen + bLen) && Operand(b, bo, bLen, bs, res, r0, ro, aLen + bLen)
    requires IsLimbs(Base(w), as0) && IsLimbs(Base(w), bs)
    requires SameOutside(r0, res[..], ro, ro + (aLen + bLen))
    requires forall k :: ro <= k < ro + (aLen + bLen) ==> res[k] == 0
    ensures MulState(w, aLen, a, ao, as0, bLen, b, bo, bs, res, ro, r0, 0)
  {
    hide Base, Pow, Eval;
    ClearedProduct(Base(w), as0, bs, r0, res[..], ro);
    hide Product, SameOutside;
    Kept(a, ao, aLen, as0, res, r0, ro, aLen + bLen);
    Kept(b, bo, bLen, bs, res, r0, ro, aLen + bLen);
  }

  /** Zeros are the product with no limbs of bs. */
  lemma ClearedProduct(B: nat, as0: seq<nat>, bs: seq<nat>, r0: seq<nat>, r: seq<nat>, ro: nat)
    requires B > 0 && SameOutside(r0, r, ro, ro + (|as0| + |bs|))
    requires forall k :: ro <= k < ro + (|as0| + |bs|) ==> r[k] == 0
    ensures Product(B, |as0| + |bs|, as0, bs, r0, r, ro, 0)
  {
    EvalZeros(B, r[ro..ro + |as0|]);
    assert bs[..0] == [];
  }

  lemma MulDone(w: nat, aLen: nat, a: array<nat>, ao: nat, as0: seq<nat>, bLen: nat, b: array<nat>, bo: nat,
                bs: seq<nat>, res: array<nat>, ro: nat, r0: seq<nat>)
    requires MulState(w, aLen, a, ao, as0, bLen, b, bo, bs, res, ro, r0, bLen)
    ensures ro + (aLen + bLen) <= res.Length && IsLimbs(Base(w), Slice(res, ro, aLen + bLen))
    ensures SameOutside(r0, res[..], ro, ro + (aLen + bLen))
    ensures Val(Base(w), res, ro, aLen + bLen) == Eval(Base(w), as0) * Eval(Base(w), bs)
  {
    assert bs[..bLen] == bs;
    assert res[..][ro..ro + (aLen + bLen)] == Slice(res, ro, aLen + bLen);
  }

  method BnMulLoop(w: nat, aLen: nat, a: array<nat>, ao: nat, ghost as0: seq<nat>, bLen: nat, b: array<nat>, bo: nat,
                   ghost bs: seq<nat>, res: array<nat>, ro: nat, ghost r0: seq<nat>)
    requires MulState(w, aLen, a, ao, as0, bLen, b, bo, bs, res, ro, r0, 0)
    modifies res
    ensures MulState(w, aLen, a, ao, as0, bLen, b, bo, bs, res, ro, r0, bLen)
  {
    hide *;
    var j := 0;
    while j < bLen
      invariant 0 <= j <= bLen
      invariant MulState(w, aLen, a, ao, as0, bLen, b, bo, bs, res, ro, r0, j)
    {
      BnMulRow(w, aLen, a, ao, as0, bLen, b, bo, bs, res, ro, r0, j);
      j := j + 1;
    }
  }

  ghost predicate MulState(w: nat, aLen: nat, a: array<nat>, ao: nat, as0: seq<nat>, bLen: nat, b: array<nat>, bo: nat,
                           bs: seq<nat>, res: array<nat>, ro: nat, r0: seq<nat>, j: nat)
    reads a, b, res
  {
    && ao + aLen <= a.Length && bo + bLen <= b.Length
    && Apart(a, ao, aLen, res, ro, aLen + bLen) && Apart(b, bo, bLen, res, ro, aLen + bLen)
    && a[ao..ao + aLen] == as0 && b[bo..bo + bLen] == bs
    && IsLimbs(Base(w), as0) && IsLimbs(Base(w), bs)
    && Product(Base(w), aLen + bLen, as0, bs, r0, res[..], ro, j)
  }

  method BnMulRow(w: nat, aLen: nat, a: array<nat>, ao: nat, ghost as0: seq<nat>, bLen: nat, b: array<nat>, bo: nat,
                  ghost bs: seq<nat>, res: array<nat>, ro: nat, ghost r0: seq<nat>, j: nat)
    requires MulState(w, aLen, a, ao, as0, bLen, b, bo, bs, res, ro, r0, j) && j < bLen
    modifies res
    ensures MulState(w, aLen, a, ao, as0, bLen, b, bo, bs, res, ro, r0, j + 1)
  {
    hide *;
    ghost var before := res[..];
    RowReady(w, aLen, a, ao, as0, bLen, b, bo, bs, res, ro, r0, j);
    var bj := b[bo + j];
    BnMulAddRowStore(w, aLen, a, ao, bj, res, ro + j);
    RowStored(Base(w), aLen, ro + j, bj * Eval(Base(w), as0), before, res);
    RowDone(w, aLen, a, ao, as0, bLen, b, bo, bs, res, ro, r0, before, j);
  }

  lemma RowReady(w: nat, aLen: nat, a: array<nat>, ao: nat, as0: seq<nat>, bLen: nat, b: array<nat>, bo: nat,
                 bs: seq<nat>, res: array<nat>, ro: nat, r0: seq<nat>, j: nat)
    requires MulState(w, aLen, a, ao, as0, bLen, b, bo, bs, res, ro, r0, j) && j < bLen
    ensures ro + aLen + bLen <= res.Length && bo + j < b.Length && |bs| == bLen && b[bo + j] == bs[j] < Base(w)
    ensures ao + aLen <= a.Length && Apart(a, ao, aLen, res, ro + j, aLen)
    ensures IsLimbs(Base(w), a[ao..ao + aLen]) && Val(Base(w), a, ao, aLen) == Eval(Base(w), as0)
    ensures IsLimbs(Base(w), res[ro + j..ro + j + aLen])
    ensures Val(Base(w), res, ro + j, aLen) == Eval(Base(w), res[..][ro + j..ro + j + aLen])
    ensures Operand(a, ao, aLen, as0, res, res[..], ro, aLen + bLen)
        && Operand(b, bo, bLen, bs, res, res[..], ro, aLen + bLen)
    ensures IsLimbs(Base(w), as0) && IsLimbs(Base(w), bs) && Product(Base(w), aLen + bLen, as0, bs, r0, res[..], ro, j)
  {
    hide Eval, Pow, Base;
    OperandNow(a, ao, aLen, as0, res, ro, aLen + bLen);
    OperandNow(b, bo, bLen, bs, res, ro, aLen + bLen);
    assert b[bo + j] == b[bo..bo + bLen][j];
    hide Operand;
    LimbsPart(Base(w), res[..], ro, aLen + bLen, ro + j, aLen);
    assert res[..][ro + j..ro + j + aLen] == Slice(res, ro + j, aLen);
  }

  lemma RowDone(w: nat, aLen: nat, a: array<nat>, ao: nat, as0: seq<nat>, bLen: nat, b: array<nat>, bo: nat,
                bs: seq<nat>, res: array<nat>, ro: nat, r0: seq<nat>, before: seq<nat>, j: nat)
    requires Operand(a, ao, aLen, as0, res, before, ro, aLen + bLen)
        && Operand(b, bo, bLen, bs, res, before, ro, aLen + bLen)
    requires IsLimbs(Base(w), as0) && IsLimbs(Base(w), bs) && Product(Base(w), aLen + bLen, as0, bs, r0, before, ro, j)
    requires j < bLen && RowWritten(Base(w), aLen, ro + j, bs[j] * Eval(Base(w), as0), before, res[..])
    ensures MulState(w, aLen, a, ao, as0, bLen, b, bo, bs, res, ro, r0, j + 1)
  {
    hide Eval, Pow, Base, IsLimbs;
    ProductNext(Base(w), aLen + bLen, as0, bs, r0, before, res[..], ro, j);
    SameOutsideWiden(before, res[..], ro + j, ro + j + aLen + 1, ro, ro + aLen + bLen);
    hide Product, SameOutside;
    Kept(a, ao, aLen, as0, res, before, ro, aLen + bLen);
    Kept(b, bo, bLen, bs, res, before, ro, aLen + bLen);
  }
}
