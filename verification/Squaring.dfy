/** Squaring by half the products, bn_sqr_u64: triangle, doubling, diagonal. */
module Squaring {
  import opened Arith
  import opened Words
  import opened Limbs
  import opened Addition
  import opened Multiplication

  /** The products a[i] * a[j] with i < j below row k, each once. */
  ghost function Triangle(B: nat, s: seq<nat>, k: nat): nat
    requires k <= |s|
  {
    if k == 0 then 0 else Triangle(B, s, k - 1) + Prod(Pow(B, k - 1), Prod(s[k - 1], Eval(B, s[..k - 1])))
  }

  /** The squares a[i] * a[i] below row k. */
  ghost function Diagonal(B: nat, s: seq<nat>, k: nat): nat
    requires k <= |s|
  {
    if k == 0 then 0 else Diagonal(B, s, k - 1) + Prod(Pow(B, 2 * (k - 1)), Prod(s[k - 1], s[k - 1]))
  }

  lemma {:induction false} SquareParts(B: nat, s: seq<nat>, k: nat)
    requires k <= |s|
    ensures 2 * Triangle(B, s, k) + Diagonal(B, s, k) == Eval(B, s[..k]) * Eval(B, s[..k])
  {
    if k > 0 {
      SquareParts(B, s, k - 1);
      assert s[..k] == s[..k - 1] + [s[k - 1]];
      EvalSnoc(B, s[..k - 1], s[k - 1]);
      PowAdd(B, k - 1, k - 1);
      SquareArith(Eval(B, s[..k - 1]), Pow(B, k - 1), s[k - 1]);
    }
  }

  lemma SquareArith(e: nat, p: nat, x: nat)
    ensures (e + p * x) * (e + p * x) == e * e + 2 * (p * (x * e)) + (p * p) * (x * x)
  {
    var q := p * x;
    assert (e + q) * (e + q) == e * e + 2 * (q * e) + q * q;
    assert q * e == p * (x * e) by { MulAssoc(p, x, e); }
    assert q * q == (p * p) * (x * x) by {
      MulAssoc(p, x, q); MulAssoc(x, p, x); MulAssoc(p, x, x); MulAssoc(p, p, x * x);
    }
  }

  /** After j rows: the triangle of the low j limbs, with zeros above it. */
  ghost predicate TriangleDone(B: nat, as0: seq<nat>, r0: seq<nat>, r: seq<nat>, ro: nat, j: nat) {
    && ro + 2 * |as0| <= |r| && j <= |as0|
    && IsLimbs(B, r[ro..ro + 2 * |as0|]) && SameOutside(r0, r, ro, ro + 2 * |as0|)
    && (forall k :: ro <= k < ro + 2 * |as0| && ro + 2 * j <= k + 1 ==> r[k] == 0)
    && Eval(B, r[ro..ro + 2 * j]) == Triangle(B, as0, j)
  }

  lemma TriangleNext(B: nat, as0: seq<nat>, r0: seq<nat>, r: seq<nat>, r': seq<nat>, ro: nat, j: nat)
    requires TriangleDone(B, as0, r0, r, ro, j) && j < |as0|
    requires RowWritten(B, j, ro + j, as0[j] * Eval(B, as0[..j]), r, r')
    ensures TriangleDone(B, as0, r0, r', ro, j + 1)
  {
    TriangleRest(B, as0, r0, r, r', ro, j);
    TriangleValue(B, as0, r0, r, r', ro, j);
  }

  lemma TriangleRest(B: nat, as0: seq<nat>, r0: seq<nat>, r: seq<nat>, r': seq<nat>, ro: nat, j: nat)
    requires TriangleDone(B, as0, r0, r, ro, j) && j < |as0|
    requires RowWritten(B, j, ro + j, as0[j] * Eval(B, as0[..j]), r, r')
    ensures ro + 2 * |as0| <= |r'| && IsLimbs(B, r'[ro..ro + 2 * |as0|]) && SameOutside(r0, r', ro, ro + 2 * |as0|)
    ensures forall k :: ro + 2 * j + 1 <= k < ro + 2 * |as0| ==> r'[k] == 0
  {
    hide Eval, Pow, Triangle;
    var m, lo, hi := 2 * |as0|, ro + j, ro + 2 * j + 1;
    RowLimbs(B, j, ro, m, lo, as0[j] * Eval(B, as0[..j]), r, r');
    forall k | hi <= k < ro + m ensures r'[k] == 0 {
      assert r[hi..][k - hi] == r'[hi..][k - hi];
    }
    SameOutsideWiden(r, r', lo, hi, ro, ro + m);
    SameOutsideTrans(r0, r, r', ro, ro + m);
  }

  lemma TopLimbZero(B: nat, ro: nat, m: nat, r: seq<nat>)
    requires ro + m < |r| && r[ro + m] == 0
    ensures Eval(B, r[ro..ro + (m + 1)]) == Eval(B, r[ro..ro + m])
  {
    var s := r[ro..ro + (m + 1)];
    assert s[..m] == r[ro..ro + m] && s[m] == r[ro + m];
    EvalCarryOut(B, s, m);
  }

  lemma TriangleValue(B: nat, as0: seq<nat>, r0: seq<nat>, r: seq<nat>, r': seq<nat>, ro: nat, j: nat)
    requires TriangleDone(B, as0, r0, r, ro, j) && j < |as0|
    requires RowWritten(B, j, ro + j, as0[j] * Eval(B, as0[..j]), r, r')
    requires ro + 2 * |as0| <= |r'| && r'[ro + 2 * j + 1] == 0
    ensures Eval(B, r'[ro..ro + 2 * (j + 1)]) == Triangle(B, as0, j + 1)
  {
    hide Eval, Pow, IsLimbs, SameOutside;
    ghost var d := as0[j] * Eval(B, as0[..j]);
    RowShift(B, j, ro, j, d, r, r');
    hide RowWritten;
    TopLimbZero(B, ro, 2 * j + 1, r');
    assert ro + j + j == ro + 2 * j;
  }

  ghost predicate SqrState(w: nat, n: nat, a: array<nat>, ao: nat, as0: seq<nat>, res: array<nat>, ro: nat,
                           r0: seq<nat>, j: nat)
    reads a, res
  {
    && ao + n <= a.Length && Apart(a, ao, n, res, ro, n + n) && ro + n + n <= res.Length
    && a[ao..ao + n] == as0 && IsLimbs(Base(w), as0)
    && TriangleDone(Base(w), as0, r0, res[..], ro, j)
  }

  lemma SqrRowReady(w: nat, n: nat, a: array<nat>, ao: nat, as0: seq<nat>, res: array<nat>, ro: nat, r0: seq<nat>,
                    j: nat)
    requires SqrState(w, n, a, ao, as0, res, ro, r0, j) && j < n
    ensures ao + n <= a.Length && ro + n + n <= res.Length && |as0| == n
    ensures a[ao + j] == as0[j] < Base(w) && Val(Base(w), a, ao, j) == Eval(Base(w), as0[..j])
        && IsLimbs(Base(w), a[ao..ao + j])
    ensures Apart(a, ao, j, res, ro + j, j)
    ensures IsLimbs(Base(w), res[ro + j..ro + j + j])
    ensures Val(Base(w), res, ro + j, j) == Eval(Base(w), res[..][ro + j..ro + j + j])
    ensures Operand(a, ao, n, as0, res, res[..], ro, n + n) && IsLimbs(Base(w), as0)
    ensures TriangleDone(Base(w), as0, r0, res[..], ro, j)
  {
    hide Eval, Pow, Triangle;
    OperandNow(a, ao, n, as0, res, ro, n + n);
    hide Operand;
    assert a[ao + j] == a[ao..ao + n][j];
    assert Slice(a, ao, j) == a[ao..ao + n][..j] == as0[..j];
    LimbsPart(Base(w), res[..], ro, n + n, ro + j, j);
    assert Slice(res, ro + j, j) == res[..][ro + j..ro + j + j];
  }

  lemma SqrRowDone(w: nat, n: nat, a: array<nat>, ao: nat, as0: seq<nat>, res: array<nat>, ro: nat, r0: seq<nat>,
                   before: seq<nat>, j: nat)
    requires Operand(a, ao, n, as0, res, before, ro, n + n) && IsLimbs(Base(w), as0) && j < n
    requires TriangleDone(Base(w), as0, r0, before, ro, j)
    requires RowWritten(Base(w), j, ro + j, as0[j] * Eval(Base(w), as0[..j]), before, res[..])
    ensures SqrState(w, n, a, ao, as0, res, ro, r0, j + 1)
  {
    hide Eval, Pow, Base, IsLimbs, Triangle;
    TriangleNext(Base(w), as0, r0, before, res[..], ro, j);
    SameOutsideWiden(before, res[..], ro + j, ro + j + j + 1, ro, ro + n + n);
    Kept(a, ao, n, as0, res, before, ro, n + n);
  }

  method SqrRow(w: nat, n: nat, a: array<nat>, ao: nat, ghost as0: seq<nat>, res: array<nat>, ro: nat,
                ghost r0: seq<nat>, j: nat)
    requires SqrState(w, n, a, ao, as0, res, ro, r0, j) && j < n
    modifies res
    ensures SqrState(w, n, a, ao, as0, res, ro, r0, j + 1)
  {
    hide *;
    ghost var before := res[..];
    SqrRowReady(w, n, a, ao, as0, res, ro, r0, j);
    var a_j := a[ao + j];
    BnMulAddRowStore(w, j, a, ao, a_j, res, ro + j);
    RowStored(Base(w), j, ro + j, a_j * Eval(Base(w), as0[..j]), before, res);
    SqrRowDone(w, n, a, ao, as0, res, ro, r0, before, j);
  }

  method SqrLoop(w: nat, n: nat, a: array<nat>, ao: nat, ghost as0: seq<nat>, res: array<nat>, ro: nat,
                 ghost r0: seq<nat>)
    requires SqrState(w, n, a, ao, as0, res, ro, r0, 0)
    modifies res
    ensures SqrState(w, n, a, ao, as0, res, ro, r0, n)
  {
    hide *;
    var j := 0;
    while j < n
      invariant 0 <= j <= n
      invariant SqrState(w, n, a, ao, as0, res, ro, r0, j)
    {
      SqrRow(w, n, a, ao, as0, res, ro, r0, j);
      j := j + 1;
    }
  }

  /** The squares of the limbs, two limbs each. */
  method SquareLimbs(w: nat, n: nat, a: array<nat>, ao: nat) returns (tmp: array<nat>)
    requires ao + n <= a.Length && IsLimbs(Base(w), a[ao..ao + n])
    ensures fresh(tmp) && tmp.Length == n + n && IsLimbs(Base(w), tmp[..])
    ensures Eval(Base(w), tmp[..]) == Diagonal(Base(w), a[ao..ao + n], n)
  {
    tmp := new nat[n + n](_ => 0);
    ghost var as0 := a[ao..ao + n];
    var i := 0;
    assert tmp[..0] == [];
    while i < n
      invariant 0 <= i <= n
      invariant IsLimbs(Base(w), tmp[..2 * i])
      invariant Eval(Base(w), tmp[..2 * i]) == Diagonal(Base(w), as0, i)
    {
      assert a[ao + i] == as0[i];
      var r := MulWideAdd2(w, a[ao + i], a[ao + i], 0, 0);
      ghost var low := tmp[..2 * i];
      tmp[2 * i] := r.1;
      tmp[2 * i + 1] := r.0;
      assert tmp[..2 * (i + 1)] == low + [r.1] + [r.0];
      DiagonalStep(Base(w), low, as0[i], r.1, r.0);
      i := i + 1;
    }
    assert tmp[..2 * n] == tmp[..];
  }

  lemma DiagonalStep(B: nat, low: seq<nat>, x: nat, lo: nat, hi: nat)
    requires lo + hi * B == x * x
    ensures Eval(B, low + [lo] + [hi]) == Eval(B, low) + Pow(B, |low|) * (x * x)
  {
    hide Eval;
    EvalSnoc(B, low + [lo], hi);
    EvalSnoc(B, low, lo);
    var p := Pow(B, |low|);
    assert (B * p) * hi == p * (hi * B) by { MulAssoc(p, hi, B); MulAssoc(B, p, hi); }
    MulSum(p, x * x, lo, hi * B);
  }

  /** The doubled triangle and the diagonal stay below the square, so neither addition carries. */
  lemma NoCarry(w: nat, s: seq<nat>)
    requires IsLimbs(Base(w), s)
    ensures var B := Base(w); 2 * Triangle(B, s, |s|) < Pow(B, |s| + |s|)
    ensures var B := Base(w); Eval(B, s) * Eval(B, s) < Pow(B, |s| + |s|)
  {
    hide Triangle, Diagonal, Eval, Pow;
    var B, n := Base(w), |s|;
    SquareParts(B, s, n);
    assert s[..n] == s;
    EvalBound(B, s);
    PowAdd(B, n, n);
    var e := Eval(B, s);
    MulLt(e, Pow(B, n), Pow(B, n));
    MulLe(e, Pow(B, n), e);
  }

  method BnSqr(w: nat, n: nat, a: array<nat>, ao: nat, res: array<nat>, ro: nat)
    requires w > 0 && ao + n <= a.Length && ro + (n + n) <= res.Length && Apart(a, ao, n, res, ro, n + n)
    requires IsLimbs(Base(w), Slice(a, ao, n))
    modifies res
    ensures IsLimbs(Base(w), Slice(res, ro, n + n))
    ensures Val(Base(w), res, ro, n + n) == old(Val(Base(w), a, ao, n)) * old(Val(Base(w), a, ao, n))
    ensures forall x: array<nat>, i: nat, m: nat {:trigger Slice(x, i, m)} ::
              old(allocated(x)) && Away(x, i, m, res, ro, n + n) ==> Slice(x, i, m) == old(Slice(x, i, m))
  {
    ghost var as0, r0 := Slice(a, ao, n), res[..];
    assert Val(Base(w), a, ao, n) == Eval(Base(w), as0);
    Clear(res, ro, n + n);
    assert SqrState(w, n, a, ao, as0, res, ro, r0, 0) by {
      Kept(a, ao, n, as0, res, r0, ro, n + n);
      assert res[..][ro..ro + 2 * n] == Slice(res, ro, n + n);
    }
    hide Eval, Pow, IsLimbs, TriangleDone, SameOutside;
    SqrLoop(w, n, a, ao, as0, res, ro, r0);
    SqrApart(w, n, a, ao, as0, res, ro, r0);
    forall x: array<nat>, i: nat, m: nat | old(allocated(x)) && Away(x, i, m, res, ro, n + n)
      ensures Slice(x, i, m) == old(Slice(x, i, m))
    {
      AwayKept(x, i, m, res, r0, ro, n + n);
    }
    SqrFinish(w, n, a, ao, as0, res, ro, r0);
  }

  lemma SqrApart(w: nat, n: nat, a: array<nat>, ao: nat, as0: seq<nat>, res: array<nat>, ro: nat, r0: seq<nat>)
    requires SqrState(w, n, a, ao, as0, res, ro, r0, n)
    ensures ro + (n + n) <= res.Length && SameOutside(r0, res[..], ro, ro + (n + n))
    ensures ao + n <= a.Length && Slice(a, ao, n) == as0 && IsLimbs(Base(w), as0)
    ensures IsLimbs(Base(w), Slice(res, ro, n + n)) && Val(Base(w), res, ro, n + n) == Triangle(Base(w), as0, n)
  {
    hide Eval, Pow, Triangle;
    assert res[..][ro..ro + 2 * n] == Slice(res, ro, n + n);
  }

  method SqrFinish(w: nat, n: nat, a: array<nat>, ao: nat, ghost as0: seq<nat>, res: array<nat>, ro: nat,
                   ghost r0: seq<nat>)
    requires w > 0 && SqrState(w, n, a, ao, as0, res, ro, r0, n) && ro + (n + n) <= res.Length
    modifies res
    ensures IsLimbs(Base(w), Slice(res, ro, n + n))
    ensures Val(Base(w), res, ro, n + n) == Eval(Base(w), as0) * Eval(Base(w), as0)
    ensures forall x: array<nat>, i: nat, m: nat {:trigger Slice(x, i, m)} ::
              old(allocated(x)) && Away(x, i, m, res, ro, n + n) ==> Slice(x, i, m) == old(Slice(x, i, m))
  {
    SqrApart(w, n, a, ao, as0, res, ro, r0);
    hide Eval, Pow, Triangle, Diagonal, SqrState;
    ghost var B := Base(w);
    NoCarry(w, as0);
    SquareParts(B, as0, n);
    assert as0[..n] == as0;
    var tmp := SquareLimbs(w, n, a, ao);
    var c0 := BnAddEqLen(w, n + n, res, ro, res, ro, res, ro);
    EvalBound(B, Slice(res, ro, n + n));
    CarryIsZero(c0, Val(B, res, ro, n + n), Pow(B, n + n), 2 * Triangle(B, as0, n));
    assert Slice(tmp, 0, n + n) == tmp[..];
    var c1 := BnAddEqLen(w, n + n, res, ro, tmp, 0, res, ro);
    EvalBound(B, Slice(res, ro, n + n));
    CarryIsZero(c1, Val(B, res, ro, n + n), Pow(B, n + n), Eval(B, as0) * Eval(B, as0));
  }

  lemma CarryIsZero(c: nat, v: nat, p: nat, t: nat)
    requires v + Carry(c, p) == t < p
    ensures c == 0 && v == t
  {
  }
}
