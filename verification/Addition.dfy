/** Addition and subtraction of bignums of equal length, Hacl_Bignum_Addition. */
module Addition {
  import opened Arith
  import opened Words
  import opened Limbs

  /** s with the carry c out of its top is x + y; read as s = x + y or, with a borrow, as x = s - y. */
  ghost predicate Sum(B: nat, s: seq<nat>, c: nat, x: seq<nat>, y: seq<nat>) {
    Eval(B, s) + c * Pow(B, |s|) == Eval(B, x) + Eval(B, y)
  }

  lemma SumStep(B: nat, s: seq<nat>, u: nat, c: nat, c': nat, x: seq<nat>, v: nat, y: seq<nat>, t: nat)
    requires |s| == |x| == |y|
    requires Sum(B, s, c, x, y) && u + c' * B == v + t + c
    ensures Sum(B, s + [u], c', x + [v], y + [t])
  {
    EvalSnoc(B, s, u); EvalSnoc(B, x, v); EvalSnoc(B, y, t);
    CarryArith(Pow(B, |s|), B, Eval(B, x), v, Eval(B, y), t, Eval(B, s), u, c, c');
  }

  lemma CarryArith(p: nat, B: nat, a: nat, x: nat, b: nat, y: nat, s: nat, z: nat, c: int, c': int)
    requires s + c * p == a + b && z + c' * B == x + y + c
    ensures s + p * z + c' * (B * p) == a + p * x + (b + p * y)
  {
  }

  /**
   * After i limbs: res holds the low i limbs of a + b, or of a - b when sub is set;
   * c is the carry or borrow and nothing else of res has changed.
   */
  ghost predicate Rippling(w: nat, sub: bool, as0: seq<nat>, bs: seq<nat>, r0: seq<nat>, r: seq<nat>, ro: nat, i: nat,
                           c: nat)
  {
    && i <= |as0| == |bs| && ro + i <= |r|
    && c <= 1
    && IsLimbs(Base(w), r[ro..ro + i])
    && SameOutside(r0, r, ro, ro + i)
    && if sub then Sum(Base(w), as0[..i], c, r[ro..ro + i], bs[..i])
       else Sum(Base(w), r[ro..ro + i], c, as0[..i], bs[..i])
  }

  lemma RippleNext(w: nat, sub: bool, as0: seq<nat>, bs: seq<nat>, r0: seq<nat>, r: seq<nat>, ro: nat, i: nat, c: nat,
                   v: nat, c': nat)
    requires Rippling(w, sub, as0, bs, r0, r, ro, i, c)
    requires i < |as0| && ro + i < |r| && v < Base(w) && c' <= 1
    requires if sub then v - c' * Base(w) == as0[i] - bs[i] - c else v + c' * Base(w) == as0[i] + bs[i] + c
    ensures Rippling(w, sub, as0, bs, r0, r[ro + i := v], ro, i + 1, c')
  {
    var r' := r[ro + i := v];
    assert r'[ro..ro + i + 1] == r[ro..ro + i] + [v];
    assert as0[..i + 1] == as0[..i] + [as0[i]] && bs[..i + 1] == bs[..i] + [bs[i]];
    if sub {
      SumStep(Base(w), as0[..i], as0[i], c, c', r[ro..ro + i], v, bs[..i], bs[i]);
    } else {
      SumStep(Base(w), r[ro..ro + i], v, c, c', as0[..i], as0[i], bs[..i], bs[i]);
    }
    assert r'[..ro] == r[..ro];
    assert r'[ro + i + 1..] == r[ro + i..][1..];
    assert r0[ro + i + 1..] == r0[ro + i..][1..];
  }

  /** The limbs of a buffer from index i on are still those of the operand s. */
  ghost predicate Unread(a: array<nat>, ao: nat, s: seq<nat>, i: nat, n: nat, res: array<nat>, ro: nat)
    reads a
  {
    i <= n == |s| && ao + n <= a.Length && SameOrApart(a, ao, res, ro, n) && a[ao + i..ao + n] == s[i..]
  }

  /** The loop state after i of n limbs: the operands are as0 and bs, and res was r0. */
  ghost predicate RippleState(w: nat, sub: bool, n: nat, a: array<nat>, ao: nat, as0: seq<nat>, bs: seq<nat>,
                              res: array<nat>, ro: nat, r0: seq<nat>, i: nat, c: nat)
    reads a, res
  {
    && w > 0 && ro + n <= res.Length
    && |as0| == |bs| == n && IsLimbs(Base(w), as0) && IsLimbs(Base(w), bs)
    && Unread(a, ao, as0, i, n, res, ro)
    && Rippling(w, sub, as0, bs, r0, res[..], ro, i, c)
  }

  /** Limb i can be read, and writing limb i of res leaves the limbs above alone, also when res is the operand. */
  lemma ReadAhead(a: array<nat>, ao: nat, s: seq<nat>, res: array<nat>, ro: nat, i: nat, n: nat, v: nat)
    requires i < n && ro + n <= res.Length && Unread(a, ao, s, i, n, res, ro)
    ensures a[ao + i] == s[i] && a[ao + i + 1..ao + n] == s[i + 1..]
    ensures a == res ==> a[..][ro + i := v][ao + i + 1..ao + n] == s[i + 1..]
  {
    assert a[ao + i] == a[ao + i..ao + n][0];
    assert a[ao + i + 1..ao + n] == a[ao + i..ao + n][1..];
  }

  /** One call of add_carry or sub_borrow: limb i of a and the limb y give limb i of res. */
  method RippleLimb(w: nat, sub: bool, c: nat, n: nat, a: array<nat>, ao: nat, ghost as0: seq<nat>, ghost bs: seq<nat>,
                    y: nat, res: array<nat>, ro: nat, ghost r0: seq<nat>, i: nat)
      returns (c': nat)
    requires RippleState(w, sub, n, a, ao, as0, bs, res, ro, r0, i, c) && i < n && y == bs[i]
    modifies res
    ensures RippleState(w, sub, n, a, ao, as0, bs, res, ro, r0, i + 1, c')
    ensures SameOutside(old(res[..]), res[..], ro + i, ro + i + 1)
  {
    ghost var before := res[..];
    ReadAhead(a, ao, as0, res, ro, i, n, 0);
    var t1 := a[ao + i];
    var r := if sub then SubBorrow(w, c, t1, y) else AddCarry(w, c, t1, y);
    ReadAhead(a, ao, as0, res, ro, i, n, r.1);
    RippleNext(w, sub, as0, bs, r0, before, ro, i, c, r.1, r.0);
    res[ro + i] := r.1;
    c' := r.0;
    assert res[..] == before[ro + i := r.1];
    assert a[ao + i + 1..ao + n] == as0[i + 1..];
  }

  /** The same with the limb y read from b, which may also be res. */
  method RippleLimbs(w: nat, sub: bool, c: nat, n: nat, a: array<nat>, ao: nat, ghost as0: seq<nat>, b: array<nat>,
                     bo: nat, ghost bs: seq<nat>, res: array<nat>, ro: nat, ghost r0: seq<nat>, i: nat)
      returns (c': nat)
    requires RippleState(w, sub, n, a, ao, as0, bs, res, ro, r0, i, c) && Unread(b, bo, bs, i, n, res, ro) && i < n
    modifies res
    ensures RippleState(w, sub, n, a, ao, as0, bs, res, ro, r0, i + 1, c') && Unread(b, bo, bs, i + 1, n, res, ro)
  {
    ghost var before := res[..];
    ReadAhead(b, bo, bs, res, ro, i, n, 0);
    c' := RippleLimb(w, sub, c, n, a, ao, as0, bs, b[bo + i], res, ro, r0, i);
    if b == res {
      SliceOutside(before, res[..], ro + i, ro + i + 1, bo + i + 1, n - i - 1);
      assert before[bo + i + 1..bo + n] == old(b[bo + i + 1..bo + n]);
      assert b[bo + i + 1..bo + n] == b[..][bo + i + 1..bo + n];
    }
  }

  method RippleLoops(w: nat, sub: bool, n: nat, a: array<nat>, ao: nat, ghost as0: seq<nat>, b: array<nat>, bo: nat,
                     ghost bs: seq<nat>, res: array<nat>, ro: nat, ghost r0: seq<nat>)
      returns (c: nat)
    requires RippleState(w, sub, n, a, ao, as0, bs, res, ro, r0, 0, 0) && Unread(b, bo, bs, 0, n, res, ro)
    modifies res
    ensures RippleState(w, sub, n, a, ao, as0, bs, res, ro, r0, n, c)
  {
    hide *;
    c := 0;
    var i := 0;
    while i < n / 4
      invariant 0 <= i <= n / 4
      invariant RippleState(w, sub, n, a, ao, as0, bs, res, ro, r0, 4 * i, c) && Unread(b, bo, bs, 4 * i, n, res, ro)
    {
      c := RippleLimbs(w, sub, c, n, a, ao, as0, b, bo, bs, res, ro, r0, 4 * i);
      c := RippleLimbs(w, sub, c, n, a, ao, as0, b, bo, bs, res, ro, r0, 4 * i + 1);
      c := RippleLimbs(w, sub, c, n, a, ao, as0, b, bo, bs, res, ro, r0, 4 * i + 2);
      c := RippleLimbs(w, sub, c, n, a, ao, as0, b, bo, bs, res, ro, r0, 4 * i + 3);
      i := i + 1;
    }
    i := n / 4 * 4;
    while i < n
      invariant n / 4 * 4 <= i <= n
      invariant RippleState(w, sub, n, a, ao, as0, bs, res, ro, r0, i, c) && Unread(b, bo, bs, i, n, res, ro)
    {
      c := RippleLimbs(w, sub, c, n, a, ao, as0, b, bo, bs, res, ro, r0, i);
      i := i + 1;
    }
  }

  method BnAddEqLen(w: nat, n: nat, a: array<nat>, ao: nat, b: array<nat>, bo: nat, res: array<nat>, ro: nat)
      returns (c: nat)
    requires w > 0 && ao + n <= a.Length && bo + n <= b.Length && ro + n <= res.Length
    requires SameOrApart(a, ao, res, ro, n) && SameOrApart(b, bo, res, ro, n)
    requires IsLimbs(Base(w), Slice(a, ao, n)) && IsLimbs(Base(w), Slice(b, bo, n))
    modifies res
    ensures c <= 1 && IsLimbs(Base(w), Slice(res, ro, n))
    ensures Val(Base(w), res, ro, n) + Carry(c, Pow(Base(w), n)) == old(Val(Base(w), a, ao, n))
        + old(Val(Base(w), b, bo, n))
    ensures forall x: array<nat>, i: nat, m: nat {:trigger Slice(x, i, m)} ::
              old(allocated(x)) && Away(x, i, m, res, ro, n) ==> Slice(x, i, m) == old(Slice(x, i, m))
  {
    ghost var as0, bs, r0 := a[ao..ao + n], b[bo..bo + n], res[..];
    assert as0[..0] == [] && bs[..0] == [];
    c := RippleLoops(w, false, n, a, ao, as0, b, bo, bs, res, ro, r0);
    assert as0[..n] == as0 && bs[..n] == bs;
    assert res[..][ro..ro + n] == Slice(res, ro, n);
    forall x: array<nat>, i: nat, m: nat | old(allocated(x)) && Away(x, i, m, res, ro, n)
      ensures Slice(x, i, m) == old(Slice(x, i, m))
    {
      AwayKept(x, i, m, res, r0, ro, n);
    }
  }

  method BnSubEqLen(w: nat, n: nat, a: array<nat>, ao: nat, b: array<nat>, bo: nat, res: array<nat>, ro: nat)
      returns (c: nat)
    requires w > 0 && ao + n <= a.Length && bo + n <= b.Length && ro + n <= res.Length
    requires SameOrApart(a, ao, res, ro, n) && SameOrApart(b, bo, res, ro, n)
    requires IsLimbs(Base(w), Slice(a, ao, n)) && IsLimbs(Base(w), Slice(b, bo, n))
    modifies res
    ensures c <= 1 && IsLimbs(Base(w), Slice(res, ro, n))
    ensures Val(Base(w), res, ro, n) - Carry(c, Pow(Base(w), n))
        == old(Val(Base(w), a, ao, n)) - old(Val(Base(w), b, bo, n))
    ensures forall x: array<nat>, i: nat, m: nat {:trigger Slice(x, i, m)} ::
              old(allocated(x)) && Away(x, i, m, res, ro, n) ==> Slice(x, i, m) == old(Slice(x, i, m))
  {
    ghost var as0, bs, r0 := a[ao..ao + n], b[bo..bo + n], res[..];
    assert as0[..0] == [] && bs[..0] == [];
    c := RippleLoops(w, true, n, a, ao, as0, b, bo, bs, res, ro, r0);
    assert as0[..n] == as0 && bs[..n] == bs;
    assert res[..][ro..ro + n] == Slice(res, ro, n);
    forall x: array<nat>, i: nat, m: nat | old(allocated(x)) && Away(x, i, m, res, ro, n)
      ensures Slice(x, i, m) == old(Slice(x, i, m))
    {
      AwayKept(x, i, m, res, r0, ro, n);
    }
  }

  /** The one-limb number b1 padded with zeros to n limbs. */
  ghost function OneLimb(b1: nat, n: nat): (s: seq<nat>)
    requires n > 0
    ensures |s| == n && s[0] == b1 && forall i :: 0 < i < n ==> s[i] == 0
  {
    [b1] + seq(n - 1, _ => 0)
  }

  lemma EvalOneLimb(B: nat, b1: nat, n: nat)
    requires n > 0
    ensures Eval(B, OneLimb(b1, n)) == b1
  {
    EvalZeros(B, OneLimb(b1, n)[1..]);
  }

  method RippleOneLoops(w: nat, sub: bool, n: nat, a: array<nat>, ao: nat, ghost as0: seq<nat>, b1: nat,
                        ghost bs: seq<nat>, res: array<nat>, ro: nat, ghost r0: seq<nat>)
      returns (c: nat)
    requires n > 0 && RippleState(w, sub, n, a, ao, as0, bs, res, ro, r0, 0, 0)
    requires |bs| == n && bs[0] == b1 && forall i :: 0 < i < n ==> bs[i] == 0
    modifies res
    ensures RippleState(w, sub, n, a, ao, as0, bs, res, ro, r0, n, c)
  {
    hide *;
    c := RippleLimb(w, sub, 0, n, a, ao, as0, bs, b1, res, ro, r0, 0);
    if 1 < n {
      var rLen := n - 1;
      var i := 0;
      while i < rLen / 4
        invariant 0 <= i <= rLen / 4
        invariant RippleState(w, sub, n, a, ao, as0, bs, res, ro, r0, 1 + 4 * i, c)
      {
        c := RippleLimb(w, sub, c, n, a, ao, as0, bs, 0, res, ro, r0, 1 + 4 * i);
        c := RippleLimb(w, sub, c, n, a, ao, as0, bs, 0, res, ro, r0, 1 + 4 * i + 1);
        c := RippleLimb(w, sub, c, n, a, ao, as0, bs, 0, res, ro, r0, 1 + 4 * i + 2);
        c := RippleLimb(w, sub, c, n, a, ao, as0, bs, 0, res, ro, r0, 1 + 4 * i + 3);
        i := i + 1;
      }
      i := rLen / 4 * 4;
      while i < rLen
        invariant rLen / 4 * 4 <= i <= rLen
        invariant RippleState(w, sub, n, a, ao, as0, bs, res, ro, r0, 1 + i, c)
      {
        c := RippleLimb(w, sub, c, n, a, ao, as0, bs, 0, res, ro, r0, 1 + i);
        i := i + 1;
      }
    }
  }

  /** Adding a single word: the carry propagation at the end of Karatsuba. */
  method BnAdd1(w: nat, n: nat, a: array<nat>, ao: nat, b1: nat, res: array<nat>, ro: nat) returns (c: nat)
    requires w > 0 && n > 0 && ao + n <= a.Length && ro + n <= res.Length && SameOrApart(a, ao, res, ro, n)
    requires IsLimbs(Base(w), Slice(a, ao, n)) && b1 < Base(w)
    modifies res
    ensures c <= 1 && IsLimbs(Base(w), Slice(res, ro, n))
    ensures Val(Base(w), res, ro, n) + Carry(c, Pow(Base(w), n)) == old(Val(Base(w), a, ao, n)) + b1
    ensures forall x: array<nat>, i: nat, m: nat {:trigger Slice(x, i, m)} ::
              old(allocated(x)) && Away(x, i, m, res, ro, n) ==> Slice(x, i, m) == old(Slice(x, i, m))
  {
    ghost var as0, bs, r0 := a[ao..ao + n], OneLimb(b1, n), res[..];
    EvalOneLimb(Base(w), b1, n);
    assert as0[..0] == [] && bs[..0] == [];
    c := RippleOneLoops(w, false, n, a, ao, as0, b1, bs, res, ro, r0);
    assert as0[..n] == as0 && bs[..n] == bs;
    assert res[..][ro..ro + n] == Slice(res, ro, n);
    forall x: array<nat>, i: nat, m: nat | old(allocated(x)) && Away(x, i, m, res, ro, n)
      ensures Slice(x, i, m) == old(Slice(x, i, m))
    {
      AwayKept(x, i, m, res, r0, ro, n);
    }
  }

  /** Subtracting a single word: the borrow loop that computes n - 2 for the modular inverse. */
  method BnSub1(w: nat, n: nat, a: array<nat>, ao: nat, b1: nat, res: array<nat>, ro: nat) returns (c: nat)
    requires w > 0 && n > 0 && ao + n <= a.Length && ro + n <= res.Length && SameOrApart(a, ao, res, ro, n)
    requires IsLimbs(Base(w), Slice(a, ao, n)) && b1 < Base(w)
    modifies res
    ensures c <= 1 && IsLimbs(Base(w), Slice(res, ro, n))
    ensures Val(Base(w), res, ro, n) - Carry(c, Pow(Base(w), n)) == old(Val(Base(w), a, ao, n)) - b1
    ensures forall x: array<nat>, i: nat, m: nat {:trigger Slice(x, i, m)} ::
              old(allocated(x)) && Away(x, i, m, res, ro, n) ==> Slice(x, i, m) == old(Slice(x, i, m))
  {
    ghost var as0, bs, r0 := a[ao..ao + n], OneLimb(b1, n), res[..];
    EvalOneLimb(Base(w), b1, n);
    assert as0[..0] == [] && bs[..0] == [];
    c := RippleOneLoops(w, true, n, a, ao, as0, b1, bs, res, ro, r0);
    assert as0[..n] == as0 && bs[..n] == bs;
    assert res[..][ro..ro + n] == Slice(res, ro, n);
    forall x: array<nat>, i: nat, m: nat | old(allocated(x)) && Away(x, i, m, res, ro, n)
      ensures Slice(x, i, m) == old(Slice(x, i, m))
    {
      AwayKept(x, i, m, res, r0, ro, n);
    }
  }
}
