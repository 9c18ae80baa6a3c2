/**
 * Bignums: little-endian sequences of limbs below a base B, and the value they stand for.
 * A C pointer into a buffer is an array together with an offset.
 */
module Limbs {
  import opened Arith

  function Eval(B: nat, s: seq<nat>): nat {
    if s == [] then 0 else s[0] + B * Eval(B, s[1..])
  }

  /** What a carry bit is worth above n limbs, p being their weight. */
  function Carry(c: nat, p: nat): nat {
    if c == 0 then 0 else p
  }

  ghost predicate IsLimbs(B: nat, s: seq<nat>) {
    forall i :: 0 <= i < |s| ==> s[i] < B
  }

  lemma LimbsSlice(B: nat, s: seq<nat>, i: nat, n: nat)
    requires IsLimbs(B, s) && i + n <= |s|
    ensures IsLimbs(B, s[i..i + n])
  {
  }

  /** Part of a stretch of limbs of a buffer. */
  lemma LimbsPart(B: nat, a: seq<nat>, i: nat, n: nat, j: nat, m: nat)
    requires i <= j && j + m <= i + n <= |a| && IsLimbs(B, a[i..i + n])
    ensures IsLimbs(B, a[j..j + m])
    ensures a[i..i + n][j - i..j - i + m] == a[j..j + m]
  {
    var u, v := a[i..i + n][j - i..j - i + m], a[j..j + m];
    forall k | 0 <= k < m ensures u[k] == v[k] {}
    LimbsSlice(B, a[i..i + n], j - i, m);
  }

  lemma {:induction false} EvalConcat(B: nat, s: seq<nat>, t: seq<nat>)
    ensures Eval(B, s + t) == Eval(B, s) + Pow(B, |s|) * Eval(B, t)
  {
    if s == [] {
      assert s + t == t;
    } else {
      EvalConcat(B, s[1..], t);
      assert (s + t)[1..] == s[1..] + t;
      var p := Pow(B, |s| - 1);
      MulDistrib(B, Eval(B, s[1..]), p * Eval(B, t));
      MulAssoc(B, p, Eval(B, t));
    }
  }

  lemma EvalOne(B: nat, x: nat)
    ensures Eval(B, [x]) == x
  {
  }

  lemma EvalSnoc(B: nat, s: seq<nat>, x: nat)
    ensures Eval(B, s + [x]) == Eval(B, s) + Pow(B, |s|) * x
  {
    EvalConcat(B, s, [x]);
    EvalOne(B, x);
  }

  lemma EvalSplit(B: nat, s: seq<nat>, k: nat)
    requires k <= |s|
    ensures Eval(B, s) == Eval(B, s[..k]) + Pow(B, k) * Eval(B, s[k..])
  {
    assert s == s[..k] + s[k..];
    EvalConcat(B, s[..k], s[k..]);
  }

  lemma EvalCarryOut(B: nat, s: seq<nat>, n: nat)
    requires |s| == n + 1
    ensures Eval(B, s) == Eval(B, s[..n]) + s[n] * Pow(B, n)
  {
    assert s == s[..n] + [s[n]];
    EvalSnoc(B, s[..n], s[n]);
  }

  /** Adding d to the limbs from j on adds d, shifted by j limbs, to the value. */
  lemma EvalReplaceHigh(B: nat, j: nat, d: int, pre: seq<nat>, post: seq<nat>)
    requires j <= |pre| && j <= |post| && pre[..j] == post[..j]
    requires Eval(B, post[j..]) == Eval(B, pre[j..]) + d
    ensures Eval(B, post) == Eval(B, pre) + Pow(B, j) * d
  {
    hide *;
    EvalSplit(B, pre, j);
    EvalSplit(B, post, j);
    MulSum(Pow(B, j), Eval(B, post[j..]), Eval(B, pre[j..]), d);
  }

  lemma {:induction false} EvalBound(B: nat, s: seq<nat>)
    requires B > 0 && IsLimbs(B, s)
    ensures Eval(B, s) < Pow(B, |s|)
  {
    if s != [] {
      EvalBound(B, s[1..]);
      var e, p := Eval(B, s[1..]), Pow(B, |s| - 1);
      MulLe(e, p - 1, B);
      MulDistrib(B, p, 1);
    }
  }

  lemma {:induction false} EvalZeros(B: nat, s: seq<nat>)
    requires forall i :: 0 <= i < |s| ==> s[i] == 0
    ensures Eval(B, s) == 0
  {
    if s != [] { EvalZeros(B, s[1..]); }
  }

  /** The limbs are determined by the value. */
  lemma {:induction false} EvalInjective(B: nat, s: seq<nat>, t: seq<nat>)
    requires |s| == |t| && IsLimbs(B, s) && IsLimbs(B, t) && Eval(B, s) == Eval(B, t)
    ensures s == t
  {
    if s != [] {
      var e, f := Eval(B, s[1..]), Eval(B, t[1..]);
      DivModUnique(Eval(B, s), B, e, s[0]);
      DivModUnique(Eval(B, t), B, f, t[0]);
      EvalInjective(B, s[1..], t[1..]);
      assert s == [s[0]] + s[1..] && t == [t[0]] + t[1..];
    }
  }

  /** The lowest limb is the value modulo the base. */
  lemma EvalLow(B: nat, s: seq<nat>)
    requires B > 0 && s != []
    ensures Cong(Eval(B, s), s[0], B)
  {
    CongIntro(Eval(B, s), s[0], Eval(B, s[1..]), B);
  }

  // ---- buffers ----

  /** The n limbs of a from offset i. */
  ghost function Slice(a: array<nat>, i: nat, n: nat): (s: seq<nat>)
    requires i + n <= a.Length
    reads a
  {
    a[i..i + n]
  }

  /** The value of n limbs of a from offset i. */
  ghost function Val(B: nat, a: array<nat>, i: nat, n: nat): nat
    requires i + n <= a.Length
    reads a
  {
    Eval(B, Slice(a, i, n))
  }

  lemma ValBound(B: nat, a: array<nat>, i: nat, n: nat)
    requires B > 0 && i + n <= a.Length && IsLimbs(B, Slice(a, i, n))
    ensures Val(B, a, i, n) < Pow(B, n)
  {
    EvalBound(B, Slice(a, i, n));
  }

  lemma SliceJoin(a: array<nat>, i: nat, n: nat, m: nat)
    requires i + n + m <= a.Length
    ensures Slice(a, i, n + m) == Slice(a, i, n) + Slice(a, i + n, m)
  {
    var s, t := Slice(a, i, n + m), Slice(a, i, n) + Slice(a, i + n, m);
    forall k | 0 <= k < n + m ensures s[k] == t[k] {}
  }

  /** Part of a stretch is a stretch. */
  lemma SliceInside(a: array<nat>, o: nat, m: nat, k: nat, n: nat)
    requires k + n <= m && o + m <= a.Length
    ensures |Slice(a, o, m)| == m && Slice(a, o + k, n) == Slice(a, o, m)[k..k + n]
  {
    var s, t := Slice(a, o + k, n), Slice(a, o, m)[k..k + n];
    assert |s| == |t|;
    forall i | 0 <= i < n ensures s[i] == t[i] {
      assert s[i] == a[o + k + i] && t[i] == Slice(a, o, m)[k + i];
    }
  }

  /** Only positions lo up to hi may differ. */
  ghost predicate SameOutside(s: seq<nat>, t: seq<nat>, lo: nat, hi: nat) {
    |s| == |t| && lo <= hi <= |s| && s[..lo] == t[..lo] && s[hi..] == t[hi..]
  }

  lemma SliceOfDrop(s: seq<nat>, k: nat, i: nat, n: nat)
    requires k <= i && i + n <= |s|
    ensures s[k..][i - k..i - k + n] == s[i..i + n]
  {
    var u, v := s[k..][i - k..i - k + n], s[i..i + n];
    assert |u| == |v|;
    forall j | 0 <= j < n ensures u[j] == v[j] {}
  }

  lemma SliceOutside(s: seq<nat>, t: seq<nat>, lo: nat, hi: nat, i: nat, n: nat)
    requires SameOutside(s, t, lo, hi) && i + n <= |s|
    requires i + n <= lo || hi <= i
    ensures s[i..i + n] == t[i..i + n]
  {
    if i + n <= lo {
      assert s[i..i + n] == s[..lo][i..i + n];
      assert t[i..i + n] == t[..lo][i..i + n];
    } else {
      SliceOfDrop(s, hi, i, n);
      SliceOfDrop(t, hi, i, n);
    }
  }

  /** A stretch of a buffer apart from the one that was written. */
  lemma SliceKept(a: array<nat>, s: seq<nat>, lo: nat, hi: nat, i: nat, n: nat)
    requires SameOutside(s, a[..], lo, hi) && i + n <= a.Length
    requires i + n <= lo || hi <= i
    ensures i + n <= |s| && a[i..i + n] == s[i..i + n]
  {
    SliceOutside(s, a[..], lo, hi, i, n);
    assert a[..][i..i + n] == a[i..i + n];
  }

  lemma SameOutsideWiden(s: seq<nat>, t: seq<nat>, lo: nat, hi: nat, lo': nat, hi': nat)
    requires SameOutside(s, t, lo, hi) && lo' <= lo && hi <= hi' <= |s|
    ensures SameOutside(s, t, lo', hi')
  {
    assert s[..lo'] == s[..lo][..lo'];
    assert t[..lo'] == t[..lo][..lo'];
    assert s[hi'..] == s[hi..][hi' - hi..];
    assert t[hi'..] == t[hi..][hi' - hi..];
  }

  lemma SameOutsideTrans(s: seq<nat>, t: seq<nat>, u: seq<nat>, lo: nat, hi: nat)
    requires SameOutside(s, t, lo, hi) && SameOutside(t, u, lo, hi)
    ensures SameOutside(s, u, lo, hi)
  {
  }

  /** Two stretches of n limbs are the same memory or do not overlap. */
  ghost predicate SameOrApart(a: array<nat>, i: nat, b: array<nat>, j: nat, n: nat) {
    a != b || i == j || i + n <= j || j + n <= i
  }

  /** The stretches do not overlap. */
  ghost predicate Apart(a: array<nat>, i: nat, n: nat, b: array<nat>, j: nat, m: nat) {
    a != b || i + n <= j || j + m <= i
  }

  /** A stretch of x that a write to n limbs of res from lo does not touch. */
  ghost predicate Away(x: array<nat>, i: nat, m: nat, res: array<nat>, lo: nat, n: nat) {
    i + m <= x.Length && Apart(x, i, m, res, lo, n)
  }

  lemma AwayKept(x: array<nat>, i: nat, m: nat, res: array<nat>, r0: seq<nat>, lo: nat, n: nat)
    requires Away(x, i, m, res, lo, n) && SameOutside(r0, res[..], lo, lo + n)
    ensures x == res ==> i + m <= |r0| && Slice(x, i, m) == r0[i..i + m]
  {
    if x == res { SliceKept(res, r0, lo, lo + n, i, m); }
  }

  /** The stretch of x does not meet the written regions of res and tmp. */
  ghost predicate FreeOf(x: array<nat>, i: nat, n: nat, res: array<nat>, lo: nat, rn: nat, tmp: array<nat>, slo: nat,
                         sn: nat) {
    i + n <= x.Length && Apart(x, i, n, res, lo, rn) && Apart(x, i, n, tmp, slo, sn)
  }

  /** Copies n words from one stretch to another that does not overlap it. */
  method Memcpy(n: nat, x: array<nat>, xo: nat, res: array<nat>, ro: nat)
    requires xo + n <= x.Length && ro + n <= res.Length && Apart(x, xo, n, res, ro, n)
    modifies res
    ensures Slice(res, ro, n) == old(Slice(x, xo, n))
    ensures forall z: array<nat>, i: nat, k: nat {:trigger Slice(z, i, k)} ::
              old(allocated(z)) && Away(z, i, k, res, ro, n) ==> Slice(z, i, k) == old(Slice(z, i, k))
  {
    ghost var r0 := res[..];
    forall k | 0 <= k < n { res[ro + k] := x[xo + k]; }
    assert SameOutside(r0, res[..], ro, ro + n);
    forall z: array<nat>, i: nat, k: nat | old(allocated(z)) && Away(z, i, k, res, ro, n)
      ensures Slice(z, i, k) == old(Slice(z, i, k))
    {
      AwayKept(z, i, k, res, r0, ro, n);
    }
  }
}
