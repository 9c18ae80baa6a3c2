/** Loads and stores of machine words in either byte order. */
module Bytes {
  import opened Arith
  import opened Words
  import opened Limbs
  import opened Machine

  /** load32_le, load64_le and, for the leftovers of a block, any number of bytes. */
  method LoadLe(b: array<nat>, off: nat, n: nat) returns (x: nat)
    requires off + n <= b.Length
    ensures x == Val(Base(8), b, off, n)
  {
    ghost var s := Slice(b, off, n);
    x := 0;
    var i := n;
    assert s[n..] == [];
    while i > 0
      invariant 0 <= i <= n && x == Eval(Base(8), s[i..])
    {
      i := i - 1;
      assert s[i..][1..] == s[i + 1..] && b[off + i] == s[i];
      x := b[off + i] + Prod(Base(8), x);
    }
    assert s[0..] == s;
  }

  /** store32_le and store64_le. */
  method StoreLe(o: array<nat>, off: nat, n: nat, x: nat)
    requires off + n <= o.Length && x < Pow(Base(8), n)
    modifies o
    ensures IsLimbs(Base(8), Slice(o, off, n)) && Val(Base(8), o, off, n) == x
    ensures forall z: array<nat>, i: nat, m: nat {:trigger Slice(z, i, m)} ::
              old(allocated(z)) && Away(z, i, m, o, off, n) ==> Slice(z, i, m) == old(Slice(z, i, m))
  {
    ghost var r0 := o[..];
    var y := x;
    var i := 0;
    assert o[off..off] == [];
    while i < n
      invariant 0 <= i <= n
      invariant x == Eval(Base(8), o[off..off + i]) + Pow(Base(8), i) * y
      invariant IsLimbs(Base(8), o[off..off + i])
      invariant forall k :: 0 <= k < o.Length && !(off <= k < off + i) ==> o[k] == r0[k]
    {
      ghost var done, p := o[off..off + i], Pow(Base(8), i);
      o[off + i] := Low(y, 8);
      assert o[off..off + i + 1] == done + [Low(y, 8)];
      EvalSnoc(Base(8), done, Low(y, 8));
      StoreArith(p, Base(8), y);
      y := Shr(y, 8);
      i := i + 1;
    }
    assert Slice(o, off, n) == o[off..off + n];
    EvalBound(Base(8), Slice(o, off, n));
    if y > 0 { MulLe(1, y, Pow(Base(8), n)); }
    assert SameOutside(r0, o[..], off, off + n);
    forall z: array<nat>, i: nat, m: nat | old(allocated(z)) && Away(z, i, m, o, off, n)
      ensures Slice(z, i, m) == old(Slice(z, i, m))
    {
      AwayKept(z, i, m, o, r0, off, n);
    }
  }

  lemma StoreArith(p: nat, b: nat, y: nat)
    requires b > 0
    ensures p * y == p * (y % b) + (b * p) * (y / b)
  {
  }

  lemma EightBytes()
    ensures Base(8) == 256 && Pow(Base(8), 4) == 0x100000000 && Pow(Base(8), 8) == 0x10000000000000000
  {
    PowMul(2, 8, 4); PowMul(2, 8, 8);
    BaseLiterals();
    assert Base(8) == 256 by { assert Pow(2, 4) == 16; PowAdd(2, 4, 4); }
    hide Pow;
    PowAdd(2, 26, 6); PowAdd(2, 12, 1); PowAdd(2, 25, 1);
    PowSmall();
  }

  lemma PowSmall()
    ensures Pow(2, 6) == 64
  {
    PowSuccessor(2, 5); PowSuccessor(2, 4); PowSuccessor(2, 3); PowSuccessor(2, 2); PowSuccessor(2, 1);
    PowSuccessor(2, 0);
  }

  // ---- highest byte first ----

  /** The n bytes of a number, highest first. */
  function BeBytes(x: nat, n: nat): (s: seq<nat>)
    ensures |s| == n
  {
    if n == 0 then [] else BeBytes(Shr(x, 8), n - 1) + [Low(x, 8)]
  }

  /** store64_be and its kin. */
  method StoreBe(o: array<nat>, off: nat, n: nat, x: nat)
    requires off + n <= o.Length
    modifies o
    ensures Slice(o, off, n) == BeBytes(x, n)
    ensures forall z: array<nat>, i: nat, m: nat {:trigger Slice(z, i, m)} ::
              old(allocated(z)) && Away(z, i, m, o, off, n) ==> Slice(z, i, m) == old(Slice(z, i, m))
  {
    ghost var r0 := o[..];
    hide Shr, Low;
    var y, i := x, n;
    while i > 0
      invariant 0 <= i <= n
      invariant BeBytes(x, n) == BeBytes(y, i) + o[off + i..off + n]
      invariant forall k :: 0 <= k < o.Length && !(off + i <= k < off + n) ==> o[k] == r0[k]
    {
      ghost var done := o[off + i..off + n];
      i := i - 1;
      o[off + i] := Low(y, 8);
      assert o[off + i..off + n] == [Low(y, 8)] + done;
      y := Shr(y, 8);
    }
    assert SameOutside(r0, o[..], off, off + n);
    forall z: array<nat>, i: nat, m: nat | old(allocated(z)) && Away(z, i, m, o, off, n)
      ensures Slice(z, i, m) == old(Slice(z, i, m))
    {
      AwayKept(z, i, m, o, r0, off, n);
    }
  }
}
