/** 64-bit and 128-bit machine arithmetic with its wrap-around written out. */
module Machine {
  import opened Arith
  import opened Words

  function U64(x: nat): (r: nat)
    ensures r < 0x10000000000000000 && (x < 0x10000000000000000 ==> r == x)
  {
    x % 0x10000000000000000
  }

  function U128(x: nat): (r: nat)
    ensures x < 0x100000000000000000000000000000000 ==> r == x
  {
    x % 0x100000000000000000000000000000000
  }

  function Sub64(x: nat, y: nat): (r: nat)
    requires x < 0x10000000000000000 && y < 0x10000000000000000
    ensures r == if y <= x then x - y else x - y + 0x10000000000000000
  {
    (x - y) % 0x10000000000000000
  }

  function Shl64(x: nat, k: nat): nat { U64(Prod(x, Base(k))) }

  function MulWide(x: nat, y: nat): nat { Prod(x, y) }

  function Add128(x: nat, y: nat): (r: nat)
    ensures x + y < 0x100000000000000000000000000000000 ==> r == x + y
  {
    U128(x + y)
  }

  /** The powers of two that the masks and shifts use. */
  lemma BaseLiterals()
    ensures Base(12) == 0x1000 && Base(13) == 0x2000 && Base(25) == 0x2000000 && Base(26) == 0x4000000
    ensures Base(38) == 0x4000000000 && Base(39) == 0x8000000000 && Base(51) == 0x8000000000000
        && Base(64) == 0x10000000000000000
  {
    hide Pow;
    assert Pow(2, 1) == 2 by { PowOne(); }
    PowAdd(2, 1, 1); PowAdd(2, 2, 1); PowAdd(2, 3, 3); PowAdd(2, 6, 6); PowAdd(2, 12, 1);
    PowAdd(2, 12, 13); PowAdd(2, 13, 13); PowAdd(2, 25, 13); PowAdd(2, 26, 13); PowAdd(2, 38, 13); PowAdd(2, 51, 13);
  }

  lemma PowOne()
    ensures Pow(2, 1) == 2
  {
  }

  lemma MasksAll(x: nat, y: nat)
    requires x == 0 || x == 0x10000000000000000 - 1
    requires y == 0 || y == 0x10000000000000000 - 1
    ensures And(x, y) == if x == 0 then 0 else y
  {
    MaskWord(x, y);
  }

  lemma MaskWord(mask: nat, x: nat)
    requires x < 0x10000000000000000 && (mask == 0 || mask == 0x10000000000000000 - 1)
    ensures And(mask, x) == if mask == 0 then 0 else x
  {
    BaseLiterals();
    hide Pow;
    AndOnes(64, x);
  }

  /** A word below 2^k joined by or with a word shifted left by k bits, the bits above the word lost. */
  lemma JoinWords(k: nat, x: nat, y: nat)
    requires k <= 64 && x < Base(k)
    ensures Or(x, Shl64(y, k)) == x + Base(k) * (y % Base(64 - k))
  {
    BaseSplit(64, k);
    BaseLiterals();
    hide Base, Pow;
    ShiftOut(Base(k), Base(64 - k), y, 0x10000000000000000);
    OrDisjoint(k, x, y % Base(64 - k));
  }

  lemma ShiftOut(b: nat, c: nat, y: nat, m: nat)
    requires b > 0 && c > 0 && m == b * c
    ensures y * b % m == b * (y % c)
  {
    var q, r := y / c, y % c;
    assert y * b == q * m + r * b by { assert y == q * c + r; MulDistrib(b, q * c, r); MulAssoc(q, c, b); }
    assert 0 <= r * b < m by { MulLt(r, c, b); MulLe(0, r, b); }
    DivModUnique(y * b, m, q, r * b);
  }

  lemma SwapWord64(bit: nat, x: nat, y: nat)
    requires bit <= 1 && x < 0x10000000000000000 && y < 0x10000000000000000
    ensures var dummy := And(BitMask(64, bit), Xor(x, y));
            Xor(x, dummy) == (if bit == 0 then x else y) && Xor(y, dummy) == (if bit == 0 then y else x)
  {
    BaseLiterals();
    SwapWords(64, bit, x, y);
  }

  /** A bit-wise choice by exclusive or: y when the mask is all ones and x when it is zero. */
  lemma XorSelect(mask: nat, x: nat, y: nat)
    requires x < 0x10000000000000000 && y < 0x10000000000000000 && (mask == 0 || mask == 0x10000000000000000 - 1)
    ensures Xor(x, And(mask, Xor(x, y))) == if mask == 0 then x else y
  {
    BaseLiterals();
    SwapWords(64, if mask == 0 then 0 else 1, x, y);
  }
}
