/** HMAC over any SHA-2 function, Hacl_HMAC.c, against section 2 of RFC 2104. */
module Hmac {
  import opened Arith
  import opened Words
  import opened Limbs
  import opened Bytes
  import opened Sha2
  import Convert

  /** A key of at most a block is padded with zeros; a longer one is hashed first. */
  ghost function KeyBlock(a: Alg, key: seq<nat>): (k: seq<nat>)
    requires a.Valid()
    ensures |k| == a.block
  {
    DigestFits(a);
    var k := if |key| <= a.block then key else Hash(a, key);
    k + seq(a.block - |k|, _ => 0)
  }

  lemma DigestFits(a: Alg)
    requires a.Valid()
    ensures a.DigestLength() <= a.block
  {
    MulLe(a.digestWords, 8, a.word);
  }

  function XorPad(pad: nat, k: seq<nat>): (s: seq<nat>)
    ensures |s| == |k|
  {
    seq(|k|, i requires 0 <= i < |k| => Xor(pad, k[i]))
  }

  /** H(K xor opad, H(K xor ipad, text)). */
  ghost function HmacOf(a: Alg, key: seq<nat>, text: seq<nat>): (d: seq<nat>)
    requires a.Valid()
    ensures |d| == a.DigestLength()
  {
    var k := KeyBlock(a, key);
    Hash(a, XorPad(0x5c, k) + Hash(a, XorPad(0x36, k) + text))
  }

  // ---- what a key is, and the two pads ----

  /** Zeros behind a key that still fits a block do not change the key block ... */
  lemma KeyPadded(a: Alg, key: seq<nat>, z: seq<nat>)
    requires a.Valid() && |key + z| <= a.block && forall i :: 0 <= i < |z| ==> z[i] == 0
    ensures KeyBlock(a, key + z) == KeyBlock(a, key)
    ensures |key| == a.block ==> KeyBlock(a, key) == key
  {
  }

  /** ... and a longer key is as good as its hash. */
  lemma KeyHashed(a: Alg, key: seq<nat>)
    requires a.Valid() && |key| > a.block
    ensures KeyBlock(a, key) == KeyBlock(a, Hash(a, key))
  {
    hide Hash;
    DigestFits(a);
  }

  /**
   * A compression function that shows its input: the state counts two blocks and keeps the first byte of the first one
   * and byte 7 of the second one.
   */
  function Record(s: seq<nat>, b: seq<nat>): (r: seq<nat>)
    ensures |r| == 8
  {
    if |s| != 8 || |b| < 8 then seq(8, _ => 2)
    else if s[0] == 0 then [1, b[0], 0, 0, 0, 0, 0, 0]
    else if s[0] == 1 then [2, s[1], b[7], 0, 0, 0, 0, 0]
    else s
  }

  function Recorder(): (a: Alg)
    ensures a.Valid()
  {
    Alg(64, 4, 8, [0, 0, 0, 0, 0, 0, 0, 0], Record)
  }

  /** Two blocks and more are recorded by their first byte and byte 7 of the second one. */
  lemma {:induction false} RecordedFold(m: seq<nat>, n: nat)
    requires |m| == 64 * n && n >= 2
    ensures Fold(Recorder(), Recorder().iv, m) == [2, m[0], m[71], 0, 0, 0, 0, 0]
  {
    var a := Recorder();
    var x, y := m[..64 * (n - 1)], m[64 * (n - 1)..];
    assert m == x + y && Prod(n - 1, 64) == 64 * (n - 1);
    hide Fold;
    OneMoreBlock(a, a.iv, x, y, n - 1);
    if n == 2 {
      assert x == [] + x;
      OneMoreBlock(a, a.iv, [], x, 0);
      FoldEmpty(a, a.iv);
    } else {
      RecordedFold(x, n - 1);
    }
  }

  lemma FoldEmpty(a: Alg, st: seq<nat>)
    requires a.Valid()
    ensures Fold(a, st, []) == st
  {
  }

  /** The hash of a key block and a text; the text or its padding goes on in the second block. */
  lemma RecordedHash(p: seq<nat>, text: seq<nat>)
    requires |p| == 64
    ensures |Padding(Recorder(), 64 + |text|)| >= 9
    ensures Hash(Recorder(), p + text)
         == DigestBytes(Recorder(), [2, p[0], (text + Padding(Recorder(), 64 + |text|))[7], 0, 0, 0, 0, 0], 8)
  {
    var a, m := Recorder(), p + text;
    PaddedWhole(a, |m|);
    var t := m + Padding(a, |m|);
    hide Padding, Fold;
    RecordedFold(t, |t| / 64);
  }

  lemma ByteSeven(a: Alg, st: seq<nat>)
    requires a.Valid() && a.word == 4 && |st| == 8
    ensures DigestBytes(a, st, 8)[7] == Low(st[1], 8)
  {
    hide Low, Shr;
    var w := BeBytes(st[1], 4);
    assert w[3] == Low(st[1], 8);
    var d2 := DigestBytes(a, st, 1) + w;
    assert d2[7] == w[3];
    var d4 := d2 + BeBytes(st[2], 4) + BeBytes(st[3], 4);
    assert DigestBytes(a, st, 4) == d4 by { assert DigestBytes(a, st, 2) == d2; assert DigestBytes(a, st, 3) == d2
                                        + BeBytes(st[2], 4); }
    var d6 := d4 + BeBytes(st[4], 4) + BeBytes(st[5], 4);
    assert DigestBytes(a, st, 6) == d6 by { assert DigestBytes(a, st, 5) == d4 + BeBytes(st[4], 4); }
    assert DigestBytes(a, st, 7) == d6 + BeBytes(st[6], 4);
  }

  /** The outer hash begins with the key block xored with 0x5c, the inner one with the key block xored with 0x36. */
  lemma PadsRecorded(key: seq<nat>, text: seq<nat>)
    requires 0 < |key| <= 64 && IsLimbs(Base(8), key)
    ensures var tag := HmacOf(Recorder(), key, text);
            && |tag| == 32 && Convert.BeValue(tag[4..8]) == Xor(0x5c, key[0])
            && Convert.BeValue(tag[8..12]) == Xor(0x36, key[0])
  {
    var a, k := Recorder(), KeyBlock(Recorder(), key);
    assert k[0] == key[0];
    var i, o := XorPad(0x36, k), XorPad(0x5c, k);
    hide Hash, KeyBlock, DigestBytes, Padding, Xor, Base, Pow, Low;
    RecordedHash(i, text);
    var inner := Hash(a, i + text);
    var si := [2, i[0], (text + Padding(a, 64 + |text|))[7], 0, 0, 0, 0, 0];
    ByteSeven(a, si);
    RecordedHash(o, inner);
    var so := [2, o[0], inner[7], 0, 0, 0, 0, 0];
    assert (inner + Padding(a, 64 + |inner|))[7] == inner[7];
    DigestWord(a, so, 8, 1); DigestWord(a, so, 8, 2);
    PadBytes(key[0]);
  }

  lemma PadBytes(x: nat)
    requires x < Base(8)
    ensures Pow(Base(8), 4) > 0
    ensures Xor(0x5c, x) % Pow(Base(8), 4) == Xor(0x5c, x) && Low(Xor(0x36, x), 8) % Pow(Base(8), 4) == Xor(0x36, x)
  {
    EightBytes();
    hide Xor, Base, Pow;
    BitBounds(8, 0x5c, x); BitBounds(8, 0x36, x);
  }

  method MakeKeyBlock(a: Alg, key: array<nat>, keyLen: nat) returns (keyBlock: array<nat>)
    requires a.Valid() && keyLen <= key.Length
    ensures fresh(keyBlock) && keyBlock.Length == a.block && keyBlock[..] == KeyBlock(a, Slice(key, 0, keyLen))
  {
    DigestFits(a);
    keyBlock := new nat[a.block](_ => 0);
    ghost var n := if keyLen <= a.block then keyLen else a.DigestLength();
    ghost var zeros := Slice(keyBlock, n, a.block - n);
    assert zeros == seq(a.block - n, _ => 0);
    hide Hash;
    if keyLen <= a.block {
      Memcpy(keyLen, key, 0, keyBlock, 0);
    } else {
      HashBytes(a, key, keyLen, keyBlock, 0);
    }
    SliceJoin(keyBlock, 0, n, a.block - n);
    assert keyBlock[..] == Slice(keyBlock, 0, a.block);
  }

  /** A block of one byte value, xored with the key block in place. */
  method MakePad(pad: nat, k: array<nat>) returns (p: array<nat>)
    ensures fresh(p) && p.Length == k.Length && p[..] == XorPad(pad, k[..])
  {
    hide Xor;
    p := new nat[k.Length](_ => pad);
    var i := 0;
    while i < k.Length
      invariant 0 <= i <= k.Length
      invariant forall j :: 0 <= j < i ==> p[j] == Xor(pad, k[j])
      invariant forall j :: i <= j < k.Length ==> p[j] == pad
      modifies p
    {
      p[i] := Xor(p[i], k[i]);
      i := i + 1;
    }
  }

  /** The state after a padded key block and data; without data the key block itself is the last one. */
  method PadThenData(a: Alg, pad: array<nat>, data: array<nat>, off: nat, dataLen: nat) returns (s: array<nat>)
    requires a.Valid() && pad.Length == a.block && off + dataLen <= data.Length
    ensures fresh(s) && s.Length == 8
    ensures s[..] == Fold(a, a.iv, pad[..] + Slice(data, off, dataLen) + Padding(a, a.block + dataLen))
  {
    s := new nat[8](i requires 0 <= i < 8 => a.iv[i]);
    assert s[..] == a.iv;
    DivModUnique(a.block, a.block, 1, 0);
    DivModUnique(0, a.block, 0, 0);
    assert Prod(1, a.block) == a.block && Slice(pad, 0, a.block) == pad[..];
    ghost var p, d := pad[..], Slice(data, off, dataLen);
    hide Fold, Padding, Prod;
    if dataLen == 0 {
      UpdateLast(a, s, 0, pad, 0, a.block);
      assert p + d == p;
    } else {
      UpdateMulti(a, s, pad, 0, 1);
      UpdateLast(a, s, a.block, data, off, dataLen);
      FoldConcat(a, a.iv, p, d + Padding(a, a.block + dataLen));
      assert p + d + Padding(a, a.block + dataLen) == p + (d + Padding(a, a.block + dataLen));
    }
  }

  /** The hash of a padded key block and data. */
  method HashPadded(a: Alg, pad: array<nat>, data: array<nat>, off: nat, dataLen: nat, dst: array<nat>, dstOff: nat)
    requires a.Valid() && pad.Length == a.block && off + dataLen <= data.Length
    requires dstOff + a.DigestLength() <= dst.Length
    modifies dst
    ensures Slice(dst, dstOff, a.DigestLength()) == Hash(a, old(pad[..]) + old(Slice(data, off, dataLen)))
    ensures forall z: array<nat>, i: nat, m: nat {:trigger Slice(z, i, m)} ::
              old(allocated(z)) && Away(z, i, m, dst, dstOff, a.DigestLength())
              ==> Slice(z, i, m) == old(Slice(z, i, m))
  {
    hide Fold, Padding;
    var s := PadThenData(a, pad, data, off, dataLen);
    Finish(a, s, dst, dstOff);
  }

  /** compute_sha2_*: the tag may overwrite the data. */
  method Compute(a: Alg, dst: array<nat>, dstOff: nat, key: array<nat>, keyLen: nat, data: array<nat>, off: nat,
                 dataLen: nat)
    requires a.Valid() && keyLen <= key.Length && off + dataLen <= data.Length
        && dstOff + a.DigestLength() <= dst.Length
    modifies dst
    ensures Slice(dst, dstOff, a.DigestLength())
        == HmacOf(a, old(Slice(key, 0, keyLen)), old(Slice(data, off, dataLen)))
    ensures forall z: array<nat>, i: nat, m: nat {:trigger Slice(z, i, m)} ::
              old(allocated(z)) && Away(z, i, m, dst, dstOff, a.DigestLength())
              ==> Slice(z, i, m) == old(Slice(z, i, m))
  {
    hide Hash, KeyBlock, XorPad, Slice;
    DigestFits(a);
    var keyBlock := MakeKeyBlock(a, key, keyLen);
    var ipad := MakePad(0x36, keyBlock);
    var opad := MakePad(0x5c, keyBlock);
    HashPadded(a, ipad, data, off, dataLen, ipad, 0);
    HashPadded(a, opad, ipad, 0, a.DigestLength(), dst, dstOff);
  }
}
