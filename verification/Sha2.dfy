/**
 * Block splitting, padding and streaming of the SHA-2 family, Hacl_Hash_SHA2.c, against sections 5.1 and 6 of
 * FIPS 180-4.
 * The compression function is a parameter; everything around it is proved for each of the four hash functions at once.
 */
module Sha2 {
  import opened Arith
  import opened Limbs
  import opened Bytes
  import opened Words
  import Convert

  /**
   * A member of the family: block and word size in bytes, number of digest words, initial value and compression.
   * The length field takes two words.
   */
  datatype Alg = Alg(block: nat, word: nat, digestWords: nat, iv: seq<nat>,
                     compress: (seq<nat>, seq<nat>) -> seq<nat>) {
    ghost predicate Valid() {
      && (block == 64 || block == 128) && word == block / 16 && 0 < digestWords <= 8 && |iv| == 8
      && forall s: seq<nat>, b: seq<nat> :: |compress(s, b)| == 8
    }

    /** The bytes of a digest. */
    function DigestLength(): nat {
      digestWords * word
    }

    /** The bytes of the length field. */
    function Field(): nat {
      2 * word
    }
  }

  /** For either block size and any digest length there is such a function. */
  lemma ValidExists(block: nat, digestWords: nat) returns (a: Alg)
    requires (block == 64 || block == 128) && 0 < digestWords <= 8
    ensures a.Valid() && a.block == block && a.digestWords == digestWords
  {
    a := Alg(block, block / 16, digestWords, seq(8, i => 0), (s, b) => seq(8, i => 0));
  }

  // ---- FIPS 180-4 on values ----

  /** The number of zero bytes: the least that fills the last block. */
  ghost predicate IsPadding(a: Alg, len: nat, z: nat)
    requires a.Valid()
  {
    z < a.block && (len + 1 + z + a.Field()) % a.block == 0
  }

  /** `(2 * block - (field + 1 + len % block)) % block`, as the code computes it. */
  function PadZeros(a: Alg, len: nat): (z: nat)
    requires a.Valid()
    ensures z < a.block
  {
    (2 * a.block - (a.Field() + 1 + len % a.block)) % a.block
  }

  lemma PadZerosIsPadding(a: Alg, len: nat)
    requires a.Valid()
    ensures IsPadding(a, len, PadZeros(a, len))
  {
    var b, f, r := a.block, a.Field(), len % a.block;
    var t := 2 * b - (f + 1 + r);
    CongMod(t, b);
    CongMod(len, b);
    CongAdd(len, r, t % b, t, b);
    CongAdd(len + t % b, r + t, f + 1, f + 1, b);
    CongIntro(r + t + (f + 1), 0, 2, b);
  }

  /** No other count fills the block. */
  lemma PaddingUnique(a: Alg, len: nat, z: nat)
    requires a.Valid() && IsPadding(a, len, z)
    ensures z == PadZeros(a, len)
  {
    PadZerosIsPadding(a, len);
    var x, y := len + 1 + z + a.Field(), len + 1 + PadZeros(a, len) + a.Field();
    var k := CongElim(x, y, a.block);
    if k >= 1 { MulLe(1, k, a.block); }
    if k <= -1 { MulLe(k, -1, a.block); }
  }

  ghost function Padding(a: Alg, len: nat): seq<nat>
    requires a.Valid()
  {
    [0x80] + seq(PadZeros(a, len), _ => 0) + BeBytes(8 * len, a.Field())
  }

  /** Where the length field ends there is a whole block. */
  lemma PaddedWhole(a: Alg, len: nat)
    requires a.Valid()
    ensures (len + |Padding(a, len)|) % a.block == 0 && |Padding(a, len)| == 1 + PadZeros(a, len) + a.Field()
  {
    PadZerosIsPadding(a, len);
  }

  /**
   * Section 5.1 of FIPS 180-4, read back from the padded message: whole blocks, a one bit behind the message, zeros,
   * and in the last bytes the number of message bits.
   */
  lemma PaddedMessage(a: Alg, msg: seq<nat>)
    requires a.Valid()
    ensures var m, end := msg + Padding(a, |msg|), |msg| + |Padding(a, |msg|)| - a.Field();
            && |m| % a.block == 0 && |msg| < end <= |msg| + a.block && |m| == end + a.Field()
            && m[..|msg|] == msg && m[|msg|] == 0x80 && (forall i :: |msg| < i < end ==> m[i] == 0)
            && Pow(Base(8), a.Field()) > 0
            && Convert.BeValue(m[end..]) == 8 * |msg| % Pow(Base(8), a.Field())
  {
    hide PadZeros, BeBytes, Pow, Base;
    var end := |msg| + |Padding(a, |msg|)| - a.Field();
    PaddedWhole(a, |msg|);
    Convert.BeResidue(8 * |msg|, a.Field());
    assert (msg + Padding(a, |msg|))[end..] == BeBytes(8 * |msg|, a.Field());
  }

  /** Messages whose bits the length field can count are padded to different strings. */
  lemma PaddingInjective(a: Alg, x: seq<nat>, y: seq<nat>)
    requires a.Valid() && 8 * |x| < Pow(Base(8), a.Field()) && 8 * |y| < Pow(Base(8), a.Field())
    requires x + Padding(a, |x|) == y + Padding(a, |y|)
    ensures x == y
  {
    hide Padding, Pow, Base;
    PaddedMessage(a, x); PaddedMessage(a, y);
    var m, p := x + Padding(a, |x|), Pow(Base(8), a.Field());
    DivModUnique(8 * |x|, p, 0, 8 * |x|); DivModUnique(8 * |y|, p, 0, 8 * |y|);
    assert |x| == |y|;
    assert x == m[..|x|] && y == m[..|y|];
  }

  /** The whole blocks of data, compressed into the state one after the other. */
  ghost function Fold(a: Alg, st: seq<nat>, data: seq<nat>): seq<nat>
    requires a.Valid()
    decreases |data|
  {
    if |data| < a.block then st else Fold(a, a.compress(st, data[..a.block]), data[a.block..])
  }

  ghost function DigestBytes(a: Alg, st: seq<nat>, k: nat): (d: seq<nat>)
    requires k <= |st|
    ensures |d| == k * a.word
  {
    if k == 0 then [] else DigestBytes(a, st, k - 1) + BeBytes(st[k - 1], a.word)
  }

  /** Word i of the digest is word i of the state, highest byte first. */
  lemma {:induction false} DigestWord(a: Alg, st: seq<nat>, k: nat, i: nat)
    requires i < k <= |st|
    ensures Prod(i, a.word) + a.word <= |DigestBytes(a, st, k)| && Pow(Base(8), a.word) > 0
    ensures Convert.BeValue(DigestBytes(a, st, k)[Prod(i, a.word)..Prod(i, a.word) + a.word])
         == st[i] % Pow(Base(8), a.word)
  {
    BlockFits(i, k, a.word);
    var d, w := DigestBytes(a, st, k - 1), BeBytes(st[k - 1], a.word);
    hide Pow, Base, BeBytes;
    assert DigestBytes(a, st, k) == d + w;
    if i == k - 1 {
      Convert.BeResidue(st[i], a.word);
      assert (d + w)[Prod(i, a.word)..Prod(i, a.word) + a.word] == w;
    } else {
      DigestWord(a, st, k - 1, i);
      assert (d + w)[Prod(i, a.word)..Prod(i, a.word) + a.word] == d[Prod(i, a.word)..Prod(i, a.word) + a.word];
    }
  }

  /** The hash of section 6: the padded message folded from the initial value. */
  ghost function Hash(a: Alg, msg: seq<nat>): (d: seq<nat>)
    requires a.Valid()
    ensures |d| == a.DigestLength()
  {
    FoldLength(a, a.iv, msg + Padding(a, |msg|));
    DigestBytes(a, Fold(a, a.iv, msg + Padding(a, |msg|)), a.digestWords)
  }

  lemma {:induction false} FoldLength(a: Alg, st: seq<nat>, data: seq<nat>)
    requires a.Valid() && |st| == 8
    ensures |Fold(a, st, data)| == 8
    decreases |data|
  {
    if |data| >= a.block { FoldLength(a, a.compress(st, data[..a.block]), data[a.block..]); }
  }

  /** Folding in two parts, the first of whole blocks. */
  lemma {:induction false} FoldConcat(a: Alg, st: seq<nat>, x: seq<nat>, y: seq<nat>)
    requires a.Valid() && |x| % a.block == 0
    ensures Fold(a, st, x + y) == Fold(a, Fold(a, st, x), y)
    decreases |x|
  {
    if x == [] {
      assert x + y == y;
    } else {
      assert |x| >= a.block;
      var x' := x[a.block..];
      CongIntro(|x'|, |x|, -1, a.block);
      assert (x + y)[..a.block] == x[..a.block] && (x + y)[a.block..] == x' + y;
      FoldConcat(a, a.compress(st, x[..a.block]), x', y);
    }
  }

  // ---- the streaming functions on buffers ----

  /** One compression of the state in place. */
  method UpdateBlock(a: Alg, s: array<nat>, blocks: array<nat>, off: nat)
    requires a.Valid() && s.Length == 8 && off + a.block <= blocks.Length
    modifies s
    ensures s[..] == a.compress(old(s[..]), old(Slice(blocks, off, a.block)))
  {
    var t := a.compress(s[..], blocks[off..off + a.block]);
    forall i | 0 <= i < 8 { s[i] := t[i]; }
    assert s[..] == t;
  }

  /** n whole blocks. */
  method UpdateMulti(a: Alg, s: array<nat>, blocks: array<nat>, off: nat, n: nat)
    requires a.Valid() && s.Length == 8 && s != blocks && off + Prod(n, a.block) <= blocks.Length
    modifies s
    ensures s[..] == Fold(a, old(s[..]), Slice(blocks, off, Prod(n, a.block)))
  {
    ghost var s0 := s[..];
    var i := 0;
    while i < n
      invariant 0 <= i <= n && off + Prod(i, a.block) <= off + Prod(n, a.block)
      invariant s[..] == Fold(a, s0, Slice(blocks, off, Prod(i, a.block)))
    {
      BlockFits(i, n, a.block);
      ghost var x, y := Slice(blocks, off, Prod(i, a.block)), Slice(blocks, off + Prod(i, a.block), a.block);
      UpdateBlock(a, s, blocks, off + Prod(i, a.block));
      OneMoreBlock(a, s0, x, y, i);
      SliceJoin(blocks, off, Prod(i, a.block), a.block);
      i := i + 1;
    }
  }

  lemma BlockFits(i: nat, n: nat, b: nat)
    requires i < n
    ensures Prod(i, b) + b == Prod(i + 1, b) <= Prod(n, b)
  {
  }

  lemma OneMoreBlock(a: Alg, st: seq<nat>, x: seq<nat>, y: seq<nat>, i: nat)
    requires a.Valid() && |x| == Prod(i, a.block) && |y| == a.block
    ensures Fold(a, st, x + y) == a.compress(Fold(a, st, x), y)
  {
    DivModUnique(|x|, a.block, i, 0);
    FoldConcat(a, st, x, y);
    var t := Fold(a, st, x);
    assert y[..a.block] == y && |y[a.block..]| < a.block;
    assert Fold(a, t, y) == Fold(a, a.compress(t, y[..a.block]), y[a.block..]);
  }

  /** A one bit and zeros up to the length field. */
  method PadStart(dst: array<nat>, off: nat, n: nat)
    requires off + 1 + n <= dst.Length
    modifies dst
    ensures Slice(dst, off, 1 + n) == [0x80] + seq(n, _ => 0)
    ensures forall z: array<nat>, i: nat, m: nat {:trigger Slice(z, i, m)} ::
              old(allocated(z)) && Away(z, i, m, dst, off, 1 + n) ==> Slice(z, i, m) == old(Slice(z, i, m))
  {
    ghost var r0 := dst[..];
    dst[off] := 0x80;
    var i := 0;
    while i < n
      invariant 0 <= i <= n && dst[off] == 0x80
      invariant forall k :: off < k < off + 1 + i ==> dst[k] == 0
      invariant forall k :: 0 <= k < dst.Length && !(off <= k < off + 1 + i) ==> dst[k] == r0[k]
    {
      dst[off + 1 + i] := 0;
      i := i + 1;
    }
    assert SameOutside(r0, dst[..], off, off + 1 + n);
    forall z: array<nat>, i: nat, m: nat | old(allocated(z)) && Away(z, i, m, dst, off, 1 + n)
      ensures Slice(z, i, m) == old(Slice(z, i, m))
    {
      AwayKept(z, i, m, dst, r0, off, 1 + n);
    }
  }

  /** pad_256 and its kin. */
  method Pad(a: Alg, len: nat, dst: array<nat>, off: nat)
    requires a.Valid() && off + PadLength(a, len) <= dst.Length
    modifies dst
    ensures Slice(dst, off, PadLength(a, len)) == Padding(a, len)
    ensures forall z: array<nat>, i: nat, m: nat {:trigger Slice(z, i, m)} ::
              old(allocated(z)) && Away(z, i, m, dst, off, PadLength(a, len)) ==> Slice(z, i, m) == old(Slice(z, i, m))
  {
    var n := PadZeros(a, len);
    hide PadZeros, BeBytes;
    PadStart(dst, off, n);
    StoreBe(dst, off + 1 + n, a.Field(), 8 * len);
    SliceJoin(dst, off, 1 + n, a.Field());
  }

  function PadLength(a: Alg, len: nat): nat
    requires a.Valid()
  {
    1 + PadZeros(a, len) + a.Field()
  }

  /** The rest of the message and its padding fill one or two blocks. */
  lemma RestFits(a: Alg, total: nat, rest: nat)
    requires a.Valid() && rest < a.block && Cong(total, rest, a.block)
    ensures (rest + PadLength(a, total)) % a.block == 0 && rest + PadLength(a, total) <= 2 * a.block
  {
    PadZerosIsPadding(a, total);
    var p := PadLength(a, total);
    CongAdd(total, rest, p, p, a.block);
    var t := rest + p;
    assert t < 3 * a.block;
    DivModUnique(0, a.block, 0, 0);
    var k := t / a.block;
    assert t == k * a.block;
    if k >= 3 { MulLe(3, k, a.block); }
    MulLe(k, 2, a.block);
  }

  /** The last part of a message whose first prevLen bytes have been compressed: whole blocks, rest and padding. */
  method UpdateLast(a: Alg, s: array<nat>, prevLen: nat, input: array<nat>, off: nat, inputLen: nat)
    requires a.Valid() && s.Length == 8 && s != input && off + inputLen <= input.Length && prevLen % a.block == 0
    modifies s
    ensures s[..] == Fold(a, old(s[..]), old(Slice(input, off, inputLen)) + Padding(a, prevLen + inputLen))
  {
    hide PadLength, PadZeros, Fold, Padding, Cong;
    ghost var s0, m := s[..], Slice(input, off, inputLen);
    var blocksN := inputLen / a.block;
    var blocksLen := Prod(blocksN, a.block);
    var restLen := inputLen - blocksLen;
    SplitInput(a, prevLen, inputLen, blocksN, restLen);
    UpdateMulti(a, s, input, off, blocksN);
    var total := prevLen + inputLen;
    LastBlocks(a, s, total, input, off + blocksLen, restLen);
    SliceJoin(input, off, blocksLen, restLen);
    LastFold(a, s0, Slice(input, off, blocksLen), blocksN, Slice(input, off + blocksLen, restLen), Padding(a, total),
             m);
  }

  /** The rest of a message of total bytes, padded to one or two blocks. */
  method LastBlocks(a: Alg, s: array<nat>, total: nat, input: array<nat>, off: nat, restLen: nat)
    requires a.Valid() && s.Length == 8 && s != input && off + restLen <= input.Length
    requires restLen < a.block && Cong(total, restLen, a.block)
    modifies s
    ensures s[..] == Fold(a, old(s[..]), old(Slice(input, off, restLen)) + Padding(a, total))
  {
    hide PadLength, PadZeros, Fold, Padding, Prod, Cong;
    RestFits(a, total, restLen);
    var tmpLen := restLen + PadLength(a, total);
    var tmp := new nat[2 * a.block](_ => 0);
    Memcpy(restLen, input, off, tmp, 0);
    Pad(a, total, tmp, restLen);
    SliceJoin(tmp, 0, restLen, PadLength(a, total));
    WholeBlocks(tmpLen, a.block);
    UpdateMulti(a, s, tmp, 0, tmpLen / a.block);
  }

  lemma SplitInput(a: Alg, prevLen: nat, inputLen: nat, blocksN: nat, restLen: int)
    requires a.Valid() && prevLen % a.block == 0 && blocksN == inputLen / a.block
        && restLen == inputLen - Prod(blocksN, a.block)
    ensures 0 <= restLen < a.block && Cong(prevLen + inputLen, restLen, a.block)
  {
    DivModUnique(0, a.block, 0, 0);
    CongMod(inputLen, a.block);
    CongAdd(prevLen, 0, inputLen, restLen, a.block);
  }

  lemma WholeBlocks(n: nat, b: nat)
    requires b > 0 && n % b == 0
    ensures Prod(n / b, b) == n
  {
  }

  lemma LastFold(a: Alg, st: seq<nat>, x: seq<nat>, n: nat, y: seq<nat>, p: seq<nat>, m: seq<nat>)
    requires a.Valid() && |x| == Prod(n, a.block) && m == x + y
    ensures Fold(a, Fold(a, st, x), y + p) == Fold(a, st, m + p)
  {
    DivModUnique(|x|, a.block, n, 0);
    assert m + p == x + (y + p);
    FoldConcat(a, st, x, y + p);
  }

  /** Word i of the digest behind those before it. */
  method StoreWord(a: Alg, s: array<nat>, dst: array<nat>, off: nat, i: nat)
    requires a.Valid() && s.Length == 8 && s != dst && i < a.digestWords && off + a.DigestLength() <= dst.Length
    requires Prod(i, a.word) + a.word <= a.DigestLength() && Prod(i, a.word) + a.word == Prod(i + 1, a.word)
    requires Slice(dst, off, Prod(i, a.word)) == DigestBytes(a, s[..], i)
    modifies dst
    ensures Slice(dst, off, Prod(i + 1, a.word)) == DigestBytes(a, s[..], i + 1)
    ensures forall z: array<nat>, i: nat, m: nat {:trigger Slice(z, i, m)} ::
              old(allocated(z)) && Away(z, i, m, dst, off, a.DigestLength()) ==> Slice(z, i, m) == old(Slice(z, i, m))
  {
    hide BeBytes, Slice, Prod;
    StoreBe(dst, off + Prod(i, a.word), a.word, s[i]);
    SliceJoin(dst, off, Prod(i, a.word), a.word);
  }

  /** The digest from the state: the words, highest byte first. */
  method Finish(a: Alg, s: array<nat>, dst: array<nat>, off: nat)
    requires a.Valid() && s.Length == 8 && s != dst && off + a.DigestLength() <= dst.Length
    modifies dst
    ensures Slice(dst, off, a.DigestLength()) == DigestBytes(a, s[..], a.digestWords)
    ensures forall z: array<nat>, i: nat, m: nat {:trigger Slice(z, i, m)} ::
              old(allocated(z)) && Away(z, i, m, dst, off, a.DigestLength()) ==> Slice(z, i, m) == old(Slice(z, i, m))
  {
    assert Prod(0, a.word) == 0 && Slice(dst, off, 0) == DigestBytes(a, s[..], 0);
    assert Prod(a.digestWords, a.word) == a.DigestLength();
    hide Slice, Prod, DigestBytes;
    var i := 0;
    while i < a.digestWords
      invariant 0 <= i <= a.digestWords
      invariant Slice(dst, off, Prod(i, a.word)) == DigestBytes(a, s[..], i)
      invariant forall z: array<nat>, i: nat, m: nat {:trigger Slice(z, i, m)} ::
                  old(allocated(z)) && Away(z, i, m, dst, off, a.DigestLength())
                  ==> Slice(z, i, m) == old(Slice(z, i, m))
    {
      BlockFits(i, a.digestWords, a.word);
      StoreWord(a, s, dst, off, i);
      i := i + 1;
    }
  }

  /** hash_256 and its kin: of a message of whole blocks the last one is held back for the final update. */
  method HashBytes(a: Alg, input: array<nat>, inputLen: nat, dst: array<nat>, off: nat)
    requires a.Valid() && inputLen <= input.Length && off + a.DigestLength() <= dst.Length
    modifies dst
    ensures Slice(dst, off, a.DigestLength()) == Hash(a, old(Slice(input, 0, inputLen)))
    ensures forall z: array<nat>, i: nat, m: nat {:trigger Slice(z, i, m)} ::
              old(allocated(z)) && Away(z, i, m, dst, off, a.DigestLength()) ==> Slice(z, i, m) == old(Slice(z, i, m))
  {
    ghost var m := Slice(input, 0, inputLen);
    var s := new nat[8](i requires 0 <= i < 8 => a.iv[i]);
    assert s[..] == a.iv;
    var blocksN0 := inputLen / a.block;
    var blocksN := if inputLen % a.block == 0 && blocksN0 > 0 then blocksN0 - 1 else blocksN0;
    var blocksLen := Prod(blocksN, a.block);
    HeldBack(a, inputLen, blocksN0, blocksN);
    var restLen := inputLen - blocksLen;
    hide Fold, Padding, Prod;
    UpdateMulti(a, s, input, 0, blocksN);
    UpdateLast(a, s, blocksLen, input, blocksLen, restLen);
    SliceJoin(input, 0, blocksLen, restLen);
    LastFold(a, a.iv, Slice(input, 0, blocksLen), blocksN, Slice(input, blocksLen, restLen), Padding(a, inputLen), m);
    Finish(a, s, dst, off);
  }

  lemma HeldBack(a: Alg, inputLen: nat, blocksN0: nat, blocksN: nat)
    requires a.Valid() && blocksN0 == inputLen / a.block
    requires blocksN == if inputLen % a.block == 0 && blocksN0 > 0 then blocksN0 - 1 else blocksN0
    ensures Prod(blocksN, a.block) <= inputLen && Prod(blocksN, a.block) % a.block == 0
  {
    DivModUnique(Prod(blocksN, a.block), a.block, blocksN, 0);
    MulLe(blocksN, blocksN0, a.block);
  }
}
