/**
 * ChaCha20-Poly1305, Hacl_Chacha20Poly1305_32.c. The bodies of poly1305_init and poly1305_finish are not part of this
 * model: they enter as two functions, the clamped r of a key and the tag of a key and an accumulator.
 */
module Aead {
  import opened Arith
  import opened Words
  import opened Limbs
  import opened Bytes
  import opened Poly1305
  import opened ChaCha20

  datatype PolyFunctions = PolyFunctions(r: seq<nat> -> Limbs26, finish: (seq<nat>, nat) -> seq<nat>)

  /** r fits 26-bit limbs and a tag is sixteen bytes. */
  ghost predicate Usable(h: PolyFunctions) {
    && (forall k: seq<nat> :: Below(h.r(k), 0x4000000))
    && (forall k: seq<nat>, acc: nat :: |h.finish(k, acc)| == 16 && IsLimbs(Base(8), h.finish(k, acc)))
  }

  /** Such functions exist, so what is proved for all of them is not empty. */
  lemma UsableExists() returns (h: PolyFunctions)
    ensures Usable(h)
  {
    h := PolyFunctions(k => Limbs26(0, 0, 0, 0, 0), (k, acc) => seq(16, i => 0));
  }

  /** The tag of section 2.8 of RFC 8439: padded associated data, padded ciphertext, and the two lengths. */
  ghost function Tag(h: PolyFunctions, key: seq<nat>, aad: seq<nat>, c: seq<nat>): seq<nat> {
    var r := Val26(h.r(key));
    var acc := PolyFold(PolyFold(0, r, aad), r, c);
    h.finish(key, PolyStep(acc, r, |aad| + 0x10000000000000000 * |c|))
  }

  // ---- the tag as one polynomial over one byte string ----

  /** The n bytes of a number, lowest first. */
  ghost function LeBytes(x: nat, n: nat): (s: seq<nat>)
    ensures |s| == n
  {
    if n == 0 then [] else [x % 256] + LeBytes(x / 256, n - 1)
  }

  lemma {:induction false} LeBytesValue(x: nat, n: nat)
    requires x < Pow(256, n)
    ensures Eval(256, LeBytes(x, n)) == x && IsLimbs(256, LeBytes(x, n))
  {
    if n > 0 {
      DivBound(x, 256, Pow(256, n - 1));
      LeBytesValue(x / 256, n - 1);
      assert LeBytes(x, n)[1..] == LeBytes(x / 256, n - 1);
    }
  }

  /** The byte string of section 2.8: both texts padded to whole blocks, then their lengths in eight bytes each. */
  ghost function MacData(aad: seq<nat>, c: seq<nat>): (s: seq<nat>)
    ensures |s| % 16 == 0
  {
    BlockSum(|Padded(aad)|, |Padded(c)|);
    Padded(aad) + Padded(c) + (LeBytes(|aad|, 8) + LeBytes(|c|, 8))
  }

  lemma BlockSum(x: nat, y: nat)
    requires x % 16 == 0 && y % 16 == 0
    ensures (x + y + 16) % 16 == 0
  {
  }

  lemma LengthBytes(x: nat, y: nat)
    requires x < 0x10000000000000000 && y < 0x10000000000000000
    ensures Eval(Base(8), LeBytes(x, 8) + LeBytes(y, 8)) == x + 0x10000000000000000 * y
  {
    EightBytes();
    hide Base, Pow;
    LeBytesValue(x, 8); LeBytesValue(y, 8);
    EvalConcat(256, LeBytes(x, 8), LeBytes(y, 8));
  }

  /** The tag authenticates one string, which determines the order of the texts and of the two lengths. */
  lemma TagOfMacData(h: PolyFunctions, key: seq<nat>, aad: seq<nat>, c: seq<nat>)
    requires |aad| < 0x10000000000000000 && |c| < 0x10000000000000000
    ensures Tag(h, key, aad, c) == h.finish(key, PolyFold(0, Val26(h.r(key)), MacData(aad, c)))
    ensures Tag(h, key, aad, c) == h.finish(key, Residue(Polynomial(Val26(h.r(key)), MacData(aad, c))))
  {
    hide Val26, PolyStep, Eval, Base, LeBytes, Residue, Polynomial, Pow, Prod, Padded;
    var r, l := Val26(h.r(key)), LeBytes(|aad|, 8) + LeBytes(|c|, 8);
    var acc := PolyFold(PolyFold(0, r, aad), r, c);
    LengthBytes(|aad|, |c|);
    assert PolyFold(acc, r, l) == PolyStep(acc, r, Eval(Base(8), l));
    hide PolyFold;
    FoldPadded(0, r, aad);
    FoldPadded(PolyFold(0, r, aad), r, c);
    FoldConcat(0, r, Padded(aad), Padded(c));
    FoldConcat(0, r, Padded(aad) + Padded(c), l);
    FoldBlocks(0, r, MacData(aad, c));
    NoSum(Pow(r, |MacData(aad, c)| / 16));
  }

  lemma NoSum(x: nat)
    ensures Prod(0, x) == 0
  {
  }

  /** The parts of the string by their positions. */
  lemma MacParts(aad: seq<nat>, c: seq<nat>)
    ensures var s, n, k := MacData(aad, c), |Padded(aad)|, |Padded(c)|;
            && |s| == n + k + 16 && s[..n][..|aad|] == aad && s[n..n + k][..|c|] == c
            && s[n + k..] == LeBytes(|aad|, 8) + LeBytes(|c|, 8)
  {
    hide LeBytes, Padded;
    var p, q, l := Padded(aad), Padded(c), LeBytes(|aad|, 8) + LeBytes(|c|, 8);
    var s := MacData(aad, c);
    assert s[..|p|] == p && s[|p|..|p| + |q|] == q && s[|p| + |q|..] == l;
  }

  /** Different texts are authenticated as different strings. */
  lemma MacDataInjective(aad: seq<nat>, c: seq<nat>, aad': seq<nat>, c': seq<nat>)
    requires |aad| < 0x10000000000000000 && |c| < 0x10000000000000000
    requires |aad'| < 0x10000000000000000 && |c'| < 0x10000000000000000
    requires MacData(aad, c) == MacData(aad', c')
    ensures aad == aad' && c == c'
  {
    hide *;
    MacParts(aad, c); MacParts(aad', c');
    LengthBytes(|aad|, |c|); LengthBytes(|aad'|, |c'|);
    var s := MacData(aad, c);
    assert s[|s| - 16..] == LeBytes(|aad|, 8) + LeBytes(|c|, 8) == LeBytes(|aad'|, 8) + LeBytes(|c'|, 8);
    assert |aad| == |aad'| && |c| == |c'|;
    SameLength(aad, aad'); SameLength(c, c');
  }

  lemma SameLength(x: seq<nat>, y: seq<nat>)
    requires |x| == |y|
    ensures |Padded(x)| == |Padded(y)|
  {
  }

  method StoreLimbs(ctx: array<nat>, o: nat, l: Limbs26)
    requires o + 5 <= ctx.Length
    modifies ctx
    ensures LimbsAt(ctx, o) == l
    ensures forall k :: 0 <= k < ctx.Length && !(o <= k < o + 5) ==> ctx[k] == old(ctx[k])
  {
    ctx[o], ctx[o + 1], ctx[o + 2], ctx[o + 3], ctx[o + 4] := l.l0, l.l1, l.l2, l.l3, l.l4;
  }

  lemma ZeroResidue(x: nat)
    requires x == 0
    ensures Residue(x) == 0
  {
  }

  /** memset of the accumulator. */
  method ClearAcc(ctx: array<nat>, n: nat)
    requires n <= ctx.Length
    modifies ctx
    ensures forall k :: 0 <= k < n ==> ctx[k] == 0
  {
    forall k | 0 <= k < n { ctx[k] := 0; }
  }

  method PolyInit(h: PolyFunctions, ctx: array<nat>, key: seq<nat>)
    requires Usable(h) && ctx.Length == 25
    modifies ctx
    ensures PolyCtx(ctx) && Acc(ctx) == 0 && RKey(ctx) == Val26(h.r(key))
  {
    var r := h.r(key);
    hide Val26, Residue, Below;
    ClearAcc(ctx, 5);
    ZeroLimbs(LimbsAt(ctx, 0)); ZeroBelow(LimbsAt(ctx, 0));
    ZeroResidue(Val26(LimbsAt(ctx, 0)));
    ghost var zero := LimbsAt(ctx, 0);
    StoreLimbs(ctx, 5, r);
    StoreLimbs(ctx, 10, Limbs26(5 * r.l0, 5 * r.l1, 5 * r.l2, 5 * r.l3, 5 * r.l4));
    assert LimbsAt(ctx, 0) == zero && LimbsAt(ctx, 5) == r;
  }

  /** The block of the two lengths. */
  method PolyLengths(ctx: array<nat>, aadlen: nat, mlen: nat)
    requires PolyCtx(ctx) && aadlen < 0x1_0000_0000 && mlen < 0x1_0000_0000
    modifies ctx
    ensures PolyCtx(ctx) && RKey(ctx) == old(RKey(ctx))
    ensures Acc(ctx) == PolyStep(old(Acc(ctx)), RKey(ctx), aadlen + 0x10000000000000000 * mlen)
  {
    EightBytes();
    hide Eval, Pow, Base, IsLimbs, Acc, RKey, PolyCtx, PolyStep;
    var block := new nat[16](_ => 0);
    StoreLe(block, 0, 8, aadlen);
    StoreLe(block, 8, 8, mlen);
    LengthBlock(block);
    PolyLoad(ctx, block, 0);
  }

  lemma LengthBlock(block: array<nat>)
    requires block.Length == 16 && IsLimbs(Base(8), Slice(block, 0, 8)) && IsLimbs(Base(8), Slice(block, 8, 8))
    ensures IsLimbs(Base(8), Slice(block, 0, 16))
    ensures Val(Base(8), block, 0, 16) == Val(Base(8), block, 0, 8) + 0x10000000000000000 * Val(Base(8), block, 8, 8)
  {
    SliceJoin(block, 0, 8, 8);
    EightBytes();
    EvalConcat(Base(8), Slice(block, 0, 8), Slice(block, 8, 8));
  }

  /** A part of the authenticated data; an empty one is skipped. */
  method PolyPart(ctx: array<nat>, len: nat, text: array<nat>)
    requires PolyCtx(ctx) && ctx != text && len <= text.Length && IsLimbs(Base(8), Slice(text, 0, len))
    modifies ctx
    ensures PolyCtx(ctx) && RKey(ctx) == old(RKey(ctx))
    ensures Acc(ctx) == PolyFold(old(Acc(ctx)), RKey(ctx), Slice(text, 0, len))
  {
    hide Acc, RKey, PolyCtx, PolyStep, Base;
    if len != 0 {
      PolyPadded(ctx, len, text);
    }
  }

  /** The accumulator before the lengths are added. */
  method PolyTexts(h: PolyFunctions, key: seq<nat>, aadlen: nat, aad: array<nat>, mlen: nat,
                   m: array<nat>) returns (ctx: array<nat>)
    requires Usable(h) && aadlen <= aad.Length && mlen <= m.Length
    requires IsLimbs(Base(8), Slice(aad, 0, aadlen)) && IsLimbs(Base(8), Slice(m, 0, mlen))
    ensures fresh(ctx) && PolyCtx(ctx) && RKey(ctx) == Val26(h.r(key))
    ensures Acc(ctx) == PolyFold(PolyFold(0, Val26(h.r(key)), Slice(aad, 0, aadlen)), Val26(h.r(key)),
                                 Slice(m, 0, mlen))
  {
    ctx := new nat[25](_ => 0);
    hide *;
    PolyInit(h, ctx, key);
    PolyPart(ctx, aadlen, aad);
    PolyPart(ctx, mlen, m);
  }

  /** poly1305_do_32. */
  method PolyDo(h: PolyFunctions, k: array<nat>, aadlen: nat, aad: array<nat>, mlen: nat, m: array<nat>,
                out: array<nat>)
    requires Usable(h) && k.Length >= 32 && out.Length == 16
    requires aadlen <= aad.Length && mlen <= m.Length && aadlen < 0x1_0000_0000 && mlen < 0x1_0000_0000
    requires IsLimbs(Base(8), Slice(aad, 0, aadlen)) && IsLimbs(Base(8), Slice(m, 0, mlen))
    modifies out
    ensures out[..] == Tag(h, old(k[..32]), old(Slice(aad, 0, aadlen)), old(Slice(m, 0, mlen)))
        && IsLimbs(Base(8), out[..])
  {
    hide Acc, RKey, PolyCtx, PolyStep, PolyFold, Base, Val26, Below, IsLimbs, Usable;
    var key := k[..32];
    var ctx := PolyTexts(h, key, aadlen, aad, mlen, m);
    PolyLengths(ctx, aadlen, mlen);
    PolyFinish(h, out, key, ctx);
  }

  method PolyFinish(h: PolyFunctions, out: array<nat>, key: seq<nat>, ctx: array<nat>)
    requires Usable(h) && out.Length == 16 && PolyCtx(ctx) && ctx != out
    modifies out
    ensures out[..] == h.finish(key, old(Acc(ctx))) && IsLimbs(Base(8), out[..])
  {
    hide Val26, P130, Base;
    var t := h.finish(key, Residue(Val26(LimbsAt(ctx, 0))));
    forall i | 0 <= i < 16 { out[i] := t[i]; }
    assert out[..] == t;
  }

  // ---- sealing and opening ----

  datatype Option<T> = None | Some(value: T)

  /** The one-time key: the first 32 bytes of the block with counter 0. */
  ghost function OneTimeKey(key: seq<nat>, n: seq<nat>): (k: seq<nat>)
    requires |key| == 32 && |n| == 12
    ensures |k| == 32
  {
    ChaCha(key, n, 0, seq(64, _ => 0))[..32]
  }

  /** Section 2.8 of RFC 8439: ciphertext and tag. */
  ghost function Seal(h: PolyFunctions, key: seq<nat>, n: seq<nat>, aad: seq<nat>, m: seq<nat>): (seq<nat>, seq<nat>)
    requires |key| == 32 && |n| == 12
  {
    var c := ChaCha(key, n, 1, m);
    (c, Tag(h, OneTimeKey(key, n), aad, c))
  }

  ghost function Open(h: PolyFunctions, key: seq<nat>, n: seq<nat>, aad: seq<nat>, c: seq<nat>,
                      tag: seq<nat>): Option<seq<nat>>
    requires |key| == 32 && |n| == 12
  {
    if tag == Tag(h, OneTimeKey(key, n), aad, c) then Some(ChaCha(key, n, 1, c)) else None
  }

  /** What was sealed opens to the message, for every key, nonce, associated data and message. */
  lemma SealThenOpen(h: PolyFunctions, key: seq<nat>, n: seq<nat>, aad: seq<nat>, m: seq<nat>)
    requires |key| == 32 && |n| == 12
    ensures var s := Seal(h, key, n, aad, m); Open(h, key, n, aad, s.0, s.1) == Some(m)
  {
    hide ChaCha, Tag, OneTimeKey;
    ChaChaInvolution(key, n, 1, m);
  }

  /** Nothing else opens: a message comes out exactly when sealing it gives this ciphertext and this tag. */
  lemma OpensIfSealed(h: PolyFunctions, key: seq<nat>, n: seq<nat>, aad: seq<nat>, c: seq<nat>, tag: seq<nat>,
                      m: seq<nat>)
    requires |key| == 32 && |n| == 12
    ensures Open(h, key, n, aad, c, tag) == Some(m) <==> Seal(h, key, n, aad, m) == (c, tag)
    ensures Open(h, key, n, aad, c, tag).Some?
       <==> Seal(h, key, n, aad, ChaCha(key, n, 1, c)) == (c, tag)
  {
    hide ChaCha, Tag, OneTimeKey;
    ChaChaInvolution(key, n, 1, m);
    ChaChaInvolution(key, n, 1, c);
  }

  /** Key and ciphertext come from one key stream: the block with counter 0 and those that follow it. */
  lemma OneKeyStream(h: PolyFunctions, key: seq<nat>, n: seq<nat>, aad: seq<nat>, m: seq<nat>)
    requires |key| == 32 && |n| == 12
    ensures var s := ChaCha(key, n, 0, seq(64, _ => 0) + m);
            OneTimeKey(key, n) == s[..32] && Seal(h, key, n, aad, m).0 == s[64..]
  {
    hide ChaCha, Tag, BlockBytes, InitState, Xor;
    var z := seq(64, _ => 0);
    var s, o, c := ChaCha(key, n, 0, z + m), ChaCha(key, n, 0, z), ChaCha(key, n, 1, m);
    forall j | 0 <= j < 64 ensures s[j] == o[j] {
      StreamByte(key, n, 0, z + m, j); StreamByte(key, n, 0, z, j);
    }
    forall j | 0 <= j < |m| ensures s[64 + j] == c[j] {
      StreamByte(key, n, 0, z + m, 64 + j); StreamByte(key, n, 1, m, j);
      NextCounter(key, n, j / 64);
      assert (64 + j) / 64 == 1 + j / 64 && (64 + j) % 64 == j % 64;
    }
    assert s[64..] == c;
  }

  lemma StreamByte(key: seq<nat>, n: seq<nat>, ctr: nat, text: seq<nat>, j: nat)
    requires |key| == 32 && |n| == 12 && j < |text|
    ensures ChaCha(key, n, ctr, text)[j] == Xor(text[j], BlockBytes(InitState(key, n, ctr), j / 64)[j % 64])
  {
    hide BlockBytes, InitState, Xor;
  }

  lemma NextCounter(key: seq<nat>, n: seq<nat>, i: nat)
    requires |key| == 32 && |n| == 12
    ensures BlockBytes(InitState(key, n, 0), 1 + i) == BlockBytes(InitState(key, n, 1), i)
  {
    hide RfcBlock;
    assert AtCounter(InitState(key, n, 0), 1 + i) == AtCounter(InitState(key, n, 1), i);
  }

  method DeriveKey(k: array<nat>, n: array<nat>) returns (tmp: array<nat>)
    requires k.Length == 32 && n.Length == 12
    ensures fresh(tmp) && tmp.Length == 64 && tmp[..32] == OneTimeKey(k[..], n[..])
  {
    tmp := new nat[64](_ => 0);
    assert Slice(tmp, 0, 64) == seq(64, _ => 0);
    hide ChaCha;
    Encrypt(64, tmp, tmp, k, n, 0);
    assert tmp[..32] == Slice(tmp, 0, 64)[..32];
  }

  /** aead_encrypt; the message may be encrypted in place. */
  method AeadEncrypt(h: PolyFunctions, k: array<nat>, n: array<nat>, aadlen: nat, aad: array<nat>, mlen: nat,
                     m: array<nat>, cipher: array<nat>, mac: array<nat>)
    requires Usable(h) && k.Length == 32 && n.Length == 12 && mac.Length == 16
    requires aadlen <= aad.Length && mlen <= m.Length && mlen <= cipher.Length && aadlen < 0x1_0000_0000
        && mlen < 0x1_0000_0000
    requires cipher !in {k, n, aad, mac}
    requires IsLimbs(Base(8), Slice(aad, 0, aadlen)) && IsLimbs(Base(8), Slice(m, 0, mlen))
    modifies cipher, mac
    ensures (Slice(cipher, 0, mlen), mac[..])
        == Seal(h, old(k[..]), old(n[..]), old(Slice(aad, 0, aadlen)), old(Slice(m, 0, mlen)))
  {
    ghost var ks, ns, ms := k[..], n[..], Slice(m, 0, mlen);
    hide ChaCha, Tag, IsLimbs, OneTimeKey, Base, Usable;
    ChaChaLimbs(ks, ns, 1, ms);
    Encrypt(mlen, cipher, m, k, n, 1);
    var tmp := DeriveKey(k, n);
    PolyDo(h, tmp, aadlen, aad, mlen, cipher, mac);
  }

  /** All ones exactly when the sixteen bytes agree, without an early exit. */
  method TagMask(x: array<nat>, y: array<nat>) returns (res: nat)
    requires x.Length == y.Length == 16 && IsLimbs(Base(8), x[..]) && IsLimbs(Base(8), y[..])
    ensures res == if x[..] == y[..] then 255 else 0
  {
    assert Base(8) == 256 by { Base32(); }
    hide Base, And, EqMask;
    res := 255;
    var i := 0;
    while i < 16
      invariant 0 <= i <= 16
      invariant res == if x[..i] == y[..i] then 255 else 0
    {
      var eq := EqMask(8, x[i], y[i]);
      MaskPair(eq, res);
      assert x[..i + 1] == x[..i] + [x[i]] && y[..i + 1] == y[..i] + [y[i]];
      res := And(eq, res);
      i := i + 1;
    }
    assert x[..16] == x[..] && y[..16] == y[..];
  }

  lemma MaskPair(x: nat, y: nat)
    requires (x == 0 || x == 255) && (y == 0 || y == 255)
    ensures And(x, y) == if x == 255 then y else 0
  {
    assert Base(8) == 256 by { Base32(); }
    hide Base;
    AndOnes(8, y);
  }

  /** aead_decrypt: 0 and the message for the right tag, 1 and an untouched message buffer for any other. */
  method AeadDecrypt(h: PolyFunctions, k: array<nat>, n: array<nat>, aadlen: nat, aad: array<nat>, mlen: nat,
                     m: array<nat>, cipher: array<nat>, mac: array<nat>) returns (r: nat)
    requires Usable(h) && k.Length == 32 && n.Length == 12 && mac.Length == 16 && IsLimbs(Base(8), mac[..])
    requires aadlen <= aad.Length && mlen <= m.Length && mlen <= cipher.Length && aadlen < 0x1_0000_0000
        && mlen < 0x1_0000_0000
    requires IsLimbs(Base(8), Slice(aad, 0, aadlen)) && IsLimbs(Base(8), Slice(cipher, 0, mlen))
    modifies m
    ensures var o := Open(h, old(k[..]), old(n[..]), old(Slice(aad, 0, aadlen)), old(Slice(cipher, 0, mlen)),
                          old(mac[..]));
            if o.Some? then r == 0 && Slice(m, 0, mlen) == o.value else r == 1 && m[..] == old(m[..])
  {
    hide ChaCha, Tag, IsLimbs, OneTimeKey, Base, Usable;
    var computedMac := new nat[16](_ => 0);
    var tmp := DeriveKey(k, n);
    PolyDo(h, tmp, aadlen, aad, mlen, cipher, computedMac);
    var z := TagMask(computedMac, mac);
    if z == 255 {
      Encrypt(mlen, m, cipher, k, n, 1);
      return 0;
    }
    return 1;
  }
}
