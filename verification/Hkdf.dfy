/**
 * HKDF-Expand twice: HACL's block-counting loop with an in-place tag, Hacl_HKDF.c, and kroopt's byte-counting
 * loop over HMAC-SHA384, kroopt_ffi.c, against section 2.3 of RFC 5869.
 */
module Hkdf {
  import opened Arith
  import opened Limbs
  import opened Sha2
  import opened Hmac

  const U32: nat := 0x1_0000_0000

  /** Who computes a round: the RFC, HACL's loop, whose counter is one byte, or kroopt's, whose offsets are 32 bits. */
  datatype Loop = Rfc | Hacl | Kroopt

  // ---- section 2.3 of RFC 5869 ----

  /**
   * The text of a round: T(i - 1) | info | i. HACL stores i as one byte; kroopt stores it at the end of the info
   * as 32 bits give it, and stops the text behind it.
   */
  ghost function Text(o: Loop, t: seq<nat>, info: seq<nat>, i: nat): seq<nat> {
    match o
    case Rfc => t + info + [i]
    case Hacl => t + info + [i % 256]
    case Kroopt =>
      var off := (|t| + |info|) % U32;
      (t + info + [i])[off := i][..(off + 1) % U32]
  }

  /** T(i) = HMAC(PRK, T(i - 1) | info | i), T(0) being empty. */
  ghost function T(o: Loop, a: Alg, prk: seq<nat>, info: seq<nat>, i: nat): (t: seq<nat>)
    requires a.Valid()
    ensures |t| == if i == 0 then 0 else a.DigestLength()
  {
    if i == 0 then [] else HmacOf(a, prk, Text(o, T(o, a, prk, info, i - 1), info, i))
  }

  /** T(1) | T(2) | ... | T(n). */
  ghost function Stream(o: Loop, a: Alg, prk: seq<nat>, info: seq<nat>, n: nat): (s: seq<nat>)
    requires a.Valid()
    ensures |s| == Prod(n, a.DigestLength())
  {
    if n == 0 then []
    else
      BlockFits(n - 1, n, a.DigestLength());
      Stream(o, a, prk, info, n - 1) + T(o, a, prk, info, n)
  }

  lemma DigestPositive(a: Alg)
    requires a.Valid()
    ensures a.DigestLength() > 0
  {
    MulLt(0, a.digestWords, a.word);
  }

  /** The number of rounds that len bytes take. */
  function RoundsFor(len: nat, d: nat): nat
    requires d > 0
  {
    (len + d - 1) / d
  }

  lemma EnoughRounds(len: nat, d: nat)
    requires d > 0
    ensures len <= Prod(RoundsFor(len, d), d) < len + d
  {
  }

  /** The first len bytes of the stream. */
  ghost function Expand(o: Loop, a: Alg, prk: seq<nat>, info: seq<nat>, len: nat): (okm: seq<nat>)
    requires a.Valid()
    ensures |okm| == len
  {
    DigestPositive(a);
    EnoughRounds(len, a.DigestLength());
    Stream(o, a, prk, info, RoundsFor(len, a.DigestLength()))[..len]
  }

  /** Round i + 1 of the RFC is keyed with PRK and hashes the one string that holds T(i), the info and i + 1. */
  lemma RfcRound(a: Alg, prk: seq<nat>, info: seq<nat>, i: nat, x: seq<nat>)
    requires a.Valid()
    requires var t := T(Rfc, a, prk, info, i);
             && |x| == |t| + |info| + 1 && x[..|t|] == t && x[|t|..|t| + |info|] == info && x[|t| + |info|] == i + 1
    ensures T(Rfc, a, prk, info, i + 1) == HmacOf(a, prk, x) && T(Rfc, a, prk, info, 0) == []
  {
    hide HmacOf;
    var t := T(Rfc, a, prk, info, i);
    assert x == t + info + [i + 1];
  }

  lemma StreamNext(o: Loop, a: Alg, prk: seq<nat>, info: seq<nat>, n: nat)
    requires a.Valid()
    ensures Stream(o, a, prk, info, n + 1) == Stream(o, a, prk, info, n) + T(o, a, prk, info, n + 1)
    ensures |T(o, a, prk, info, n + 1)| == a.DigestLength()
  {
    hide T;
  }

  /** Byte k of block i of the stream is byte k of T(i + 1). */
  lemma {:induction false} StreamByte(o: Loop, a: Alg, prk: seq<nat>, info: seq<nat>, n: nat, i: nat, k: nat)
    requires a.Valid() && i < n && k < a.DigestLength()
    ensures Prod(i, a.DigestLength()) + k < |Stream(o, a, prk, info, n)| && |T(o, a, prk, info, i + 1)| > k
    ensures Stream(o, a, prk, info, n)[Prod(i, a.DigestLength()) + k] == T(o, a, prk, info, i + 1)[k]
  {
    hide T, Prod, Stream;
    StreamNext(o, a, prk, info, n - 1);
    if i < n - 1 { StreamByte(o, a, prk, info, n - 1, i, k); }
  }

  /** Byte k of block i of the output, wherever the output ends, is byte k of T(i + 1). */
  lemma ExpandByte(o: Loop, a: Alg, prk: seq<nat>, info: seq<nat>, len: nat, i: nat, k: nat)
    requires a.Valid() && k < a.DigestLength() && Prod(i, a.DigestLength()) + k < len
    ensures k < |T(o, a, prk, info, i + 1)|
    ensures Expand(o, a, prk, info, len)[Prod(i, a.DigestLength()) + k] == T(o, a, prk, info, i + 1)[k]
  {
    DigestPositive(a);
    var d := a.DigestLength();
    var n := RoundsFor(len, d);
    EnoughRounds(len, d);
    if n <= i { MulLe(n, i, d); }
    hide T, Stream, Prod, RoundsFor;
    StreamByte(o, a, prk, info, n, i, k);
  }

  lemma {:induction false} StreamPrefix(o: Loop, a: Alg, prk: seq<nat>, info: seq<nat>, n: nat, m: nat)
    requires a.Valid() && n <= m
    ensures |Stream(o, a, prk, info, n)| <= |Stream(o, a, prk, info, m)|
    ensures Stream(o, a, prk, info, n) == Stream(o, a, prk, info, m)[..|Stream(o, a, prk, info, n)|]
  {
    hide T;
    if n < m { StreamPrefix(o, a, prk, info, n, m - 1); }
  }

  /** Any number of rounds that covers len gives the same bytes. */
  lemma ExpandFrom(o: Loop, a: Alg, prk: seq<nat>, info: seq<nat>, len: nat, n: nat)
    requires a.Valid() && len <= Prod(n, a.DigestLength())
    ensures Expand(o, a, prk, info, len) == Stream(o, a, prk, info, n)[..len]
  {
    DigestPositive(a);
    var d := a.DigestLength();
    var k := RoundsFor(len, d);
    EnoughRounds(len, d);
    if k <= n { StreamPrefix(o, a, prk, info, k, n); } else { StreamPrefix(o, a, prk, info, n, k); }
  }

  /** A shorter output is a prefix of a longer one. */
  lemma ExpandPrefix(o: Loop, a: Alg, prk: seq<nat>, info: seq<nat>, len: nat, len2: nat)
    requires a.Valid() && len <= len2
    ensures Expand(o, a, prk, info, len) == Expand(o, a, prk, info, len2)[..len]
  {
    DigestPositive(a);
    var n := RoundsFor(len2, a.DigestLength());
    EnoughRounds(len2, a.DigestLength());
    ExpandFrom(o, a, prk, info, len, n);
    ExpandFrom(o, a, prk, info, len2, n);
  }

  // ---- the block-counting loop, expand_sha2_256 and expand_sha2_512 ----

  /** The length of the text buffer and of the text of a round behind a tag of d bytes, a uint32_t. */
  function TextSize(d: nat, infoLen: nat): nat {
    (d + infoLen + 1) % U32
  }

  lemma SizeFits(d: nat, infoLen: nat)
    requires d + infoLen + 1 < U32
    ensures TextSize(d, infoLen) == d + infoLen + 1 && TextSize(0, infoLen) == infoLen + 1
  {
  }

  /** Stores the counter byte behind the info. */
  method SetCounter(text: array<nat>, d: nat, infoLen: nat, i: nat)
    requires text.Length == d + infoLen + 1
    modifies text
    ensures Slice(text, 0, d) == old(Slice(text, 0, d)) && Slice(text, d, infoLen) == old(Slice(text, d, infoLen))
    ensures Slice(text, d, infoLen + 1) == old(Slice(text, d, infoLen)) + [i % 256]
    ensures Slice(text, 0, d + infoLen + 1) == old(Slice(text, 0, d) + Slice(text, d, infoLen)) + [i % 256]
  {
    ghost var t, info := Slice(text, 0, d), Slice(text, d, infoLen);
    text[d + infoLen] := i % 256;
    assert Slice(text, 0, d) == t;
    assert Slice(text, d, infoLen) == info;
    assert Slice(text, d + infoLen, 1) == [i % 256];
    hide Slice;
    SliceJoin(text, d, infoLen, 1);
    SliceJoin(text, 0, d, infoLen);
    SliceJoin(text, 0, d + infoLen, 1);
  }

  /** One round: the tag at the front of text is replaced by the next one; the first round leaves it out of the text. */
  method NextTag(a: Alg, prk: array<nat>, prkLen: nat, text: array<nat>, infoLen: nat, i: nat)
    requires a.Valid() && prkLen <= prk.Length && prk != text && a.DigestLength() + infoLen + 1 < U32
    requires text.Length == TextSize(a.DigestLength(), infoLen)
    requires i > 0 ==>
               Slice(text, 0, a.DigestLength())
               == T(Hacl, a, Slice(prk, 0, prkLen), Slice(text, a.DigestLength(), infoLen), i)
    modifies text
    ensures Slice(text, a.DigestLength(), infoLen) == old(Slice(text, a.DigestLength(), infoLen))
    ensures Slice(text, 0, a.DigestLength())
        == T(Hacl, a, old(Slice(prk, 0, prkLen)), old(Slice(text, a.DigestLength(), infoLen)), i + 1)
  {
    hide HmacOf, Slice, TextSize;
    var d := a.DigestLength();
    SizeFits(d, infoLen);
    ghost var info := Slice(text, d, infoLen);
    assert [] + info + [(i + 1) % 256] == info + [(i + 1) % 256];
    SetCounter(text, d, infoLen, i + 1);
    if i == 0 {
      Compute(a, text, 0, prk, prkLen, text, d, TextSize(0, infoLen));
    } else {
      Compute(a, text, 0, prk, prkLen, text, 0, TextSize(d, infoLen));
    }
  }

  /** n whole rounds fit into len bytes, n + 1 do not. */
  lemma WholeRounds(len: nat, d: nat)
    requires d > 0
    ensures Prod(len / d, d) <= len < Prod(len / d, d) + d
  {
  }

  lemma TakeMore(x: seq<nat>, y: seq<nat>, part: nat)
    requires part <= |y|
    ensures (x + y)[..|x| + part] == x + y[..part]
  {
  }

  /** The bytes of one more round behind those of the rounds before. */
  lemma StreamStep(o: Loop, a: Alg, prk: seq<nat>, info: seq<nat>, okm: array<nat>, i: nat, part: nat)
    requires a.Valid() && part <= a.DigestLength() && Prod(i, a.DigestLength()) + part <= okm.Length
    requires Slice(okm, 0, Prod(i, a.DigestLength())) == Stream(o, a, prk, info, i)
    requires Slice(okm, Prod(i, a.DigestLength()), part) == T(o, a, prk, info, i + 1)[..part]
    ensures Prod(i, a.DigestLength()) + part <= Prod(i + 1, a.DigestLength())
    ensures Slice(okm, 0, Prod(i, a.DigestLength()) + part)
         == Stream(o, a, prk, info, i + 1)[..Prod(i, a.DigestLength()) + part]
  {
    hide T, Slice, Prod;
    BlockFits(i, i + 1, a.DigestLength());
    SliceJoin(okm, 0, Prod(i, a.DigestLength()), part);
    TakeMore(Stream(o, a, prk, info, i), T(o, a, prk, info, i + 1), part);
  }

  lemma NoRounds(o: Loop, a: Alg, prk: seq<nat>, info: seq<nat>, okm: array<nat>, n: nat)
    requires a.Valid()
    ensures Prod(0, a.DigestLength()) == 0 <= Prod(n, a.DigestLength())
    ensures Slice(okm, 0, 0) == Stream(o, a, prk, info, 0)
  {
  }

  lemma FirstPart(a: array<nat>, n: nat, m: nat)
    requires m <= n <= a.Length
    ensures Slice(a, 0, m) == Slice(a, 0, n)[..m]
  {
  }

  /** One round and the copy of the first part bytes of its tag. */
  method EmitRound(a: Alg, okm: array<nat>, prk: array<nat>, prkLen: nat, text: array<nat>, infoLen: nat, i: nat,
                   part: nat)
    requires a.Valid() && prkLen <= prk.Length && prk != text && a.DigestLength() + infoLen + 1 < U32
    requires text.Length == TextSize(a.DigestLength(), infoLen) && okm != prk && okm != text
    requires part <= a.DigestLength() && Prod(i, a.DigestLength()) + part <= okm.Length
    requires i > 0 ==>
               Slice(text, 0, a.DigestLength())
               == T(Hacl, a, Slice(prk, 0, prkLen), Slice(text, a.DigestLength(), infoLen), i)
    requires Slice(okm, 0, Prod(i, a.DigestLength()))
        == Stream(Hacl, a, Slice(prk, 0, prkLen), Slice(text, a.DigestLength(), infoLen), i)
    modifies okm, text
    ensures Slice(text, a.DigestLength(), infoLen) == old(Slice(text, a.DigestLength(), infoLen))
    ensures Slice(text, 0, a.DigestLength())
        == T(Hacl, a, Slice(prk, 0, prkLen), Slice(text, a.DigestLength(), infoLen), i + 1)
    ensures Prod(i, a.DigestLength()) + part <= Prod(i + 1, a.DigestLength())
    ensures Slice(okm, 0, Prod(i, a.DigestLength()) + part)
         == Stream(Hacl, a, Slice(prk, 0, prkLen), Slice(text, a.DigestLength(), infoLen),
                   i + 1)[..Prod(i, a.DigestLength()) + part]
    ensures forall j, m {:trigger Slice(okm, j, m)} ::
              Away(okm, j, m, okm, Prod(i, a.DigestLength()), part) ==> Slice(okm, j, m) == old(Slice(okm, j, m))
  {
    hide Slice, Prod, Stream, T, HmacOf, TextSize;
    var d := a.DigestLength();
    SizeFits(d, infoLen);
    ghost var key, inf := Slice(prk, 0, prkLen), Slice(text, d, infoLen);
    NextTag(a, prk, prkLen, text, infoLen, i);
    Memcpy(part, text, 0, okm, Prod(i, d));
    FirstPart(text, d, part);
    StreamStep(Hacl, a, key, inf, okm, i, part);
  }

  /**
   * Whole blocks first, then the part of one more. The guard is what keeps every write inside text, see
   * BufferExact; without it the C code is undefined.
   */
  method HaclExpand(a: Alg, okm: array<nat>, prk: array<nat>, prkLen: nat, info: array<nat>, infoLen: nat, len: nat)
    requires a.Valid() && prkLen <= prk.Length && infoLen <= info.Length && len <= okm.Length
    requires okm != prk && okm != info && a.DigestLength() + infoLen + 1 < U32
    modifies okm
    ensures Slice(okm, 0, len) == Expand(Hacl, a, old(Slice(prk, 0, prkLen)), old(Slice(info, 0, infoLen)), len)
    ensures forall i, m {:trigger Slice(okm, i, m)} ::
              Away(okm, i, m, okm, 0, len) ==> Slice(okm, i, m) == old(Slice(okm, i, m))
  {
    hide Slice, Prod, Stream, T, HmacOf, Expand, TextSize;
    var d := a.DigestLength();
    DigestPositive(a);
    SizeFits(d, infoLen);
    ghost var key, inf := Slice(prk, 0, prkLen), Slice(info, 0, infoLen);
    var n := len / d;
    WholeRounds(len, d);
    NoRounds(Hacl, a, key, inf, okm, n);
    var text := new nat[TextSize(d, infoLen)](_ => 0);
    Memcpy(infoLen, info, 0, text, d);
    var i := 0;
    while i < n
      invariant 0 <= i <= n
      invariant Slice(text, d, infoLen) == inf && (i > 0 ==> Slice(text, 0, d) == T(Hacl, a, key, inf, i))
      invariant Prod(i, d) <= Prod(n, d) && Slice(okm, 0, Prod(i, d)) == Stream(Hacl, a, key, inf, i)
      invariant forall j, m {:trigger Slice(okm, j, m)} ::
                Away(okm, j, m, okm, 0, len) ==> Slice(okm, j, m) == old(Slice(okm, j, m))
      modifies okm, text
    {
      BlockFits(i, n, d);
      EmitRound(a, okm, prk, prkLen, text, infoLen, i, d);
      i := i + 1;
    }
    if Prod(n, d) < len {
      EmitRound(a, okm, prk, prkLen, text, infoLen, n, len - Prod(n, d));
      ExpandFrom(Hacl, a, key, inf, len, n + 1);
    } else {
      ExpandFrom(Hacl, a, key, inf, len, n);
    }
  }

  // ---- the byte-counting loop, kroopt_ffi_hkdf_expand384 ----

  /** Copies the last tag and the info to the front of text. */
  method CopyText(text: array<nat>, ti: array<nat>, tiLen: nat, info: array<nat>)
    requires tiLen <= ti.Length && tiLen + info.Length < text.Length && text != ti && text != info
    modifies text
    ensures text[..tiLen + info.Length] == old(Slice(ti, 0, tiLen)) + old(info[..])
  {
    ghost var inf := info[..];
    assert Slice(info, 0, info.Length) == inf;
    Memcpy(tiLen, ti, 0, text, 0);
    Memcpy(info.Length, info, 0, text, tiLen);
    SliceJoin(text, 0, tiLen, info.Length);
  }

  /** The text of a round, its length a uint32_t like every offset in it. */
  method FillText(text: array<nat>, ti: array<nat>, tiLen: nat, info: array<nat>, i: nat) returns (off: nat)
    requires tiLen <= ti.Length && tiLen + info.Length < text.Length
    requires text != ti && text != info && info.Length < U32 && tiLen < U32
    modifies text
    ensures off <= text.Length
    ensures Slice(text, 0, off) == Text(Kroopt, old(Slice(ti, 0, tiLen)), old(info[..]), i)
  {
    hide Text;
    ghost var t, inf := Slice(ti, 0, tiLen), info[..];
    CopyText(text, ti, tiLen, info);
    off := (tiLen + info.Length) % U32;
    ghost var before := text[..];
    WrappedText(before, t, inf, i);
    text[off] := i;
    assert text[..] == before[off := i];
    off := (off + 1) % U32;
    assert Slice(text, 0, off) == text[..][..off];
  }

  lemma WrappedText(before: seq<nat>, t: seq<nat>, info: seq<nat>, i: nat)
    requires |t| + |info| < |before| && before[..|t| + |info|] == t + info
    ensures var off := (|t| + |info|) % U32;
            before[off := i][..(off + 1) % U32] == Text(Kroopt, t, info, i)
  {
    var n := |t| + |info|;
    var off := n % U32;
    var m := (off + 1) % U32;
    assert off <= n && m <= off + 1;
    var x, y := before[off := i][..m], (t + info + [i])[off := i][..m];
    forall k | 0 <= k < m ensures x[k] == y[k] {
      if k < n { assert before[k] == before[..n][k]; }
    }
  }

  /** One round into ti, and the copy of the first part bytes of it behind those of the rounds before. */
  method KrooptRound(a: Alg, okm: array<nat>, prk: array<nat>, text: array<nat>, ti: array<nat>, tiLen: nat,
                     info: array<nat>, i: nat, done: nat, part: nat)
    requires a.Valid() && a.DigestLength() < U32 && prk.Length < U32 && info.Length < U32 && i < 255
    requires ti.Length == a.DigestLength() && text.Length == a.DigestLength() + info.Length + 1
    requires tiLen == (if i == 0 then 0 else a.DigestLength()) && done == Prod(i, a.DigestLength())
    requires part <= a.DigestLength() && done + part <= okm.Length
    requires text != ti && text != info && text != prk && ti != prk && ti != info && ti != okm && okm != prk
        && okm != info && okm != text
    requires Slice(ti, 0, tiLen) == T(Kroopt, a, prk[..], info[..], i)
    requires Slice(okm, 0, done) == Stream(Kroopt, a, prk[..], info[..], i)
    modifies okm, text, ti
    ensures Slice(ti, 0, a.DigestLength()) == T(Kroopt, a, prk[..], info[..], i + 1)
    ensures done + part <= Prod(i + 1, a.DigestLength())
    ensures Slice(okm, 0, done + part) == Stream(Kroopt, a, prk[..], info[..], i + 1)[..done + part]
  {
    hide Prod, Stream, HmacOf, Text;
    ghost var key, inf := prk[..], info[..];
    assert Slice(prk, 0, prk.Length) == key;
    hide Slice;
    var off := FillText(text, ti, tiLen, info, i + 1);
    Compute(a, ti, 0, prk, prk.Length, text, 0, off);
    Memcpy(part, ti, 0, okm, done);
    FirstPart(ti, a.DigestLength(), part);
    StreamStep(Kroopt, a, key, inf, okm, i, part);
  }

  /** The rounds that len bytes take, counted by bytes. */
  method KrooptRounds(a: Alg, okm: array<nat>, prk: array<nat>, info: array<nat>)
    requires a.Valid() && a.DigestLength() < U32 && prk.Length < U32 && info.Length < U32
    requires okm.Length <= Prod(255, a.DigestLength()) && okm != prk && okm != info
    modifies okm
    ensures okm[..] == Expand(Kroopt, a, prk[..], info[..], okm.Length)
  {
    hide Slice, Prod, Stream, T, HmacOf, Expand;
    var d, len := a.DigestLength(), okm.Length;
    DigestPositive(a);
    ghost var key, inf := prk[..], info[..];
    var text := new nat[d + info.Length + 1];
    var ti := new nat[d];
    NoRounds(Kroopt, a, key, inf, okm, 0);
    NoTag(Kroopt, a, key, inf, ti);
    var tiLen, done, i := 0, 0, 0;
    while done < len
      invariant 0 <= i <= 255 && tiLen == (if i == 0 then 0 else d)
      invariant done == if Prod(i, d) <= len then Prod(i, d) else len
      invariant Slice(ti, 0, tiLen) == T(Kroopt, a, key, inf, i)
      invariant Slice(okm, 0, done) == Stream(Kroopt, a, key, inf, i)[..done]
      modifies okm, text, ti
    {
      RoundLeft(i, d, len);
      var take := if len - done < d then len - done else d;
      KrooptRound(a, okm, prk, text, ti, tiLen, info, i, done, take);
      i := (i + 1) % 256;
      tiLen := d;
      done := done + take;
    }
    ExpandFrom(Kroopt, a, key, inf, len, i);
    WholeSlice(okm);
  }

  lemma NoTag(o: Loop, a: Alg, prk: seq<nat>, info: seq<nat>, ti: array<nat>)
    requires a.Valid()
    ensures Slice(ti, 0, 0) == T(o, a, prk, info, 0)
  {
  }

  lemma WholeSlice(a: array<nat>)
    ensures Slice(a, 0, a.Length) == a[..]
  {
  }

  /** While bytes are missing the counter has room for another round. */
  lemma RoundLeft(i: nat, d: nat, len: nat)
    requires i <= 255 && Prod(i, d) < len <= Prod(255, d)
    ensures i < 255 && Prod(i + 1, d) == Prod(i, d) + d
  {
  }

  /** Rejected inputs and a failed allocation give the empty array. */
  method KrooptExpand(a: Alg, prk: array<nat>, info: array<nat>, len: nat, mallocOk: bool) returns (okm: array<nat>)
    requires a.Valid() && a.DigestLength() < U32
    ensures fresh(okm)
    ensures okm[..] == if prk.Length >= U32 || info.Length >= U32 || len > 255 * a.DigestLength() || !mallocOk then []
                       else Expand(Kroopt, a, prk[..], info[..], len)
  {
    hide Expand;
    okm := new nat[0];
    if prk.Length >= U32 || info.Length >= U32 { return; }
    if len > 255 * a.DigestLength() { return; }
    if !mallocOk { return; }
    okm := new nat[len];
    KrooptRounds(a, okm, prk, info);
  }

  // ---- when the loops are the RFC's ----

  /** Round i + 1 of a loop hashes the RFC's text. */
  ghost predicate SameText(o: Loop, a: Alg, prk: seq<nat>, info: seq<nat>, i: nat)
    requires a.Valid()
  {
    Text(o, T(Rfc, a, prk, info, i), info, i + 1) == Text(Rfc, T(Rfc, a, prk, info, i), info, i + 1)
  }

  lemma {:induction false} StreamExact(o: Loop, a: Alg, prk: seq<nat>, info: seq<nat>, n: nat)
    requires a.Valid()
    requires forall i: nat :: i < n ==> SameText(o, a, prk, info, i)
    ensures T(o, a, prk, info, n) == T(Rfc, a, prk, info, n)
    ensures Stream(o, a, prk, info, n) == Stream(Rfc, a, prk, info, n)
  {
    hide Text, HmacOf;
    if n > 0 {
      StreamExact(o, a, prk, info, n - 1);
      assert SameText(o, a, prk, info, n - 1);
    }
  }

  lemma CounterByte(a: Alg, prk: seq<nat>, info: seq<nat>, i: nat)
    requires a.Valid()
    ensures SameText(Hacl, a, prk, info, i) <==> i < 255
  {
    hide HmacOf, T;
    var t := T(Rfc, a, prk, info, i);
    assert Text(Hacl, t, info, i + 1)[|t| + |info|] == (i + 1) % 256;
    assert Text(Rfc, t, info, i + 1)[|t| + |info|] == i + 1;
  }

  /** All rounds of HACL's loop hash the RFC's texts if and only if no more than 255 digests are asked for. */
  lemma CounterExact(a: Alg, prk: seq<nat>, info: seq<nat>, len: nat)
    requires a.Valid() && a.DigestLength() > 0
    ensures (forall i: nat :: i < RoundsFor(len, a.DigestLength()) ==> SameText(Hacl, a, prk, info, i))
       <==> len <= Prod(255, a.DigestLength())
  {
    hide SameText;
    var n := RoundsFor(len, a.DigestLength());
    forall i: nat | i < n ensures SameText(Hacl, a, prk, info, i) <==> i < 255 { CounterByte(a, prk, info, i); }
    CounterByte(a, prk, info, 255);
    RoundsInByte(len, a.DigestLength());
    hide RoundsFor, Prod;
    assert n > 255 ==> !SameText(Hacl, a, prk, info, 255);
  }

  lemma RoundsInByte(len: nat, d: nat)
    requires d > 0
    ensures RoundsFor(len, d) <= 255 <==> len <= Prod(255, d)
  {
    var n := RoundsFor(len, d);
    EnoughRounds(len, d);
    if n <= 255 { MulLe(n, 255, d); } else { MulLe(256, n, d); }
  }

  /** Up to that length HACL's loop gives the RFC's output. */
  lemma HaclExact(a: Alg, prk: seq<nat>, info: seq<nat>, len: nat)
    requires a.Valid() && len <= Prod(255, a.DigestLength())
    ensures Expand(Hacl, a, prk, info, len) == Expand(Rfc, a, prk, info, len)
  {
    hide Stream, SameText, T, HmacOf, Prod, RoundsFor;
    DigestPositive(a);
    var n := RoundsFor(len, a.DigestLength());
    EnoughRounds(len, a.DigestLength());
    CounterExact(a, prk, info, len);
    StreamExact(Hacl, a, prk, info, n);
  }

  /** The tag, the info and the counter byte are all written inside HACL's text buffer. */
  predicate WritesInside(d: nat, infoLen: nat) {
    d <= TextSize(d, infoLen) && d + infoLen <= TextSize(d, infoLen) && d + infoLen < TextSize(d, infoLen)
  }

  /** What a round passes to HMAC out of a buffer that holds tag, info and counter: the length is a uint32_t. */
  ghost function Passed(t: seq<nat>, info: seq<nat>, i: nat): seq<nat> {
    Text(Hacl, t, info, i)[..TextSize(|t|, |info|)]
  }

  ghost predicate PassesText(a: Alg, prk: seq<nat>, info: seq<nat>, i: nat)
    requires a.Valid()
  {
    Passed(T(Hacl, a, prk, info, i), info, i + 1) == Text(Hacl, T(Hacl, a, prk, info, i), info, i + 1)
  }

  lemma PassesTextWhen(a: Alg, prk: seq<nat>, info: seq<nat>, i: nat)
    requires a.Valid()
    ensures PassesText(a, prk, info, i) <==> (if i == 0 then 0 else a.DigestLength()) + |info| + 1 < U32
  {
    hide HmacOf;
    var t := T(Hacl, a, prk, info, i);
    hide T;
    assert |Text(Hacl, t, info, i + 1)| == |t| + |info| + 1;
    if |t| + |info| + 1 >= U32 { assert |Passed(t, info, i + 1)| < U32; }
  }

  /**
   * Every write of HACL's loop stays inside its buffer and every round passes its whole text to HMAC if and only if
   * the buffer length does not wrap.
   */
  lemma BufferExact(a: Alg, prk: seq<nat>, info: seq<nat>, n: nat)
    requires a.Valid() && |info| < U32
    ensures WritesInside(a.DigestLength(), |info|) && (forall i: nat :: i < n ==> PassesText(a, prk, info, i))
       <==> a.DigestLength() + |info| + 1 < U32
  {
    hide PassesText;
    forall i: nat | i < n
      ensures PassesText(a, prk, info, i) <==> (if i == 0 then 0 else a.DigestLength()) + |info| + 1 < U32
    {
      PassesTextWhen(a, prk, info, i);
    }
    var d := a.DigestLength();
    if d + |info| + 1 >= U32 { assert TextSize(d, |info|) <= d + |info| + 1 - U32; }
  }

  /** With SHA-256 the buffer is empty for 2^32 - 33 bytes of info and long enough for one byte less. */
  lemma BufferTooShort()
    ensures TextSize(32, U32 - 33) == 0 && !WritesInside(32, U32 - 33) && WritesInside(32, U32 - 34)
    ensures TextSize(64, U32 - 65) == 0 && !WritesInside(64, U32 - 65) && WritesInside(64, U32 - 66)
  {
  }

  /** The text of kroopt's loop is the RFC's exactly as long as its length fits 32 bits. */
  lemma TextExact(t: seq<nat>, info: seq<nat>, i: nat)
    ensures Text(Kroopt, t, info, i) == Text(Rfc, t, info, i) <==> |t| + |info| + 1 < U32
  {
    if |t| + |info| + 1 < U32 {
      assert (|t| + |info|) % U32 == |t| + |info|;
    } else {
      assert |Text(Kroopt, t, info, i)| < U32;
    }
  }

  lemma SameTextWhen(a: Alg, prk: seq<nat>, info: seq<nat>, i: nat)
    requires a.Valid()
    ensures SameText(Kroopt, a, prk, info, i) <==> (if i == 0 then 0 else a.DigestLength()) + |info| + 1 < U32
  {
    hide Text, HmacOf;
    TextExact(T(Rfc, a, prk, info, i), info, i + 1);
  }

  /** The first n rounds of kroopt's loop hash the RFC's texts if and only if the longest of these fits 32 bits. */
  lemma RoundsExact(a: Alg, prk: seq<nat>, info: seq<nat>, n: nat)
    requires a.Valid()
    ensures (forall i: nat :: i < n ==> SameText(Kroopt, a, prk, info, i))
       <==> (n >= 1 ==> |info| + 1 < U32) && (n >= 2 ==> a.DigestLength() + |info| + 1 < U32)
  {
    hide SameText;
    forall i: nat | i < n
      ensures SameText(Kroopt, a, prk, info, i) <==> (if i == 0 then 0 else a.DigestLength()) + |info| + 1 < U32
    {
      SameTextWhen(a, prk, info, i);
    }
    SameTextWhen(a, prk, info, 0);
    SameTextWhen(a, prk, info, 1);
  }

  lemma FewRounds(len: nat, d: nat)
    requires d > 0
    ensures len == 0 ==> RoundsFor(len, d) == 0
    ensures len <= d ==> RoundsFor(len, d) <= 1
  {
    if len == 0 {
      DivModUnique(d - 1, d, 0, d - 1);
    } else if len <= d {
      DivModUnique(len + d - 1, d, 1, len - 1);
    }
  }

  /** Then kroopt's loop gives the RFC's output. */
  lemma ExpandExact(a: Alg, prk: seq<nat>, info: seq<nat>, len: nat)
    requires a.Valid()
    requires len == 0 || |info| + 1 < U32
    requires len <= a.DigestLength() || a.DigestLength() + |info| + 1 < U32
    ensures Expand(Kroopt, a, prk, info, len) == Expand(Rfc, a, prk, info, len)
  {
    hide Stream, SameText;
    DigestPositive(a);
    var n := RoundsFor(len, a.DigestLength());
    EnoughRounds(len, a.DigestLength());
    FewRounds(len, a.DigestLength());
    hide RoundsFor;
    RoundsExact(a, prk, info, n);
    StreamExact(Kroopt, a, prk, info, n);
  }

  /** With 2^32 - 1 bytes of info the first round hashes the empty text: its output does not depend on the info. */
  lemma InfoForgotten(a: Alg, prk: seq<nat>, info: seq<nat>, info2: seq<nat>, len: nat)
    requires a.Valid() && len <= a.DigestLength()
    requires |info| == |info2| == U32 - 1
    ensures Text(Kroopt, [], info, 1) == []
    ensures Expand(Kroopt, a, prk, info, len) == Expand(Kroopt, a, prk, info2, len)
  {
    assert Text(Kroopt, [], info, 1) == [] == Text(Kroopt, [], info2, 1);
    hide Text;
    assert T(Kroopt, a, prk, info, 0) == [] == T(Kroopt, a, prk, info2, 0);
    BlockFits(0, 1, a.DigestLength());
    ExpandFrom(Kroopt, a, prk, info, len, 1);
    ExpandFrom(Kroopt, a, prk, info2, len, 1);
    hide Expand;
    assert Stream(Kroopt, a, prk, info, 1) == Stream(Kroopt, a, prk, info2, 1);
  }
}
