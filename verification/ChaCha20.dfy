/** The ChaCha20 stream cipher, Hacl_Chacha20.c, against sections 2.1 to 2.4 of RFC 8439. */
module ChaCha20 {
  import opened Arith
  import opened Words
  import opened Limbs
  import opened Bytes

  // ---- sections 2.1 to 2.3 of RFC 8439 on values ----

  function Add32(x: nat, y: nat): nat {
    (x + y) % 0x1_0000_0000
  }

  function Rotl(x: nat, n: nat): nat
    requires n <= 32
  {
    Or(Prod(x, Base(n)) % 0x1_0000_0000, Shr(x, 32 - n))
  }

  /** One line of the quarter round: s[x] += s[y]; s[z] ^= s[x]; s[z] <<<= n. */
  function HalfQuarter(s: seq<nat>, x: nat, y: nat, z: nat, n: nat): (r: seq<nat>)
    requires |s| == 16 && x < 16 && y < 16 && z < 16 && n <= 32
    ensures |r| == 16
  {
    var t := s[x := Add32(s[x], s[y])];
    t[z := Rotl(Xor(t[z], t[x]), n)]
  }

  function QuarterRound(s: seq<nat>, a: nat, b: nat, c: nat, d: nat): (r: seq<nat>)
    requires |s| == 16 && a < 16 && b < 16 && c < 16 && d < 16
    ensures |r| == 16
  {
    HalfQuarter(HalfQuarter(HalfQuarter(HalfQuarter(s, a, b, d, 16), c, d, b, 12), a, b, d, 8), c, d, b, 7)
  }

  function DoubleRound(s: seq<nat>): (r: seq<nat>)
    requires |s| == 16
    ensures |r| == 16
  {
    var s1 := QuarterRound(s, 0, 4, 8, 12);
    var s2 := QuarterRound(s1, 1, 5, 9, 13);
    var s3 := QuarterRound(s2, 2, 6, 10, 14);
    var s4 := QuarterRound(s3, 3, 7, 11, 15);
    var s5 := QuarterRound(s4, 0, 5, 10, 15);
    var s6 := QuarterRound(s5, 1, 6, 11, 12);
    var s7 := QuarterRound(s6, 2, 7, 8, 13);
    QuarterRound(s7, 3, 4, 9, 14)
  }

  /** The four quarter rounds on the columns of the state, a matrix of four rows. */
  function Columns(s: seq<nat>): (r: seq<nat>)
    requires |s| == 16
    ensures |r| == 16
  {
    QuarterRound(QuarterRound(QuarterRound(QuarterRound(s, 0, 4, 8, 12), 1, 5, 9, 13), 2, 6, 10, 14), 3, 7, 11, 15)
  }

  /** Row i turned to the left by i places, which stands the diagonals up as columns. */
  function Slant(s: seq<nat>): (r: seq<nat>)
    requires |s| == 16
    ensures |r| == 16
  {
    seq(16, p requires 0 <= p < 16 => s[Turned(p)])
  }

  function Turned(p: nat): (q: nat)
    requires p < 16
    ensures q < 16
  {
    p / 4 * 4 + (p + p / 4) % 4
  }

  /** All sixteen words of a slanted state. */
  lemma SlantList(s: seq<nat>)
    requires |s| == 16
    ensures Slant(s) == [s[0], s[1], s[2], s[3], s[5], s[6], s[7], s[4], s[10], s[11], s[8], s[9],
                         s[15], s[12], s[13], s[14]]
  {
  }

  lemma TurnedApart(p: nat, q: nat)
    requires p < q < 16
    ensures Turned(p) != Turned(q)
  {
  }

  lemma SlantHalf(s: seq<nat>, x: nat, y: nat, z: nat, n: nat)
    requires |s| == 16 && x < 16 && y < 16 && z < 16 && n <= 32
    ensures Slant(HalfQuarter(s, Turned(x), Turned(y), Turned(z), n)) == HalfQuarter(Slant(s), x, y, z, n)
  {
    hide Add32, Xor, Rotl, Turned;
    forall p, q | 0 <= p < 16 && 0 <= q < 16 && p != q ensures Turned(p) != Turned(q) {
      if p < q { TurnedApart(p, q); } else { TurnedApart(q, p); }
    }
  }

  lemma SlantQuarter(s: seq<nat>, a: nat, b: nat, c: nat, d: nat)
    requires |s| == 16 && a < 16 && b < 16 && c < 16 && d < 16
    ensures Slant(QuarterRound(s, Turned(a), Turned(b), Turned(c), Turned(d))) == QuarterRound(Slant(s), a, b, c, d)
  {
    hide HalfQuarter, Turned, Slant;
    var s1 := HalfQuarter(s, Turned(a), Turned(b), Turned(d), 16);
    var s2 := HalfQuarter(s1, Turned(c), Turned(d), Turned(b), 12);
    var s3 := HalfQuarter(s2, Turned(a), Turned(b), Turned(d), 8);
    SlantHalf(s, a, b, d, 16); SlantHalf(s1, c, d, b, 12); SlantHalf(s2, a, b, d, 8); SlantHalf(s3, c, d, b, 7);
  }

  /** A double round is two rounds on columns, the rows being turned before the second one. */
  lemma DoubleRoundSlants(s: seq<nat>)
    requires |s| == 16
    ensures Slant(DoubleRound(s)) == Columns(Slant(Columns(s)))
  {
    hide QuarterRound, Slant;
    var s4 := Columns(s);
    var s5 := QuarterRound(s4, 0, 5, 10, 15);
    var s6 := QuarterRound(s5, 1, 6, 11, 12);
    var s7 := QuarterRound(s6, 2, 7, 8, 13);
    SlantQuarter(s4, 0, 4, 8, 12); SlantQuarter(s5, 1, 5, 9, 13);
    SlantQuarter(s6, 2, 6, 10, 14); SlantQuarter(s7, 3, 7, 11, 15);
  }

  function Rounds(s: seq<nat>, n: nat): (r: seq<nat>)
    requires |s| == 16
    ensures |r| == 16
  {
    if n == 0 then s else DoubleRound(Rounds(s, n - 1))
  }

  /** The block of RFC 8439 for a state: ten double rounds, then the state is added. */
  function RfcBlock(st: seq<nat>): (r: seq<nat>)
    requires |st| == 16
    ensures |r| == 16
  {
    seq(16, i requires 0 <= i < 16 => Add32(Rounds(st, 10)[i], st[i]))
  }

  /** The state with its block counter, word 12, advanced by i. */
  function AtCounter(ctx: seq<nat>, i: nat): (r: seq<nat>)
    requires |ctx| == 16
    ensures |r| == 16
  {
    ctx[12 := Add32(ctx[12], i)]
  }

  /** The four bytes of a word, lowest first. */
  function WordBytes(x: nat): seq<nat> {
    [x % 256, x / 256 % 256, x / 65536 % 256, x / 16777216 % 256]
  }

  /** The i-th key stream block after ctx, serialised. */
  function BlockBytes(ctx: seq<nat>, i: nat): (r: seq<nat>)
    requires |ctx| == 16
    ensures |r| == 64
  {
    seq(64, j requires 0 <= j < 64 => WordBytes(RfcBlock(AtCounter(ctx, i))[j / 4])[j % 4])
  }

  /** len bytes of key stream. */
  function KeyStream(ctx: seq<nat>, len: nat): (r: seq<nat>)
    requires |ctx| == 16
    ensures |r| == len
  {
    seq(len, j requires 0 <= j < len => BlockBytes(ctx, j / 64)[j % 64])
  }

  function XorSeq(s: seq<nat>, t: seq<nat>): (r: seq<nat>)
    requires |s| == |t|
    ensures |r| == |s|
  {
    seq(|s|, i requires 0 <= i < |s| => Xor(s[i], t[i]))
  }

  /** Encrypting twice with the same key stream gives the text back. */
  lemma XorTwice(s: seq<nat>, t: seq<nat>)
    requires |s| == |t|
    ensures XorSeq(XorSeq(s, t), t) == s
  {
    forall i | 0 <= i < |s| ensures XorSeq(XorSeq(s, t), t)[i] == s[i] {
      XorSelf(s[i], t[i]);
    }
  }

  // ---- words stay words ----

  lemma Base32()
    ensures Base(32) == 0x1_0000_0000 && Base(8) == 256
  {
    EightBytes();
    PowMul(2, 8, 4);
  }

  /** A line of the quarter round in place. */
  method HalfQuarterInPlace(st: array<nat>, x: nat, y: nat, z: nat, n: nat)
    requires st.Length == 16 && x < 16 && y < 16 && z < 16 && n <= 32
    modifies st
    ensures st[..] == HalfQuarter(old(st[..]), x, y, z, n)
  {
    hide Xor, Rotl, Add32;
    var sx := Add32(st[x], st[y]);
    st[x] := sx;
    st[z] := Rotl(Xor(st[z], sx), n);
  }

  method QuarterRoundInPlace(st: array<nat>, a: nat, b: nat, c: nat, d: nat)
    requires st.Length == 16 && a < 16 && b < 16 && c < 16 && d < 16
    modifies st
    ensures st[..] == QuarterRound(old(st[..]), a, b, c, d)
  {
    hide HalfQuarter;
    HalfQuarterInPlace(st, a, b, d, 16);
    HalfQuarterInPlace(st, c, d, b, 12);
    HalfQuarterInPlace(st, a, b, d, 8);
    HalfQuarterInPlace(st, c, d, b, 7);
  }

  method DoubleRoundInPlace(st: array<nat>)
    requires st.Length == 16
    modifies st
    ensures st[..] == DoubleRound(old(st[..]))
  {
    hide QuarterRound;
    QuarterRoundInPlace(st, 0, 4, 8, 12);
    QuarterRoundInPlace(st, 1, 5, 9, 13);
    QuarterRoundInPlace(st, 2, 6, 10, 14);
    QuarterRoundInPlace(st, 3, 7, 11, 15);
    QuarterRoundInPlace(st, 0, 5, 10, 15);
    QuarterRoundInPlace(st, 1, 6, 11, 12);
    QuarterRoundInPlace(st, 2, 7, 8, 13);
    QuarterRoundInPlace(st, 3, 4, 9, 14);
  }

  method RoundsInPlace(st: array<nat>)
    requires st.Length == 16
    modifies st
    ensures st[..] == Rounds(old(st[..]), 10)
  {
    hide DoubleRound;
    ghost var s := st[..];
    var i := 0;
    while i < 10
      invariant 0 <= i <= 10 && st[..] == Rounds(s, i)
    {
      DoubleRoundInPlace(st);
      i := i + 1;
    }
  }

  lemma AddTwice(x: nat, c: nat, i: nat)
    ensures Add32(Add32(x, c), i) == Add32(x, Add32(c, i))
  {
    var n := 0x1_0000_0000;
    CongMod(x + c, n); CongMod(c + i, n);
    CongAdd(Add32(x, c), x + c, i, i, n);
    CongAdd(x, x, Add32(c, i), c + i, n);
  }

  /**
   * chacha20_core adds the context with its own counter and the offset separately;
   * the result is the RFC block at the advanced counter.
   */
  method Core(k: array<nat>, ctx: array<nat>, ctr: nat)
    requires k.Length == 16 && ctx.Length == 16 && k != ctx
    modifies k
    ensures k[..] == RfcBlock(AtCounter(ctx[..], ctr))
  {
    hide Rounds, Add32;
    ghost var st := AtCounter(ctx[..], ctr);
    forall i | 0 <= i < 16 { k[i] := ctx[i]; }
    k[12] := Add32(k[12], ctr);
    assert k[..] == st;
    RoundsInPlace(k);
    ghost var r := k[..];
    var i := 0;
    while i < 16
      invariant 0 <= i <= 16
      invariant forall j :: 0 <= j < i ==> k[j] == Add32(r[j], ctx[j])
      invariant forall j :: i <= j < 16 ==> k[j] == r[j]
    {
      k[i] := Add32(k[i], ctx[i]);
      i := i + 1;
    }
    AddTwice(r[12], ctx[12], ctr);
    k[12] := Add32(k[12], ctr);
    ghost var q := RfcBlock(st);
    assert ctx[..] == old(ctx[..]);
    assert k[..] == q by {
      forall j | 0 <= j < 16 ensures k[..][j] == q[j] {}
    }
  }

  // ---- section 2.4: xor with the key stream ----

  lemma WordBytesValue(x: nat)
    requires x < 0x1_0000_0000
    ensures Eval(Base(8), WordBytes(x)) == x && IsLimbs(Base(8), WordBytes(x))
  {
    Base32();
    hide Base;
    var b := WordBytes(x);
    var q1, q2, q3 := x / 256, x / 65536, x / 16777216;
    assert q1 / 256 == q2 && q2 / 256 == q3 && x == 256 * q1 + b[0] && q1 == 256 * q2 + b[1] && q2 == 256 * q3 + b[2];
    var b1 := b[1..];
    var b2 := b1[1..];
    assert b2[1..] == [b[3]] && b1[0] == b[1] && b2[0] == b[2];
    EvalOne(256, b[3]);
    assert Eval(256, b2) == b[2] + 256 * b[3];
    assert Eval(256, b1) == b[1] + 256 * Eval(256, b2);
    assert Eval(256, b) == b[0] + 256 * Eval(256, b1);
  }

  /** The exclusive or of two words is that of their bytes. */
  lemma {:induction false} XorBytes(s: seq<nat>, t: seq<nat>)
    requires |s| == |t| && IsLimbs(256, s) && IsLimbs(256, t)
    ensures IsLimbs(256, XorSeq(s, t)) && Eval(256, XorSeq(s, t)) == Xor(Eval(256, s), Eval(256, t))
  {
    if s != [] {
      XorBytes(s[1..], t[1..]);
      assert XorSeq(s, t)[1..] == XorSeq(s[1..], t[1..]);
      assert Base(8) == 256 by { Base32(); }
      BitBounds(8, s[0], t[0]);
      XorSplit(8, s[0], Eval(256, s[1..]), t[0], Eval(256, t[1..]));
      ProdSym(256, Eval(256, s[1..])); ProdSym(256, Eval(256, t[1..]));
    }
  }

  /** Every word of a block fits 32 bits, since the final addition wraps. */
  lemma BlockWord(st: seq<nat>, i: nat)
    requires |st| == 16 && i < 16
    ensures RfcBlock(st)[i] < 0x1_0000_0000
  {
  }

  /** The four bytes of word i. */
  ghost function Quad(s: seq<nat>, i: nat): (q: seq<nat>)
    requires 4 * i + 4 <= |s|
    ensures |q| == 4
  {
    s[4 * i..4 * i + 4]
  }

  /** Sixteen little-endian words. */
  method LoadWords(text: array<nat>, to: nat) returns (bl: array<nat>)
    requires to + 64 <= text.Length
    ensures fresh(bl) && bl.Length == 16
    ensures forall j :: 0 <= j < 16 ==> bl[j] == Eval(Base(8), Quad(Slice(text, to, 64), j))
  {
    ghost var s := Slice(text, to, 64);
    bl := new nat[16](_ => 0);
    hide Eval, Base;
    var i := 0;
    while i < 16
      invariant 0 <= i <= 16
      invariant forall j :: 0 <= j < i ==> bl[j] == Eval(Base(8), Quad(s, j))
    {
      assert Slice(text, to + 4 * i, 4) == Quad(s, i);
      var u := LoadLe(text, to + 4 * i, 4);
      bl[i] := u;
      i := i + 1;
    }
  }

  /** The words of a byte sequence, written back. */
  method StoreBlock(out: array<nat>, oo: nat, bl: array<nat>, ghost b: seq<nat>)
    requires oo + 64 <= out.Length && bl.Length == 16 && bl != out && |b| == 64 && IsLimbs(Base(8), b)
    requires forall j :: 0 <= j < 16 ==> bl[j] == Eval(Base(8), Quad(b, j))
    modifies out
    ensures Slice(out, oo, 64) == b
    ensures forall z: array<nat>, i: nat, m: nat {:trigger Slice(z, i, m)} ::
              old(allocated(z)) && Away(z, i, m, out, oo, 64) ==> Slice(z, i, m) == old(Slice(z, i, m))
  {
    EightBytes();
    hide Eval, Base, IsLimbs;
    var i := 0;
    while i < 16
      invariant 0 <= i <= 16 && Slice(out, oo, 4 * i) == b[..4 * i]
      invariant forall z: array<nat>, i: nat, m: nat {:trigger Slice(z, i, m)} ::
                  old(allocated(z)) && Away(z, i, m, out, oo, 64) ==> Slice(z, i, m) == old(Slice(z, i, m))
    {
      StoreQuad(out, oo, i, bl[i], b);
      i := i + 1;
    }
  }

  method StoreQuad(out: array<nat>, oo: nat, i: nat, x: nat, ghost b: seq<nat>)
    requires oo + 64 <= out.Length && i < 16 && |b| == 64 && IsLimbs(Base(8), b) && x == Eval(Base(8), Quad(b, i))
    requires Slice(out, oo, 4 * i) == b[..4 * i]
    modifies out
    ensures Slice(out, oo, 4 * (i + 1)) == b[..4 * (i + 1)]
    ensures forall z: array<nat>, k: nat, m: nat {:trigger Slice(z, k, m)} ::
              old(allocated(z)) && Away(z, k, m, out, oo, 64) ==> Slice(z, k, m) == old(Slice(z, k, m))
  {
    ghost var q := Quad(b, i);
    EightBytes();
    EvalBound(Base(8), q);
    hide Eval, Base, IsLimbs;
    StoreLe(out, oo + 4 * i, 4, x);
    QuadLimbs(b, i);
    EvalInjective(Base(8), Slice(out, oo + 4 * i, 4), q);
    SliceJoin(out, oo, 4 * i, 4);
    assert b[..4 * (i + 1)] == b[..4 * i] + q;
  }

  lemma QuadLimbs(b: seq<nat>, i: nat)
    requires |b| == 64 && i < 16 && IsLimbs(Base(8), b)
    ensures IsLimbs(Base(8), Quad(b, i))
  {
  }

  lemma WordOfBlock(ctx: seq<nat>, incr: nat, i: nat)
    requires |ctx| == 16 && i < 16
    ensures Quad(BlockBytes(ctx, incr), i) == WordBytes(RfcBlock(AtCounter(ctx, incr))[i])
    ensures RfcBlock(AtCounter(ctx, incr))[i] < 0x1_0000_0000
  {
    BlockWord(AtCounter(ctx, incr), i);
    hide RfcBlock, AtCounter;
    var ks := RfcBlock(AtCounter(ctx, incr));
    var b, w := Quad(BlockBytes(ctx, incr), i), WordBytes(ks[i]);
    forall j | 0 <= j < 4 ensures b[j] == w[j] {
      assert (4 * i + j) / 4 == i && (4 * i + j) % 4 == j;
    }
  }

  /** Word i of the encrypted block. */
  lemma WordXored(s: seq<nat>, ctx: seq<nat>, incr: nat, i: nat)
    requires |s| == 64 && |ctx| == 16 && i < 16 && IsLimbs(Base(8), s)
    ensures Xor(Eval(Base(8), Quad(s, i)), RfcBlock(AtCounter(ctx, incr))[i])
         == Eval(Base(8), Quad(XorSeq(s, BlockBytes(ctx, incr)), i))
    ensures IsLimbs(Base(8), Quad(XorSeq(s, BlockBytes(ctx, incr)), i))
  {
    hide RfcBlock, AtCounter, BlockBytes, WordBytes, Eval, Base, Xor;
    WordOfBlock(ctx, incr, i);
    Base32();
    var x := RfcBlock(AtCounter(ctx, incr))[i];
    var t, q := BlockBytes(ctx, incr), Quad(s, i);
    WordBytesValue(x);
    QuadLimbs(s, i);
    assert Quad(XorSeq(s, t), i) == XorSeq(q, Quad(t, i));
    XorBytes(q, Quad(t, i));
  }

  lemma StreamBytes(ctx: seq<nat>, i: nat)
    requires |ctx| == 16
    ensures IsLimbs(256, BlockBytes(ctx, i))
  {
    hide RfcBlock, AtCounter;
  }

  lemma BlockLimbs(s: seq<nat>, ctx: seq<nat>, incr: nat)
    requires |s| == 64 && |ctx| == 16 && IsLimbs(Base(8), s)
    ensures IsLimbs(Base(8), XorSeq(s, BlockBytes(ctx, incr)))
  {
    assert Base(8) == 256 by { Base32(); }
    hide *;
    StreamBytes(ctx, incr);
    XorBytes(s, BlockBytes(ctx, incr));
  }

  method XorWords(bl: array<nat>, k: array<nat>, ghost s: seq<nat>, ghost cs: seq<nat>, ghost incr: nat)
    requires bl.Length == 16 && k.Length == 16 && bl != k && |s| == 64 && |cs| == 16 && IsLimbs(Base(8), s)
    requires k[..] == RfcBlock(AtCounter(cs, incr)) && forall j :: 0 <= j < 16 ==> bl[j] == Eval(Base(8), Quad(s, j))
    modifies bl
    ensures forall j :: 0 <= j < 16 ==> bl[j] == Eval(Base(8), Quad(XorSeq(s, BlockBytes(cs, incr)), j))
  {
    hide *;
    var i := 0;
    while i < 16
      invariant 0 <= i <= 16
      invariant forall j :: 0 <= j < i ==> bl[j] == Eval(Base(8), Quad(XorSeq(s, BlockBytes(cs, incr)), j))
      invariant forall j :: i <= j < 16 ==> bl[j] == Eval(Base(8), Quad(s, j))
    {
      WordXored(s, cs, incr, i);
      bl[i] := Xor(bl[i], k[i]);
      i := i + 1;
    }
  }

  /** One block of 64 bytes; out and text may be the same memory. */
  method EncryptBlock(ctx: array<nat>, out: array<nat>, oo: nat, incr: nat, text: array<nat>, to: nat)
    requires ctx.Length == 16 && ctx != out && oo + 64 <= out.Length && to + 64 <= text.Length
    requires IsLimbs(Base(8), Slice(text, to, 64))
    modifies out
    ensures Slice(out, oo, 64) == XorSeq(old(Slice(text, to, 64)), BlockBytes(ctx[..], incr))
    ensures forall z: array<nat>, i: nat, m: nat {:trigger Slice(z, i, m)} ::
              old(allocated(z)) && Away(z, i, m, out, oo, 64) ==> Slice(z, i, m) == old(Slice(z, i, m))
  {
    assert |Slice(text, to, 64)| == 64;
    hide *;
    ghost var s, cs := Slice(text, to, 64), ctx[..];
    var k := new nat[16](_ => 0);
    Core(k, ctx, incr);
    var bl := LoadWords(text, to);
    XorWords(bl, k, s, cs, incr);
    BlockLimbs(s, cs, incr);
    StoreBlock(out, oo, bl, XorSeq(s, BlockBytes(cs, incr)));
    assert ctx[..] == cs;
  }

  /** The key stream is cut from one block after the other. */
  lemma StreamStep(s: seq<nat>, ctx: seq<nat>, i: nat, n: nat)
    requires |ctx| == 16 && n <= 64 && 64 * i + n <= |s|
    ensures XorSeq(s[..64 * i + n], KeyStream(ctx, 64 * i + n))
         == XorSeq(s[..64 * i], KeyStream(ctx, 64 * i)) + XorSeq(s[64 * i..64 * i + n], BlockBytes(ctx, i)[..n])
  {
    hide BlockBytes, Xor;
    var l := XorSeq(s[..64 * i + n], KeyStream(ctx, 64 * i + n));
    var r := XorSeq(s[..64 * i], KeyStream(ctx, 64 * i)) + XorSeq(s[64 * i..64 * i + n], BlockBytes(ctx, i)[..n]);
    forall j | 0 <= j < 64 * i + n ensures l[j] == r[j] {
      if j >= 64 * i { DivModUnique(j, 64, i, j - 64 * i); }
    }
  }

  /** The state of the update after i whole blocks. */
  ghost predicate Streaming(cs: seq<nat>, len: nat, out: array<nat>, text: array<nat>, s: seq<nat>, i: nat)
    reads out, text
  {
    && |cs| == 16 && |s| == len && 64 * i <= len <= out.Length && len <= text.Length
    && Slice(out, 0, 64 * i) == XorSeq(s[..64 * i], KeyStream(cs, 64 * i))
    && Slice(text, 64 * i, len - 64 * i) == s[64 * i..]
  }

  method UpdateBlock(ctx: array<nat>, len: nat, out: array<nat>, text: array<nat>, ghost s: seq<nat>, i: nat)
    requires ctx.Length == 16 && ctx != out && IsLimbs(Base(8), s) && Streaming(ctx[..], len, out, text, s, i)
        && 64 * i + 64 <= len
    modifies out
    ensures Streaming(ctx[..], len, out, text, s, i + 1)
    ensures forall z: array<nat>, k: nat, m: nat {:trigger Slice(z, k, m)} ::
              old(allocated(z)) && Away(z, k, m, out, 0, len) ==> Slice(z, k, m) == old(Slice(z, k, m))
  {
    ghost var cs, q := ctx[..], s[64 * i..64 * i + 64];
    assert Slice(text, 64 * i, 64) == q by {
      assert Slice(text, 64 * i, 64) == Slice(text, 64 * i, len - 64 * i)[..64];
    }
    assert Slice(text, 64 * i + 64, len - 64 * i - 64) == s[64 * i + 64..] by {
      assert Slice(text, 64 * i + 64, len - 64 * i - 64) == Slice(text, 64 * i, len - 64 * i)[64..];
    }
    hide XorSeq, KeyStream, BlockBytes, Base, Xor;
    EncryptBlock(ctx, out, 64 * i, i, text, 64 * i);
    assert ctx[..] == cs;
    StreamStep(s, cs, i, 64);
    assert BlockBytes(cs, i)[..64] == BlockBytes(cs, i);
    SliceJoin(out, 0, 64 * i, 64);
  }

  /** The last, partial block, encrypted in a zero-padded copy. */
  method EncryptLast(ctx: array<nat>, n: nat, out: array<nat>, oo: nat, incr: nat, text: array<nat>, to: nat)
    requires ctx.Length == 16 && ctx != out && n < 64 && oo + n <= out.Length && to + n <= text.Length
    requires IsLimbs(Base(8), Slice(text, to, n))
    modifies out
    ensures Slice(out, oo, n) == XorSeq(old(Slice(text, to, n)), BlockBytes(ctx[..], incr)[..n])
    ensures forall z: array<nat>, i: nat, m: nat {:trigger Slice(z, i, m)} ::
              old(allocated(z)) && Away(z, i, m, out, oo, n) ==> Slice(z, i, m) == old(Slice(z, i, m))
  {
    ghost var s, cs := Slice(text, to, n), ctx[..];
    var plain := new nat[64](_ => 0);
    ghost var z := Slice(plain, n, 64 - n);
    Memcpy(n, text, to, plain, 0);
    ghost var padded := Slice(plain, 0, 64);
    ZeroPadded(plain, n, s, z);
    hide BlockBytes, Xor, Base, XorSeq, IsLimbs;
    EncryptBlock(ctx, plain, 0, incr, plain, 0);
    PrefixXor(padded, BlockBytes(cs, incr), n, s);
    assert Slice(plain, 0, n) == Slice(plain, 0, 64)[..n];
    Memcpy(n, plain, 0, out, oo);
    assert ctx[..] == cs;
  }

  lemma ZeroPadded(plain: array<nat>, n: nat, s: seq<nat>, z: seq<nat>)
    requires plain.Length == 64 && n < 64 && Slice(plain, 0, n) == s && IsLimbs(Base(8), s)
    requires Slice(plain, n, 64 - n) == z && forall k :: 0 <= k < |z| ==> z[k] == 0
    ensures Slice(plain, 0, 64)[..n] == s && IsLimbs(Base(8), Slice(plain, 0, 64))
  {
    var p := Slice(plain, 0, 64);
    forall k | 0 <= k < 64 ensures p[k] < Base(8) {
      if k < n { assert p[k] == Slice(plain, 0, n)[k]; } else { assert p[k] == Slice(plain, n, 64 - n)[k - n]; }
    }
  }

  lemma PrefixXor(s: seq<nat>, t: seq<nat>, n: nat, s': seq<nat>)
    requires |s| == |t| && n <= |s| && s' == s[..n]
    ensures XorSeq(s, t)[..n] == XorSeq(s', t[..n])
  {
  }

  /** Whole blocks and then the rest: text xored with len bytes of key stream; out may be text. */
  method Update(ctx: array<nat>, len: nat, out: array<nat>, text: array<nat>)
    requires ctx.Length == 16 && ctx != out && len <= out.Length && len <= text.Length
        && IsLimbs(Base(8), Slice(text, 0, len))
    modifies out
    ensures Slice(out, 0, len) == XorSeq(old(Slice(text, 0, len)), KeyStream(ctx[..], len))
    ensures forall z: array<nat>, k: nat, m: nat {:trigger Slice(z, k, m)} ::
              old(allocated(z)) && Away(z, k, m, out, 0, len) ==> Slice(z, k, m) == old(Slice(z, k, m))
  {
    ghost var s, cs := Slice(text, 0, len), ctx[..];
    var rem, nb := len % 64, len / 64;
    assert Streaming(cs, len, out, text, s, 0) by {
      hide BlockBytes;
      assert XorSeq(s[..0], KeyStream(cs, 0)) == [];
    }
    hide XorSeq, KeyStream, BlockBytes, Base, Xor, Streaming;
    UpdateLoop(ctx, len, out, text, s, nb);
    Finished(cs, len, out, text, s, nb, rem);
    if rem > 0 {
      EncryptLast(ctx, rem, out, nb * 64, nb, text, nb * 64);
      JoinRest(cs, len, out, s, nb, rem);
    }
  }

  lemma JoinRest(cs: seq<nat>, len: nat, out: array<nat>, s: seq<nat>, nb: nat, rem: nat)
    requires |cs| == 16 && rem <= 64 && len == 64 * nb + rem == |s| <= out.Length
    requires Slice(out, 0, 64 * nb) == XorSeq(s[..64 * nb], KeyStream(cs, 64 * nb))
    requires Slice(out, 64 * nb, rem) == XorSeq(s[64 * nb..64 * nb + rem], BlockBytes(cs, nb)[..rem])
    ensures Slice(out, 0, len) == XorSeq(s, KeyStream(cs, len))
  {
    hide XorSeq, KeyStream, BlockBytes;
    StreamStep(s, cs, nb, rem);
    SliceJoin(out, 0, 64 * nb, rem);
    assert s[..64 * nb + rem] == s;
  }

  method UpdateLoop(ctx: array<nat>, len: nat, out: array<nat>, text: array<nat>, ghost s: seq<nat>, nb: nat)
    requires ctx.Length == 16 && ctx != out && IsLimbs(Base(8), s) && nb == len / 64
    requires Streaming(ctx[..], len, out, text, s, 0)
    modifies out
    ensures Streaming(ctx[..], len, out, text, s, nb)
    ensures forall z: array<nat>, k: nat, m: nat {:trigger Slice(z, k, m)} ::
              old(allocated(z)) && Away(z, k, m, out, 0, len) ==> Slice(z, k, m) == old(Slice(z, k, m))
  {
    hide Streaming, XorSeq, KeyStream, BlockBytes, RfcBlock, Base, IsLimbs;
    var i := 0;
    while i < nb
      invariant 0 <= i <= nb && Streaming(ctx[..], len, out, text, s, i)
      invariant forall z: array<nat>, k: nat, m: nat {:trigger Slice(z, k, m)} ::
                  old(allocated(z)) && Away(z, k, m, out, 0, len) ==> Slice(z, k, m) == old(Slice(z, k, m))
    {
      UpdateBlock(ctx, len, out, text, s, i);
      i := i + 1;
    }
  }

  lemma Finished(cs: seq<nat>, len: nat, out: array<nat>, text: array<nat>, s: seq<nat>, nb: nat, rem: nat)
    requires Streaming(cs, len, out, text, s, nb) && len == 64 * nb + rem && IsLimbs(Base(8), s)
    ensures Slice(out, 0, 64 * nb) == XorSeq(s[..64 * nb], KeyStream(cs, 64 * nb))
    ensures Slice(text, 64 * nb, rem) == s[64 * nb..64 * nb + rem] && IsLimbs(Base(8), Slice(text, 64 * nb, rem))
    ensures rem == 0 ==> s[..64 * nb] == s
  {
  }

  // ---- chacha20_encrypt ----

  /** The initial state of section 2.3: constants, key, counter and nonce. */
  ghost function InitState(key: seq<nat>, n: seq<nat>, ctr: nat): (st: seq<nat>)
    requires |key| == 32 && |n| == 12
    ensures |st| == 16
  {
    [0x61707865, 0x3320646e, 0x79622d32, 0x6b206574]
    + seq(8, i requires 0 <= i < 8 => Eval(Base(8), Quad(key, i)))
    + [ctr] + seq(3, i requires 0 <= i < 3 => Eval(Base(8), Quad(n, i)))
  }

  /** cnt little-endian words into a state from position at. */
  method LoadInto(ctx: array<nat>, at: nat, cnt: nat, b: array<nat>)
    requires at + cnt <= ctx.Length && 4 * cnt == b.Length && b != ctx
    modifies ctx
    ensures forall j :: 0 <= j < ctx.Length ==>
              ctx[j] == if at <= j < at + cnt then Eval(Base(8), Quad(b[..], j - at)) else old(ctx[j])
  {
    ghost var bs := b[..];
    hide Eval, Base;
    var i := 0;
    while i < cnt
      invariant 0 <= i <= cnt && b[..] == bs
      invariant forall j :: 0 <= j < ctx.Length ==>
                  ctx[j] == if at <= j < at + i then Eval(Base(8), Quad(bs, j - at)) else old(ctx[j])
    {
      assert Slice(b, 4 * i, 4) == Quad(bs, i);
      var u := LoadLe(b, 4 * i, 4);
      ctx[at + i] := u;
      i := i + 1;
    }
  }

  method Init(key: array<nat>, n: array<nat>, ctr: nat) returns (ctx: array<nat>)
    requires key.Length == 32 && n.Length == 12
    ensures fresh(ctx) && ctx.Length == 16 && ctx[..] == InitState(key[..], n[..], ctr)
  {
    hide Eval, Base, Quad;
    ctx := new nat[16](_ => 0);
    ctx[0], ctx[1], ctx[2], ctx[3] := 0x61707865, 0x3320646e, 0x79622d32, 0x6b206574;
    LoadInto(ctx, 4, 8, key);
    ctx[12] := ctr;
    LoadInto(ctx, 13, 3, n);
    ghost var st := InitState(key[..], n[..], ctr);
    forall j | 0 <= j < 16 ensures ctx[j] == st[j] {}
  }

  /** The cipher of section 2.4; applied twice with one key, nonce and counter it gives the text back. */
  ghost function ChaCha(key: seq<nat>, n: seq<nat>, ctr: nat, text: seq<nat>): (c: seq<nat>)
    requires |key| == 32 && |n| == 12
    ensures |c| == |text|
  {
    XorSeq(text, KeyStream(InitState(key, n, ctr), |text|))
  }

  lemma ChaChaInvolution(key: seq<nat>, n: seq<nat>, ctr: nat, text: seq<nat>)
    requires |key| == 32 && |n| == 12
    ensures ChaCha(key, n, ctr, ChaCha(key, n, ctr, text)) == text
  {
    hide XorSeq, KeyStream, InitState;
    XorTwice(text, KeyStream(InitState(key, n, ctr), |text|));
  }

  lemma StreamLimbs(ctx: seq<nat>, len: nat)
    requires |ctx| == 16
    ensures IsLimbs(Base(8), KeyStream(ctx, len))
  {
    assert Base(8) == 256 by { Base32(); }
    hide BlockBytes, Base;
    forall j | 0 <= j < len ensures KeyStream(ctx, len)[j] < 256 {
      StreamBytes(ctx, j / 64);
    }
  }

  lemma ChaChaLimbs(key: seq<nat>, n: seq<nat>, ctr: nat, text: seq<nat>)
    requires |key| == 32 && |n| == 12 && IsLimbs(Base(8), text)
    ensures IsLimbs(Base(8), ChaCha(key, n, ctr, text))
  {
    StreamLimbs(InitState(key, n, ctr), |text|);
    Base32();
    hide XorSeq, KeyStream, InitState, Base;
    XorBytes(text, KeyStream(InitState(key, n, ctr), |text|));
  }

  /** chacha20_encrypt, which is also chacha20_decrypt; out may be text. */
  method Encrypt(len: nat, out: array<nat>, text: array<nat>, key: array<nat>, n: array<nat>, ctr: nat)
    requires key.Length == 32 && n.Length == 12 && len <= out.Length && len <= text.Length
        && IsLimbs(Base(8), Slice(text, 0, len))
    modifies out
    ensures Slice(out, 0, len) == ChaCha(old(key[..]), old(n[..]), ctr, old(Slice(text, 0, len)))
    ensures forall z: array<nat>, k: nat, m: nat {:trigger Slice(z, k, m)} ::
              old(allocated(z)) && Away(z, k, m, out, 0, len) ==> Slice(z, k, m) == old(Slice(z, k, m))
  {
    ghost var s := Slice(text, 0, len);
    assert |s| == len;
    hide InitState, XorSeq, KeyStream, IsLimbs, Base, Slice;
    var ctx := Init(key, n, ctr);
    Update(ctx, len, out, text);
  }
}
