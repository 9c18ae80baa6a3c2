/** The rounds of ChaCha20 on bit-vectors, and with them the test vectors of sections 2.1.1 and 2.3.2 of RFC 8439. */
module ChaChaVectors {
  import opened Arith
  import opened Words
  import opened Limbs
  import opened ChaCha20
  import opened MachineWords

  datatype Quarter = Quarter(a: Bits, b: Bits, c: Bits, d: Bits)

  function QuarterBits(q: Quarter): Quarter {
    var a1 := AddBits(q.a, q.b);
    var d1 := Left16(XorBits(q.d, a1));
    var c1 := AddBits(q.c, d1);
    var b1 := Left12(XorBits(q.b, c1));
    var a2 := AddBits(a1, b1);
    var d2 := Left8(XorBits(d1, a2));
    var c2 := AddBits(c1, d2);
    Quarter(a2, Left7(XorBits(b1, c2)), c2, d2)
  }

  predicate Distinct(i: nat, j: nat, k: nat, l: nat) {
    i < 16 && j < 16 && k < 16 && l < 16 && i != j && i != k && i != l && j != k && j != l && k != l
  }

  /** The values of four words put into s. */
  function Put(s: seq<nat>, i: nat, j: nat, k: nat, l: nat, q: Quarter): (r: seq<nat>)
    requires |s| == 16 && Distinct(i, j, k, l)
    ensures |r| == 16
  {
    s[i := Value(q.a)][j := Value(q.b)][k := Value(q.c)][l := Value(q.d)]
  }

  /** The quarter round of the model is the one on bit-vectors. */
  lemma QuarterValues(s: seq<nat>, i: nat, j: nat, k: nat, l: nat, q: Quarter)
    requires |s| == 16 && Distinct(i, j, k, l)
    requires s[i] == Value(q.a) && s[j] == Value(q.b) && s[k] == Value(q.c) && s[l] == Value(q.d)
    ensures QuarterRound(s, i, j, k, l) == Put(s, i, j, k, l, QuarterBits(q))
  {
    hide Value, AddBits, XorBits, Left16, Left12, Left8, Left7, Add32, Xor, Rotl;
    var a1 := AddBits(q.a, q.b);
    ValueAdd(q.a, q.b); ValueXor(q.d, a1); Value16(XorBits(q.d, a1));
    var d1 := Left16(XorBits(q.d, a1));
    var c1 := AddBits(q.c, d1);
    ValueAdd(q.c, d1); ValueXor(q.b, c1); Value12(XorBits(q.b, c1));
    var b1 := Left12(XorBits(q.b, c1));
    var a2 := AddBits(a1, b1);
    ValueAdd(a1, b1); ValueXor(d1, a2); Value8(XorBits(d1, a2));
    var d2 := Left8(XorBits(d1, a2));
    var c2 := AddBits(c1, d2);
    ValueAdd(c1, d2); ValueXor(b1, c2); Value7(XorBits(b1, c2));
  }

  /** Section 2.1.1. */
  lemma QuarterVector(rest: seq<nat>)
    requires |rest| == 12
    ensures QuarterRound([0x11111111, 0x01020304, 0x9b8d6f43, 0x01234567] + rest, 0, 1, 2, 3)
         == [0xea2a92f4, 0xcb1cf8ce, 0x4581472e, 0x5881c4bb] + rest
  {
    hide Value, QuarterBits, QuarterRound;
    var q := Quarter(Bits(0x11111111), Bits(0x01020304), Bits(0x9b8d6f43), Bits(0x01234567));
    VectorInput(); VectorOutput();
    QuarterValues([0x11111111, 0x01020304, 0x9b8d6f43, 0x01234567] + rest, 0, 1, 2, 3, q);
  }

  lemma VectorInput()
    ensures Value(Bits(0x11111111)) == 0x11111111 && Value(Bits(0x01020304)) == 0x01020304
    ensures Value(Bits(0x9b8d6f43)) == 0x9b8d6f43 && Value(Bits(0x01234567)) == 0x01234567
  {
  }

  lemma VectorOutput()
    ensures QuarterBits(Quarter(Bits(0x11111111), Bits(0x01020304), Bits(0x9b8d6f43), Bits(0x01234567)))
         == Quarter(Bits(0xea2a92f4), Bits(0xcb1cf8ce), Bits(0x4581472e), Bits(0x5881c4bb))
    ensures Value(Bits(0xea2a92f4)) == 0xea2a92f4 && Value(Bits(0xcb1cf8ce)) == 0xcb1cf8ce
    ensures Value(Bits(0x4581472e)) == 0x4581472e && Value(Bits(0x5881c4bb)) == 0x5881c4bb
  {
  }

  // ---- the block of section 2.3.2 ----

  datatype State = State(w0: Bits, w1: Bits, w2: Bits, w3: Bits, w4: Bits, w5: Bits, w6: Bits, w7: Bits,
                         w8: Bits, w9: Bits, w10: Bits, w11: Bits, w12: Bits, w13: Bits, w14: Bits, w15: Bits)

  function Values(s: State): (r: seq<nat>)
    ensures |r| == 16
  {
    [Value(s.w0), Value(s.w1), Value(s.w2), Value(s.w3), Value(s.w4), Value(s.w5), Value(s.w6), Value(s.w7),
     Value(s.w8), Value(s.w9), Value(s.w10), Value(s.w11), Value(s.w12), Value(s.w13), Value(s.w14), Value(s.w15)]
  }

  /** The quarter rounds on the columns, and on the diagonals. */
  function ColumnBits(s: State): State {
    var p, q := QuarterBits(Quarter(s.w0, s.w4, s.w8, s.w12)), QuarterBits(Quarter(s.w1, s.w5, s.w9, s.w13));
    var r, t := QuarterBits(Quarter(s.w2, s.w6, s.w10, s.w14)), QuarterBits(Quarter(s.w3, s.w7, s.w11, s.w15));
    State(p.a, q.a, r.a, t.a, p.b, q.b, r.b, t.b, p.c, q.c, r.c, t.c, p.d, q.d, r.d, t.d)
  }

  function DiagonalBits(s: State): State {
    var p, q := QuarterBits(Quarter(s.w0, s.w5, s.w10, s.w15)), QuarterBits(Quarter(s.w1, s.w6, s.w11, s.w12));
    var r, t := QuarterBits(Quarter(s.w2, s.w7, s.w8, s.w13)), QuarterBits(Quarter(s.w3, s.w4, s.w9, s.w14));
    State(p.a, q.a, r.a, t.a, t.b, p.b, q.b, r.b, r.c, t.c, p.c, q.c, q.d, r.d, t.d, p.d)
  }

  function DoubleBits(s: State): State {
    DiagonalBits(ColumnBits(s))
  }

  lemma ColumnValues(s: State)
    ensures Columns(Values(s)) == Values(ColumnBits(s))
  {
    hide Value, QuarterBits, QuarterRound;
    var p, q := Quarter(s.w0, s.w4, s.w8, s.w12), Quarter(s.w1, s.w5, s.w9, s.w13);
    var r, t := Quarter(s.w2, s.w6, s.w10, s.w14), Quarter(s.w3, s.w7, s.w11, s.w15);
    var s0 := Values(s);
    QuarterValues(s0, 0, 4, 8, 12, p);
    var s1 := QuarterRound(s0, 0, 4, 8, 12);
    QuarterValues(s1, 1, 5, 9, 13, q);
    var s2 := QuarterRound(s1, 1, 5, 9, 13);
    QuarterValues(s2, 2, 6, 10, 14, r);
    var s3 := QuarterRound(s2, 2, 6, 10, 14);
    QuarterValues(s3, 3, 7, 11, 15, t);
  }

  function SlantBits(s: State): State {
    State(s.w0, s.w1, s.w2, s.w3, s.w5, s.w6, s.w7, s.w4, s.w10, s.w11, s.w8, s.w9, s.w15, s.w12, s.w13, s.w14)
  }

  lemma SlantInjective(s: seq<nat>, t: seq<nat>)
    requires |s| == |t| == 16 && Slant(s) == Slant(t)
    ensures s == t
  {
    hide Slant;
    SlantList(s); SlantList(t);
    var u := Slant(s);
    assert s == [u[0], u[1], u[2], u[3], u[7], u[4], u[5], u[6], u[10], u[11], u[8], u[9], u[13], u[14], u[15], u[12]];
    assert t == [u[0], u[1], u[2], u[3], u[7], u[4], u[5], u[6], u[10], u[11], u[8], u[9], u[13], u[14], u[15], u[12]];
  }

  lemma SlantValues(s: State)
    ensures Slant(Values(s)) == Values(SlantBits(s))
  {
    hide Value, Slant;
    SlantList(Values(s));
  }

  lemma SlantDiagonals(s: State)
    ensures SlantBits(DiagonalBits(s)) == ColumnBits(SlantBits(s))
  {
    hide QuarterBits;
  }

  lemma DoubleValues(s: State)
    ensures DoubleRound(Values(s)) == Values(DoubleBits(s))
  {
    hide Values, ColumnBits, DiagonalBits, SlantBits, DoubleRound, Columns, Slant;
    var c := ColumnBits(s);
    DoubleRoundSlants(Values(s));
    ColumnValues(s);
    SlantValues(c); SlantValues(DiagonalBits(c));
    SlantDiagonals(c);
    ColumnValues(SlantBits(c));
    SlantInjective(DoubleRound(Values(s)), Values(DiagonalBits(c)));
  }

  // the state of the example after each double round

  function After0(): State {
    State(Bits(0x61707865), Bits(0x3320646e), Bits(0x79622d32), Bits(0x6b206574),
          Bits(0x03020100), Bits(0x07060504), Bits(0x0b0a0908), Bits(0x0f0e0d0c),
          Bits(0x13121110), Bits(0x17161514), Bits(0x1b1a1918), Bits(0x1f1e1d1c),
          Bits(0x00000001), Bits(0x09000000), Bits(0x4a000000), Bits(0x00000000))
  }

  function After1(): State {
    State(Bits(0xcd52e917), Bits(0x85ab03b4), Bits(0xb3457395), Bits(0xf96de7dd),
          Bits(0xc4b7cd22), Bits(0x5c2e187a), Bits(0xc95eb461), Bits(0x316c801a),
          Bits(0x7bf7d740), Bits(0x7eddd644), Bits(0xf1a1bdf5), Bits(0x761246ca),
          Bits(0x6b0d58a3), Bits(0x6798471a), Bits(0xd737f167), Bits(0xf173888d))
  }

  function After2(): State {
    State(Bits(0xcf1a7584), Bits(0x048927ec), Bits(0x54051fda), Bits(0xc244ff28),
          Bits(0x901d2f40), Bits(0x7974b81c), Bits(0x378dcfb4), Bits(0xcd47fd0e),
          Bits(0x2dafb216), Bits(0x27c89cd6), Bits(0xcd3c9aa0), Bits(0x79fc89c7),
          Bits(0x10aef18d), Bits(0x16218765), Bits(0x68f76705), Bits(0x04d6ee22))
  }

  function After3(): State {
    State(Bits(0x03a14032), Bits(0x66b15927), Bits(0x9d6b6b42), Bits(0xb84c4109),
          Bits(0xa7143ae0), Bits(0xa09b33dd), Bits(0xa5daaf88), Bits(0x2fd91a73),
          Bits(0xc90c6b18), Bits(0x5a202413), Bits(0xc20e01b6), Bits(0x72cd6b74),
          Bits(0xba35d777), Bits(0xb360f1bf), Bits(0x8178315b), Bits(0x2cd11b1a))
  }

  function After4(): State {
    State(Bits(0x9a2d3589), Bits(0x0b23fc4e), Bits(0x40af3b6b), Bits(0xceea8144),
          Bits(0x0a1bffc6), Bits(0x5e5993f7), Bits(0x9904c2e7), Bits(0x0d334718),
          Bits(0xe46c6354), Bits(0xc9503229), Bits(0x04fef5aa), Bits(0xf8933f72),
          Bits(0x2687d476), Bits(0x54e65231), Bits(0x3594ffc5), Bits(0x2b3bb2ca))
  }

  function After5(): State {
    State(Bits(0xc53318c5), Bits(0xca325d96), Bits(0x7e7d11cb), Bits(0x3404e2ca),
          Bits(0x26d7cf73), Bits(0x6088d379), Bits(0xc0f0e9bd), Bits(0xe310cdb9),
          Bits(0xae2ca8db), Bits(0x42f67c72), Bits(0x71669aca), Bits(0x975c171d),
          Bits(0x9e5ec228), Bits(0x7d85a9f3), Bits(0x201d0756), Bits(0x63fa6953))
  }

  function After6(): State {
    State(Bits(0x04a3131a), Bits(0x66176309), Bits(0x0415bab1), Bits(0x61b880a2),
          Bits(0x36cc86c7), Bits(0xbf8a4465), Bits(0xf77dd720), Bits(0xfc0bdc90),
          Bits(0x07d13aca), Bits(0xeb0be9af), Bits(0x61599491), Bits(0x918512dc),
          Bits(0x33b6686d), Bits(0x795cc671), Bits(0xc0049972), Bits(0xa0a81bde))
  }

  function After7(): State {
    State(Bits(0x9b70f51f), Bits(0x7ea8ac11), Bits(0x21e54da9), Bits(0xca393b2f),
          Bits(0x93b08686), Bits(0x6a4c50ae), Bits(0x19212a5a), Bits(0x9b032958),
          Bits(0xd839165e), Bits(0x4c06e28a), Bits(0xd3fde99e), Bits(0x26acc13d),
          Bits(0xa609f555), Bits(0x2c246549), Bits(0x95151853), Bits(0x2c847a0d))
  }

  function After8(): State {
    State(Bits(0xca5c85dd), Bits(0x93a4f90e), Bits(0xd9f0df58), Bits(0x26dd82dd),
          Bits(0x982563f8), Bits(0x712aa9ff), Bits(0x279a61e8), Bits(0x970f72bd),
          Bits(0x1c25931a), Bits(0x5180bb10), Bits(0x779c27e7), Bits(0x54077e08),
          Bits(0xa9b751fb), Bits(0x382f3ce2), Bits(0x8db1757d), Bits(0xcc38080b))
  }

  function After9(): State {
    State(Bits(0xb6b87de6), Bits(0x9a016148), Bits(0x93859815), Bits(0x4915e6cc),
          Bits(0xdc33c122), Bits(0x98e18fa3), Bits(0x5ffbe8fc), Bits(0xf7154b8b),
          Bits(0x28c1fcb3), Bits(0xc4b38f9d), Bits(0x83e2f5d7), Bits(0x7d24b98b),
          Bits(0x21078b22), Bits(0xb193e7a3), Bits(0xb2f49389), Bits(0x6cde6026))
  }

  function After10(): State {
    State(Bits(0x837778ab), Bits(0xe238d763), Bits(0xa67ae21e), Bits(0x5950bb2f),
          Bits(0xc4f2d0c7), Bits(0xfc62bb2f), Bits(0x8fa018fc), Bits(0x3f5ec7b7),
          Bits(0x335271c2), Bits(0xf29489f3), Bits(0xeabda8fc), Bits(0x82e46ebd),
          Bits(0xd19c12b4), Bits(0xb04e16de), Bits(0x9e83d0cb), Bits(0x4e3c50a2))
  }

  lemma Step0()
    ensures DoubleBits(After0()) == After1()
  {
  }

  lemma Step1()
    ensures DoubleBits(After1()) == After2()
  {
  }

  lemma Step2()
    ensures DoubleBits(After2()) == After3()
  {
  }

  lemma Step3()
    ensures DoubleBits(After3()) == After4()
  {
  }

  lemma Step4()
    ensures DoubleBits(After4()) == After5()
  {
  }

  lemma Step5()
    ensures DoubleBits(After5()) == After6()
  {
  }

  lemma Step6()
    ensures DoubleBits(After6()) == After7()
  {
  }

  lemma Step7()
    ensures DoubleBits(After7()) == After8()
  {
  }

  lemma Step8()
    ensures DoubleBits(After8()) == After9()
  {
  }

  lemma Step9()
    ensures DoubleBits(After9()) == After10()
  {
  }

  lemma TenRounds()
    ensures Rounds(Values(After0()), 10) == Values(After10())
  {
    hide Values, DoubleBits, DoubleRound, After0, After1, After2, After3, After4, After5, After6, After7, After8,
        After9,
      After10;
    var x := Values(After0());
    Step0(); DoubleValues(After0()); Step1(); DoubleValues(After1());
    Step2(); DoubleValues(After2()); Step3(); DoubleValues(After3());
    Step4(); DoubleValues(After4()); Step5(); DoubleValues(After5());
    Step6(); DoubleValues(After6()); Step7(); DoubleValues(After7());
    Step8(); DoubleValues(After8()); Step9(); DoubleValues(After9());
    assert Rounds(x, 2) == Values(After2());
    assert Rounds(x, 4) == Values(After4());
    assert Rounds(x, 6) == Values(After6());
    assert Rounds(x, 8) == Values(After8());
  }

  lemma First0()
    ensures Value(Bits(0x61707865)) == 0x61707865 && Value(Bits(0x3320646e)) == 0x3320646e
  {
  }

  lemma First1()
    ensures Value(Bits(0x79622d32)) == 0x79622d32 && Value(Bits(0x6b206574)) == 0x6b206574
  {
  }

  lemma First2()
    ensures Value(Bits(0x03020100)) == 0x03020100 && Value(Bits(0x07060504)) == 0x07060504
  {
  }

  lemma First3()
    ensures Value(Bits(0x0b0a0908)) == 0x0b0a0908 && Value(Bits(0x0f0e0d0c)) == 0x0f0e0d0c
  {
  }

  lemma First4()
    ensures Value(Bits(0x13121110)) == 0x13121110 && Value(Bits(0x17161514)) == 0x17161514
  {
  }

  lemma First5()
    ensures Value(Bits(0x1b1a1918)) == 0x1b1a1918 && Value(Bits(0x1f1e1d1c)) == 0x1f1e1d1c
  {
  }

  lemma First6()
    ensures Value(Bits(0x00000001)) == 0x00000001 && Value(Bits(0x09000000)) == 0x09000000
  {
  }

  lemma First7()
    ensures Value(Bits(0x4a000000)) == 0x4a000000 && Value(Bits(0x00000000)) == 0x00000000
  {
  }

  lemma Last0()
    ensures Value(Bits(0x837778ab)) == 0x837778ab && Value(Bits(0xe238d763)) == 0xe238d763
  {
  }

  lemma Last1()
    ensures Value(Bits(0xa67ae21e)) == 0xa67ae21e && Value(Bits(0x5950bb2f)) == 0x5950bb2f
  {
  }

  lemma Last2()
    ensures Value(Bits(0xc4f2d0c7)) == 0xc4f2d0c7 && Value(Bits(0xfc62bb2f)) == 0xfc62bb2f
  {
  }

  lemma Last3()
    ensures Value(Bits(0x8fa018fc)) == 0x8fa018fc && Value(Bits(0x3f5ec7b7)) == 0x3f5ec7b7
  {
  }

  lemma Last4()
    ensures Value(Bits(0x335271c2)) == 0x335271c2 && Value(Bits(0xf29489f3)) == 0xf29489f3
  {
  }

  lemma Last5()
    ensures Value(Bits(0xeabda8fc)) == 0xeabda8fc && Value(Bits(0x82e46ebd)) == 0x82e46ebd
  {
  }

  lemma Last6()
    ensures Value(Bits(0xd19c12b4)) == 0xd19c12b4 && Value(Bits(0xb04e16de)) == 0xb04e16de
  {
  }

  lemma Last7()
    ensures Value(Bits(0x9e83d0cb)) == 0x9e83d0cb && Value(Bits(0x4e3c50a2)) == 0x4e3c50a2
  {
  }

  lemma FirstValues()
    ensures Values(After0()) == [0x61707865, 0x3320646e, 0x79622d32, 0x6b206574,
                                 0x03020100, 0x07060504, 0x0b0a0908, 0x0f0e0d0c,
                                 0x13121110, 0x17161514, 0x1b1a1918, 0x1f1e1d1c,
                                 0x00000001, 0x09000000, 0x4a000000, 0x00000000]
  {
    hide Value;
    First0(); First1(); First2(); First3(); First4(); First5(); First6(); First7();
  }

  lemma LastValues()
    ensures Values(After10()) == [0x837778ab, 0xe238d763, 0xa67ae21e, 0x5950bb2f,
                                  0xc4f2d0c7, 0xfc62bb2f, 0x8fa018fc, 0x3f5ec7b7,
                                  0x335271c2, 0xf29489f3, 0xeabda8fc, 0x82e46ebd,
                                  0xd19c12b4, 0xb04e16de, 0x9e83d0cb, 0x4e3c50a2]
  {
    hide Value;
    Last0(); Last1(); Last2(); Last3(); Last4(); Last5(); Last6(); Last7();
  }

  lemma FourBytes(q: seq<nat>)
    requires |q| == 4
    ensures Eval(Base(8), q) == q[0] + 0x100 * q[1] + 0x10000 * q[2] + 0x1000000 * q[3]
  {
    Base32();
    var t := q[2..];
    assert q[1..][1..] == t && t[1..] == [q[3]];
    hide Base;
    EvalOne(256, q[3]);
    assert Eval(256, t) == q[2] + 256 * Eval(256, t[1..]);
    assert Eval(256, q[1..]) == q[1] + 256 * Eval(256, q[1..][1..]);
  }

  ghost predicate Example(key: seq<nat>, n: seq<nat>) {
    && |key| == 32 && (forall i :: 0 <= i < 32 ==> key[i] == i)
    && n == [0, 0, 0, 9, 0, 0, 0, 0x4a, 0, 0, 0, 0]
  }

  lemma ExampleKey(key: seq<nat>, n: seq<nat>, i: nat)
    requires Example(key, n) && i < 8
    ensures Eval(Base(8), Quad(key, i)) == 0x03020100 + 0x04040404 * i
  {
    hide Eval, Base;
    FourBytes(Quad(key, i));
  }

  lemma ExampleNonce(key: seq<nat>, n: seq<nat>)
    requires Example(key, n)
    ensures Eval(Base(8), Quad(n, 0)) == 0x09000000 && Eval(Base(8), Quad(n, 1)) == 0x4a000000
    ensures Eval(Base(8), Quad(n, 2)) == 0
  {
    hide Eval, Base;
    FourBytes(Quad(n, 0)); FourBytes(Quad(n, 1)); FourBytes(Quad(n, 2));
  }

  lemma ExampleState(key: seq<nat>, n: seq<nat>)
    requires Example(key, n)
    ensures InitState(key, n, 1) == Values(After0())
  {
    hide Eval, Base, Values, After0, Quad;
    FirstValues();
    ExampleKey(key, n, 0); ExampleKey(key, n, 1); ExampleKey(key, n, 2); ExampleKey(key, n, 3);
    ExampleKey(key, n, 4); ExampleKey(key, n, 5); ExampleKey(key, n, 6); ExampleKey(key, n, 7);
    ExampleNonce(key, n);
  }

  /** The block function of section 2.3.2, from the bytes of key and nonce. */
  lemma BlockVector(key: seq<nat>, n: seq<nat>)
    requires Example(key, n)
    ensures RfcBlock(InitState(key, n, 1)) == [0xe4e7f110, 0x15593bd1, 0x1fdd0f50, 0xc47120a3,
                                               0xc7f4d1c7, 0x0368c033, 0x9aaa2204, 0x4e6cd4c3,
                                               0x466482d2, 0x09aa9f07, 0x05d7c214, 0xa2028bd9,
                                               0xd19c12b5, 0xb94e16de, 0xe883d0cb, 0x4e3c50a2]
  {
    hide InitState, Values, After0, After10, Rounds;
    ExampleState(key, n);
    FirstValues(); LastValues();
    TenRounds();
  }

  /** Block number 1 of the key stream, serialised. */
  lemma StreamVector(key: seq<nat>, n: seq<nat>)
    requires Example(key, n)
    ensures BlockBytes(InitState(key, n, 0), 1)[..8] == [0x10, 0xf1, 0xe7, 0xe4, 0xd1, 0x3b, 0x59, 0x15]
  {
    hide RfcBlock;
    BlockVector(key, n);
    assert AtCounter(InitState(key, n, 0), 1) == InitState(key, n, 1);
    hide InitState, AtCounter;
  }
}
