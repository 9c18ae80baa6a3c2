/**
 * The operations on 32-bit words that the model defines on numbers are the operators of the built-in bit-vectors.
 * The two are connected digit by digit, a word being eight hexadecimal digits.
 */
module MachineWords {
  import opened Arith
  import opened Words
  import opened ChaCha20

  // ---- digits ----

  /** A hexadecimal digit. */
  datatype Digit = Digit(d: bv4)

  function Num(x: Digit): (r: nat)
    ensures r < 16
  {
    x.d as nat
  }

  function XorDigit(x: Digit, y: Digit): Digit {
    Digit(x.d ^ y.d)
  }

  function BitZero(x: bv4): (r: nat)
    ensures r < 2
  {
    if x & 1 == 1 then 1 else 0
  }

  lemma BitsOf(x: bv4)
    ensures Num(Digit(x)) == Four(2, BitZero(x), BitZero(x >> 1), BitZero(x >> 2), BitZero(x >> 3))
  {
  }

  lemma XorOfBits(x: bv4, y: bv4)
    ensures Xor(BitZero(x), BitZero(y)) == BitZero(x ^ y)
    ensures Xor(BitZero(x >> 1), BitZero(y >> 1)) == BitZero((x ^ y) >> 1)
    ensures Xor(BitZero(x >> 2), BitZero(y >> 2)) == BitZero((x ^ y) >> 2)
    ensures Xor(BitZero(x >> 3), BitZero(y >> 3)) == BitZero((x ^ y) >> 3)
  {
    assert Xor(0, 0) == Xor(1, 1) == 0 && Xor(0, 1) == Xor(1, 0) == 1;
    hide Xor;
  }

  lemma XorPart(k: nat, b: nat, x0: nat, x: nat, y0: nat, y: nat)
    requires b == Base(k) && x0 < b && y0 < b
    ensures Xor(x0 + b * x, y0 + b * y) == Xor(x0, y0) + b * Xor(x, y)
  {
    hide Base, Xor;
    XorSplit(k, x0, x, y0, y);
  }

  lemma SmallBases()
    ensures Base(1) == 2 && Base(4) == 16 && Base(16) == 0x10000
  {
  }

  /** Four digits to the base b, lowest first. */
  function Four(b: nat, x0: nat, x1: nat, x2: nat, x3: nat): nat {
    x0 + b * (x1 + b * (x2 + b * x3))
  }

  lemma XorFour(k: nat, b: nat, x0: nat, x1: nat, x2: nat, x3: nat, y0: nat, y1: nat, y2: nat, y3: nat)
    requires b == Base(k) && x0 < b && x1 < b && x2 < b && y0 < b && y1 < b && y2 < b
    ensures Xor(Four(b, x0, x1, x2, x3), Four(b, y0, y1, y2, y3))
         == Four(b, Xor(x0, y0), Xor(x1, y1), Xor(x2, y2), Xor(x3, y3))
  {
    hide Xor, Base;
    XorPart(k, b, x2, x3, y2, y3);
    XorPart(k, b, x1, x2 + b * x3, y1, y2 + b * y3);
    XorPart(k, b, x0, x1 + b * (x2 + b * x3), y0, y1 + b * (y2 + b * y3));
  }

  lemma XorNum(x: Digit, y: Digit)
    ensures Xor(Num(x), Num(y)) == Num(XorDigit(x, y))
  {
    hide Xor, BitZero, Num, Four, Base;
    SmallBases();
    BitsOf(x.d); BitsOf(y.d); BitsOf(x.d ^ y.d);
    XorOfBits(x.d, y.d);
    XorFour(1, 2, BitZero(x.d), BitZero(x.d >> 1), BitZero(x.d >> 2), BitZero(x.d >> 3),
            BitZero(y.d), BitZero(y.d >> 1), BitZero(y.d >> 2), BitZero(y.d >> 3));
  }

  /** A digit of a sum and the carry out of it. */
  function Plus(x: Digit, y: Digit, c: bool): Digit {
    Digit(x.d + y.d + if c then 1 else 0)
  }

  function Out(x: Digit, y: Digit, c: bool): bool {
    Plus(x, y, c).d < x.d || (c && Plus(x, y, c) == x)
  }

  lemma PlusNum(x: Digit, y: Digit, c: bool, d: bool)
    requires d == Out(x, y, c)
    ensures Num(x) + Num(y) + Bit(c) == Num(Plus(x, y, c)) + 16 * Bit(d)
  {
  }

  /** A digit turned to the right by one bit, y being the digit before it. */
  function Turn(x: Digit, y: Digit): Digit {
    Digit((x.d >> 1) | (y.d << 3))
  }

  function TurnOf(x: nat, y: nat): nat {
    x / 2 + 8 * (y % 2)
  }

  lemma TurnNum(x: Digit, y: Digit)
    ensures Num(Turn(x, y)) == TurnOf(Num(x), Num(y))
  {
  }

  // ---- words ----

  datatype Word = Word(n0: Digit, n1: Digit, n2: Digit, n3: Digit, n4: Digit, n5: Digit, n6: Digit, n7: Digit)

  function Digits(x0: nat, x1: nat, x2: nat, x3: nat, x4: nat, x5: nat, x6: nat, x7: nat): nat {
    Four(16, x0, x1, x2, x3) + 0x10000 * Four(16, x4, x5, x6, x7)
  }

  lemma FourBound(x0: nat, x1: nat, x2: nat, x3: nat)
    requires x0 < 16 && x1 < 16 && x2 < 16 && x3 < 16
    ensures Four(16, x0, x1, x2, x3) < 0x10000
  {
  }

  function Number(w: Word): nat {
    Digits(Num(w.n0), Num(w.n1), Num(w.n2), Num(w.n3), Num(w.n4), Num(w.n5), Num(w.n6), Num(w.n7))
  }

  lemma WordOf(w: Word)
    ensures Number(w) == Digits(Num(w.n0), Num(w.n1), Num(w.n2), Num(w.n3), Num(w.n4), Num(w.n5), Num(w.n6), Num(w.n7))
  {
  }

  /** A machine word. */
  datatype Bits = Bits(w: bv32)

  /** The four bits from bit k on. */
  function BitsAt(x: Bits, k: bv5): Digit {
    Digit(((x.w >> k) & 0xf) as bv4)
  }

  /** The digits of a machine word. */
  function Hex(x: Bits): Word {
    Word(BitsAt(x, 0), BitsAt(x, 4), BitsAt(x, 8), BitsAt(x, 12), BitsAt(x, 16), BitsAt(x, 20), BitsAt(x, 24),
         BitsAt(x, 28))
  }

  function XorWord(x: Word, y: Word): Word {
    Word(XorDigit(x.n0, y.n0), XorDigit(x.n1, y.n1), XorDigit(x.n2, y.n2), XorDigit(x.n3, y.n3), XorDigit(x.n4, y.n4),
         XorDigit(x.n5, y.n5), XorDigit(x.n6, y.n6), XorDigit(x.n7, y.n7))
  }

  lemma XorDigits(x0: nat, x1: nat, x2: nat, x3: nat, x4: nat, x5: nat, x6: nat, x7: nat, y0: nat, y1: nat, y2: nat,
                  y3: nat, y4: nat, y5: nat, y6: nat, y7: nat)
    requires x0 < 16 && y0 < 16 && x1 < 16 && y1 < 16 && x2 < 16 && y2 < 16 && x3 < 16 && y3 < 16 && x4 < 16 && y4 < 16
        && x5 < 16 && y5 < 16 && x6 < 16 && y6 < 16
    ensures Xor(Digits(x0, x1, x2, x3, x4, x5, x6, x7), Digits(y0, y1, y2, y3, y4, y5, y6, y7))
         == Digits(Xor(x0, y0), Xor(x1, y1), Xor(x2, y2), Xor(x3, y3), Xor(x4, y4), Xor(x5, y5), Xor(x6, y6),
                   Xor(x7, y7))
  {
    hide Xor, Base, Four;
    SmallBases();
    XorFour(4, 16, x0, x1, x2, x3, y0, y1, y2, y3);
    XorFour(4, 16, x4, x5, x6, x7, y4, y5, y6, y7);
    FourBound(x0, x1, x2, x3); FourBound(y0, y1, y2, y3);
    XorPart(16, 0x10000, Four(16, x0, x1, x2, x3), Four(16, x4, x5, x6, x7), Four(16, y0, y1, y2, y3),
            Four(16, y4, y5, y6, y7));
  }

  lemma XorOf(x: Word, y: Word)
    ensures Number(XorWord(x, y)) == Digits(Num(XorDigit(x.n0, y.n0)), Num(XorDigit(x.n1, y.n1)),
                                        Num(XorDigit(x.n2, y.n2)), Num(XorDigit(x.n3, y.n3)),
                                        Num(XorDigit(x.n4, y.n4)), Num(XorDigit(x.n5, y.n5)), Num(XorDigit(x.n6, y.n6)),
                                            Num(XorDigit(x.n7, y.n7)))
  {
    hide Num, Digits, XorDigit;
  }

  lemma XorNumber(x: Word, y: Word)
    ensures Number(XorWord(x, y)) == Xor(Number(x), Number(y))
  {
    hide Xor, Num, Digits, Number, XorWord, XorDigit;
    WordOf(x); WordOf(y); XorOf(x, y);
    XorNum(x.n0, y.n0); XorNum(x.n1, y.n1); XorNum(x.n2, y.n2); XorNum(x.n3, y.n3); XorNum(x.n4, y.n4);
    XorNum(x.n5, y.n5); XorNum(x.n6, y.n6); XorNum(x.n7, y.n7);
    XorDigits(Num(x.n0), Num(x.n1), Num(x.n2), Num(x.n3), Num(x.n4), Num(x.n5), Num(x.n6), Num(x.n7),
              Num(y.n0), Num(y.n1), Num(y.n2), Num(y.n3), Num(y.n4), Num(y.n5), Num(y.n6), Num(y.n7));
  }

  function AddWord(x: Word, y: Word): Word {
    var c1 := Out(x.n0, y.n0, false);
    var c2 := Out(x.n1, y.n1, c1);
    var c3 := Out(x.n2, y.n2, c2);
    var c4 := Out(x.n3, y.n3, c3);
    var c5 := Out(x.n4, y.n4, c4);
    var c6 := Out(x.n5, y.n5, c5);
    var c7 := Out(x.n6, y.n6, c6);
    Word(Plus(x.n0, y.n0, false), Plus(x.n1, y.n1, c1), Plus(x.n2, y.n2, c2), Plus(x.n3, y.n3, c3),
         Plus(x.n4, y.n4, c4), Plus(x.n5, y.n5, c5), Plus(x.n6, y.n6, c6), Plus(x.n7, y.n7, c7))
  }

  lemma AddFour(x0: nat, x1: nat, x2: nat, x3: nat, y0: nat, y1: nat, y2: nat, y3: nat, s0: nat, s1: nat, s2: nat,
                s3: nat, c0: nat, c1: nat, c2: nat, c3: nat, c4: nat)
    requires x0 + y0 + c0 == s0 + 16 * c1 && x1 + y1 + c1 == s1 + 16 * c2 && x2 + y2 + c2 == s2 + 16 * c3
        && x3 + y3 + c3 == s3 + 16 * c4
    ensures Four(16, x0, x1, x2, x3) + Four(16, y0, y1, y2, y3) + c0 == Four(16, s0, s1, s2, s3) + 0x10000 * c4
  {
  }

  function FourNum(x0: Digit, x1: Digit, x2: Digit, x3: Digit): (r: nat)
    ensures r < 0x10000
  {
    FourBound(Num(x0), Num(x1), Num(x2), Num(x3));
    Four(16, Num(x0), Num(x1), Num(x2), Num(x3))
  }

  /** Half a word of a sum. */
  lemma HalfSum(x0: Digit, x1: Digit, x2: Digit, x3: Digit, y0: Digit, y1: Digit, y2: Digit, y3: Digit, c0: bool,
                c1: bool, c2: bool,
                c3: bool, c4: bool)
    requires c1 == Out(x0, y0, c0) && c2 == Out(x1, y1, c1) && c3 == Out(x2, y2, c2) && c4 == Out(x3, y3, c3)
    ensures FourNum(x0, x1, x2, x3) + FourNum(y0, y1, y2, y3) + Bit(c0)
         == FourNum(Plus(x0, y0, c0), Plus(x1, y1, c1), Plus(x2, y2, c2), Plus(x3, y3, c3)) + 0x10000 * Bit(c4)
  {
    hide Num, Plus, Out, Bit, Four;
    PlusNum(x0, y0, c0, c1); PlusNum(x1, y1, c1, c2); PlusNum(x2, y2, c2, c3); PlusNum(x3, y3, c3, c4);
    AddFour(Num(x0), Num(x1), Num(x2), Num(x3), Num(y0), Num(y1), Num(y2), Num(y3), Num(Plus(x0, y0, c0)),
            Num(Plus(x1, y1, c1)), Num(Plus(x2, y2, c2)), Num(Plus(x3, y3, c3)), Bit(c0), Bit(c1), Bit(c2), Bit(c3),
            Bit(c4));
  }

  lemma Halves(w: Word)
    ensures Number(w) == FourNum(w.n0, w.n1, w.n2, w.n3) + 0x10000 * FourNum(w.n4, w.n5, w.n6, w.n7)
  {
    hide Num, Four;
  }

  lemma AddNumber(x: Word, y: Word)
    ensures Number(AddWord(x, y)) == Add32(Number(x), Number(y))
  {
    hide Num, Plus, Out, FourNum, Number;
    var s := AddWord(x, y);
    var c1 := Out(x.n0, y.n0, false);
    var c2 := Out(x.n1, y.n1, c1);
    var c3 := Out(x.n2, y.n2, c2);
    var c4 := Out(x.n3, y.n3, c3);
    var c5 := Out(x.n4, y.n4, c4);
    var c6 := Out(x.n5, y.n5, c5);
    var c7 := Out(x.n6, y.n6, c6);
    HalfSum(x.n0, x.n1, x.n2, x.n3, y.n0, y.n1, y.n2, y.n3, false, c1, c2, c3, c4);
    HalfSum(x.n4, x.n5, x.n6, x.n7, y.n4, y.n5, y.n6, y.n7, c4, c5, c6, c7, Out(x.n7, y.n7, c7));
    Halves(x); Halves(y); Halves(s);
  }

  // ---- rotations ----

  lemma ShiftParts(b: nat, h: nat, lo: nat, hi: nat)
    requires b * h == 0x1_0000_0000 && lo < h && hi < b
    ensures (lo + h * hi) * b % 0x1_0000_0000 == lo * b && (lo + h * hi) / h == hi
  {
    DivModUnique(lo + h * hi, h, hi, lo);
    MulLt(lo, h, b);
    assert (lo + h * hi) * b == hi * 0x1_0000_0000 + lo * b by { MulDistrib(b, lo, h * hi); MulAssoc(b, h, hi); }
    DivModUnique((lo + h * hi) * b, 0x1_0000_0000, hi, lo * b);
  }

  lemma RotlParts(n: nat, b: nat, h: nat, lo: nat, hi: nat)
    requires n <= 32 && b == Base(n) && h == Base(32 - n) && lo < h && hi < b
    ensures Rotl(lo + h * hi, n) == hi + b * lo
  {
    Base32();
    BaseSplit(32, n);
    hide Base, Or;
    ShiftParts(b, h, lo, hi);
    OrDisjoint(n, hi, lo);
    BitSym(hi, lo * b);
  }

  lemma Bases()
    ensures Base(7) == 0x80 && Base(8) == 0x100 && Base(12) == 0x1000 && Base(16) == 0x10000
    ensures Base(20) == 0x100000 && Base(24) == 0x1000000 && Base(25) == 0x2000000
  {
  }

  function Turn16(w: Word): Word {
    Word(w.n4, w.n5, w.n6, w.n7, w.n0, w.n1, w.n2, w.n3)
  }

  function Turn12(w: Word): Word {
    Word(w.n5, w.n6, w.n7, w.n0, w.n1, w.n2, w.n3, w.n4)
  }

  function Turn8(w: Word): Word {
    Word(w.n6, w.n7, w.n0, w.n1, w.n2, w.n3, w.n4, w.n5)
  }

  function Turn7(w: Word): Word {
    Word(Turn(w.n6, w.n7), Turn(w.n7, w.n0), Turn(w.n0, w.n1), Turn(w.n1, w.n2), Turn(w.n2, w.n3), Turn(w.n3, w.n4),
         Turn(w.n4, w.n5), Turn(w.n5, w.n6))
  }

  lemma TurnSixteenDigits(x0: nat, x1: nat, x2: nat, x3: nat, x4: nat, x5: nat, x6: nat, x7: nat)
    requires x0 < 16 && x1 < 16 && x2 < 16 && x3 < 16 && x4 < 16 && x5 < 16 && x6 < 16 && x7 < 16
    ensures Rotl(Digits(x0, x1, x2, x3, x4, x5, x6, x7), 16) == Digits(x4, x5, x6, x7, x0, x1, x2, x3)
  {
    hide Rotl, Base;
    Bases();
    RotlParts(16, 0x10000, 0x10000, Four(16, x0, x1, x2, x3), Four(16, x4, x5, x6, x7));
  }

  lemma TurnSixteen(w: Word)
    ensures Number(Turn16(w)) == Rotl(Number(w), 16)
  {
    hide Num, Rotl, Digits, Number;
    WordOf(w); WordOf(Turn16(w));
    TurnSixteenDigits(Num(w.n0), Num(w.n1), Num(w.n2), Num(w.n3), Num(w.n4), Num(w.n5), Num(w.n6), Num(w.n7));
  }

  lemma TurnTwelveDigits(x0: nat, x1: nat, x2: nat, x3: nat, x4: nat, x5: nat, x6: nat, x7: nat)
    requires x0 < 16 && x1 < 16 && x2 < 16 && x3 < 16 && x4 < 16 && x5 < 16 && x6 < 16 && x7 < 16
    ensures Rotl(Digits(x0, x1, x2, x3, x4, x5, x6, x7), 12) == Digits(x5, x6, x7, x0, x1, x2, x3, x4)
  {
    hide Rotl, Base;
    Bases();
    RotlParts(12, 0x1000, 0x100000, Four(16, x0, x1, x2, x3) + 0x10000 * x4, x5 + 0x10 * x6 + 0x100 * x7);
  }

  lemma TurnTwelve(w: Word)
    ensures Number(Turn12(w)) == Rotl(Number(w), 12)
  {
    hide Num, Rotl, Digits, Number;
    WordOf(w); WordOf(Turn12(w));
    TurnTwelveDigits(Num(w.n0), Num(w.n1), Num(w.n2), Num(w.n3), Num(w.n4), Num(w.n5), Num(w.n6), Num(w.n7));
  }

  lemma TurnEightDigits(x0: nat, x1: nat, x2: nat, x3: nat, x4: nat, x5: nat, x6: nat, x7: nat)
    requires x0 < 16 && x1 < 16 && x2 < 16 && x3 < 16 && x4 < 16 && x5 < 16 && x6 < 16 && x7 < 16
    ensures Rotl(Digits(x0, x1, x2, x3, x4, x5, x6, x7), 8) == Digits(x6, x7, x0, x1, x2, x3, x4, x5)
  {
    hide Rotl, Base;
    Bases();
    RotlParts(8, 0x100, 0x1000000, Four(16, x0, x1, x2, x3) + 0x10000 * x4 + 0x100000 * x5, x6 + 0x10 * x7);
  }

  lemma TurnEight(w: Word)
    ensures Number(Turn8(w)) == Rotl(Number(w), 8)
  {
    hide Num, Rotl, Digits, Number;
    WordOf(w); WordOf(Turn8(w));
    TurnEightDigits(Num(w.n0), Num(w.n1), Num(w.n2), Num(w.n3), Num(w.n4), Num(w.n5), Num(w.n6), Num(w.n7));
  }

  lemma TurnSevenHalves(x0: nat, x1: nat, x2: nat, x3: nat, x4: nat, x5: nat, x6: nat, x7: nat)
    requires x0 < 16 && x1 < 16 && x2 < 16 && x3 < 16 && x4 < 16 && x5 < 16 && x6 < 16 && x7 < 16
    ensures Rotl(Digits(x0, x1, x2, x3, x4, x5, x6, x7), 7)
         == Digits(x6 / 2 + 8 * (x7 % 2), x7 / 2 + 8 * (x0 % 2), x0 / 2 + 8 * (x1 % 2), x1 / 2 + 8 * (x2 % 2),
                   x2 / 2 + 8 * (x3 % 2), x3 / 2 + 8 * (x4 % 2), x4 / 2 + 8 * (x5 % 2), x5 / 2 + 8 * (x6 % 2))
  {
    hide Rotl, Base;
    Bases();
    RotlParts(7, 0x80, 0x2000000,
              Four(16, x0, x1, x2, x3) + 0x10000 * x4 + 0x100000 * x5 + 0x1000000 * (x6 % 2), x6 / 2 + 8 * x7);
  }

  lemma TurnSevenDigits(x0: nat, x1: nat, x2: nat, x3: nat, x4: nat, x5: nat, x6: nat, x7: nat)
    requires x0 < 16 && x1 < 16 && x2 < 16 && x3 < 16 && x4 < 16 && x5 < 16 && x6 < 16 && x7 < 16
    ensures Rotl(Digits(x0, x1, x2, x3, x4, x5, x6, x7), 7)
         == Digits(TurnOf(x6, x7), TurnOf(x7, x0), TurnOf(x0, x1), TurnOf(x1, x2), TurnOf(x2, x3), TurnOf(x3, x4),
                   TurnOf(x4, x5), TurnOf(x5, x6))
  {
    hide Rotl, Digits, TurnOf;
    TurnSevenHalves(x0, x1, x2, x3, x4, x5, x6, x7);
    TurnHalves(x6, x7); TurnHalves(x7, x0); TurnHalves(x0, x1); TurnHalves(x1, x2);
    TurnHalves(x2, x3); TurnHalves(x3, x4); TurnHalves(x4, x5); TurnHalves(x5, x6);
  }

  lemma TurnHalves(x: nat, y: nat)
    ensures TurnOf(x, y) == x / 2 + 8 * (y % 2)
  {
  }

  lemma TurnSeven(w: Word)
    ensures Number(Turn7(w)) == Rotl(Number(w), 7)
  {
    hide Num, Rotl, Digits, Turn, Number, TurnOf;
    WordOf(w); WordOf(Turn7(w));
    TurnNum(w.n6, w.n7); TurnNum(w.n7, w.n0); TurnNum(w.n0, w.n1); TurnNum(w.n1, w.n2); TurnNum(w.n2, w.n3);
    TurnNum(w.n3, w.n4); TurnNum(w.n4, w.n5); TurnNum(w.n5, w.n6);
    TurnSevenDigits(Num(w.n0), Num(w.n1), Num(w.n2), Num(w.n3), Num(w.n4), Num(w.n5), Num(w.n6), Num(w.n7));
  }

  // ---- bit-vectors ----

  /** The number of a machine word. */
  function Value(x: Bits): nat {
    Number(Hex(x))
  }

  function AddBits(x: Bits, y: Bits): Bits { Bits(x.w + y.w) }

  function XorBits(x: Bits, y: Bits): Bits { Bits(x.w ^ y.w) }

  function Left16(x: Bits): Bits { Bits(x.w.RotateLeft(16)) }

  function Left12(x: Bits): Bits { Bits(x.w.RotateLeft(12)) }

  function Left8(x: Bits): Bits { Bits(x.w.RotateLeft(8)) }

  function Left7(x: Bits): Bits { Bits(x.w.RotateLeft(7)) }

  /** The carry into bit k of a sum: the exclusive or of the three bits there. */
  function CarryAt(x: Bits, y: Bits, k: bv5): bool {
    ((x.w ^ y.w ^ (x.w + y.w)) >> k) & 1 == 1
  }

  lemma DigitOfSum(x: Bits, y: Bits, k: bv5)
    requires k & 3 == 0
    ensures Plus(BitsAt(x, k), BitsAt(y, k), CarryAt(x, y, k)) == BitsAt(AddBits(x, y), k)
  {
  }

  lemma CarryOfSum(x: Bits, y: Bits, k: bv5)
    requires k & 3 == 0 && k <= 24
    ensures Out(BitsAt(x, k), BitsAt(y, k), CarryAt(x, y, k)) == CarryAt(x, y, k + 4)
  {
  }

  lemma NoCarryIn(x: Bits, y: Bits)
    ensures !CarryAt(x, y, 0)
  {
  }

  lemma HexAdd(x: Bits, y: Bits)
    ensures AddWord(Hex(x), Hex(y)) == Hex(AddBits(x, y))
  {
    hide Plus, Out, BitsAt, CarryAt, AddBits;
    NoCarryIn(x, y);
    DigitOfSum(x, y, 0); DigitOfSum(x, y, 4); DigitOfSum(x, y, 8); DigitOfSum(x, y, 12); DigitOfSum(x, y, 16);
    DigitOfSum(x, y, 20); DigitOfSum(x, y, 24); DigitOfSum(x, y, 28);
    CarryOfSum(x, y, 0); CarryOfSum(x, y, 4); CarryOfSum(x, y, 8); CarryOfSum(x, y, 12); CarryOfSum(x, y, 16);
    CarryOfSum(x, y, 20); CarryOfSum(x, y, 24);
  }

  lemma DigitOfXor(x: Bits, y: Bits, k: bv5)
    ensures XorDigit(BitsAt(x, k), BitsAt(y, k)) == BitsAt(XorBits(x, y), k)
  {
  }

  lemma HexXor(x: Bits, y: Bits)
    ensures XorWord(Hex(x), Hex(y)) == Hex(XorBits(x, y))
  {
    hide XorDigit, BitsAt, XorBits;
    DigitOfXor(x, y, 0); DigitOfXor(x, y, 4); DigitOfXor(x, y, 8); DigitOfXor(x, y, 12);
    DigitOfXor(x, y, 16); DigitOfXor(x, y, 20); DigitOfXor(x, y, 24); DigitOfXor(x, y, 28);
  }

  lemma HexTurn16(x: Bits)
    ensures Turn16(Hex(x)) == Hex(Left16(x))
  {
  }

  lemma HexTurn12(x: Bits)
    ensures Turn12(Hex(x)) == Hex(Left12(x))
  {
  }

  lemma HexTurn8(x: Bits)
    ensures Turn8(Hex(x)) == Hex(Left8(x))
  {
  }

  lemma HexTurn7(x: Bits)
    ensures Turn7(Hex(x)) == Hex(Left7(x))
  {
  }

  lemma ValueAdd(x: Bits, y: Bits)
    ensures Value(AddBits(x, y)) == Add32(Value(x), Value(y))
  {
    hide Number, AddWord, Hex, Add32, AddBits;
    HexAdd(x, y);
    AddNumber(Hex(x), Hex(y));
  }

  lemma ValueXor(x: Bits, y: Bits)
    ensures Value(XorBits(x, y)) == Xor(Value(x), Value(y))
  {
    hide Number, XorWord, Hex, Xor, XorBits;
    HexXor(x, y);
    XorNumber(Hex(x), Hex(y));
  }

  lemma Value16(x: Bits)
    ensures Value(Left16(x)) == Rotl(Value(x), 16)
  {
    hide Number, Turn16, Hex, Rotl, Left16;
    HexTurn16(x);
    TurnSixteen(Hex(x));
  }

  lemma Value12(x: Bits)
    ensures Value(Left12(x)) == Rotl(Value(x), 12)
  {
    hide Number, Turn12, Hex, Rotl, Left12;
    HexTurn12(x);
    TurnTwelve(Hex(x));
  }

  lemma Value8(x: Bits)
    ensures Value(Left8(x)) == Rotl(Value(x), 8)
  {
    hide Number, Turn8, Hex, Rotl, Left8;
    HexTurn8(x);
    TurnEight(Hex(x));
  }

  lemma Value7(x: Bits)
    ensures Value(Left7(x)) == Rotl(Value(x), 7)
  {
    hide Number, Turn7, Hex, Rotl, Left7;
    HexTurn7(x);
    TurnSeven(Hex(x));
  }
}
