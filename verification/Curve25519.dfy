/** The X25519 function, Hacl_Curve25519_51.c, against section 5 of RFC 7748. */
module Curve25519 {
  import opened Arith
  import opened Words
  import opened Bytes
  import opened Limbs
  import opened Exponentiation
  import opened Field51
  import opened Machine
  import Bignum256

  // ---- section 5 of RFC 7748 ----

  /** The two points of the ladder in projective coordinates. */
  datatype Points = Points(x2: nat, z2: nat, x3: nat, z3: nat)

  /** Sum, difference and product modulo n. */
  function AddM(x: nat, y: nat, n: nat): nat
    requires n > 0
  {
    (x + y) % n
  }

  function SubM(x: nat, y: nat, n: nat): nat
    requires n > 0
  {
    (x - y) % n
  }

  function MulM(x: nat, y: nat, n: nat): nat
    requires n > 0
  {
    Prod(x, y) % n
  }

  /** One step of the ladder modulo n, in the order of operations of the RFC. */
  ghost function StepModulo(x1: nat, s: Points, n: nat): Points
    requires n > 0
  {
    var a := AddM(s.x2, s.z2, n);
    var aa := MulM(a, a, n);
    var b := SubM(s.x2, s.z2, n);
    var bb := MulM(b, b, n);
    var e := SubM(aa, bb, n);
    var c := AddM(s.x3, s.z3, n);
    var d := SubM(s.x3, s.z3, n);
    var da := MulM(d, a, n);
    var cb := MulM(c, b, n);
    Points(MulM(aa, bb, n), MulM(e, AddM(aa, MulM(121665, e, n), n), n),
           MulM(AddM(da, cb, n), AddM(da, cb, n), n), MulM(x1, MulM(SubM(da, cb, n), SubM(da, cb, n), n), n))
  }

  ghost function RfcStep(x1: nat, s: Points): Points {
    StepModulo(x1, s, P)
  }

  /** The step in the operations of the field. */
  lemma StepInField(x1: nat, s: Points, a: nat, aa: nat, b: nat, bb: nat, e: nat, da: nat, cb: nat)
    requires a == AddP(s.x2, s.z2) && aa == MulP(a, a) && b == SubP(s.x2, s.z2) && bb == MulP(b, b)
    requires e == SubP(aa, bb) && da == MulP(SubP(s.x3, s.z3), a) && cb == MulP(AddP(s.x3, s.z3), b)
    ensures RfcStep(x1, s)
         == Points(MulP(aa, bb), MulP(e, AddP(aa, MulP(121665, e))), MulP(AddP(da, cb), AddP(da, cb)),
                   MulP(x1, MulP(SubP(da, cb), SubP(da, cb))))
  {
    InField(s.x2, s.z2); InField(a, a); InField(b, b); InField(aa, bb); InField(121665, e);
    InField(aa, MulP(121665, e)); InField(e, AddP(aa, MulP(121665, e)));
    InField(s.x3, s.z3); InField(SubP(s.x3, s.z3), a); InField(AddP(s.x3, s.z3), b); InField(da, cb);
    InField(AddP(da, cb), AddP(da, cb)); InField(SubP(da, cb), SubP(da, cb));
    InField(x1, MulP(SubP(da, cb), SubP(da, cb)));
    hide AddP, SubP, MulP, AddM, SubM, MulM;
  }

  lemma InField(x: nat, y: nat)
    ensures AddM(x, y, P) == AddP(x, y) && SubM(x, y, P) == SubP(x, y) && MulM(x, y, P) == MulP(x, y)
  {
  }

  ghost function RfcSwap(swap: nat, s: Points): Points {
    if swap == 1 then Points(s.x3, s.z3, s.x2, s.z2) else s
  }

  /** The state and the swap bit after the bits 254 down to t of k. */
  ghost function RfcLoop(k: nat, u: nat, t: nat): (Points, nat)
    requires t <= 255
    decreases 255 - t
  {
    if t == 255 then (Points(1, 0, u, 1), 0)
    else
      var r := RfcLoop(k, u, t + 1);
      var kt := Shr(k, t) % 2;
      (RfcStep(u, RfcSwap(Xor(r.1, kt), r.0)), kt)
  }

  // ---- the ladder step on the buffer ----

  lemma MulPSym(x: nat, y: nat)
    ensures MulP(x, y) == MulP(y, x)
  {
  }

  lemma AddPSym(x: nat, y: nat)
    ensures AddP(x, y) == AddP(y, x)
  {
  }

  /** Four tight elements at the start of the work buffer: nq and nq_p1. */
  ghost predicate TightPoints(p: array<nat>)
    reads p
  {
    p.Length == 41 && Tight(At(p, 0)) && Tight(At(p, 5)) && Tight(At(p, 10)) && Tight(At(p, 15))
  }

  ghost function PointsAt(p: array<nat>): Points
    requires p.Length == 41
    reads p
  {
    Points(Fe(At(p, 0)), Fe(At(p, 5)), Fe(At(p, 10)), Fe(At(p, 15)))
  }

  /** The optimised differential addition and doubling: nq at 0, nq_p1 at 10, temporaries from 20 on. */
  method PointAddAndDouble(q: array<nat>, p: array<nat>)
    requires q != p && q.Length >= 5 && Tight(At(q, 0)) && TightPoints(p)
    modifies p
    ensures TightPoints(p) && PointsAt(p) == RfcStep(Fe(At(q, 0)), old(PointsAt(p))) && Word(p, 40) == old(Word(p, 40))
  {
    hide At, Fe, AddP, SubP, MulP, Word, Tight, Loose, RfcStep;
    ghost var s, x1 := PointsAt(p), Fe(At(q, 0));
    FAdd(p, 20, p, 0, p, 5);
    FSub(p, 25, p, 0, p, 5);
    FAdd(p, 35, p, 10, p, 15);
    FSub(p, 30, p, 10, p, 15);
    FMul2(p, 30, p, 30, p, 20);
    FAdd(p, 10, p, 30, p, 35);
    FSub(p, 15, p, 30, p, 35);
    FSqr2(p, 30, p, 20);
    FSqr2(p, 10, p, 10);
    ghost var aa, bb, v := Fe(At(p, 30)), Fe(At(p, 35)), Fe(At(p, 15));
    Store(p, 20, At(p, 35));
    FSub(p, 35, p, 30, p, 35);
    ghost var e := Fe(At(p, 35));
    ghost var a, b := AddP(s.x2, s.z2), SubP(s.x2, s.z2);
    ghost var da, cb := MulP(SubP(s.x3, s.z3), a), MulP(AddP(s.x3, s.z3), b);
    StepInField(x1, s, a, aa, b, bb, e, da, cb);
    FMul1(p, 25, p, 35, 121665);
    FAdd(p, 25, p, 25, p, 30);
    FMul2(p, 0, p, 30, p, 20);
    FMul(p, 15, p, 15, q, 0);
    MulPSym(e, 121665); AddPSym(aa, MulP(121665, e)); MulPSym(v, x1);
  }

  /** Doubling alone: what the ladder step does to its first point, whatever the second. */
  ghost function RfcDouble(x2: nat, z2: nat): (nat, nat) {
    var a := AddP(x2, z2);
    var aa := MulP(a, a);
    var b := SubP(x2, z2);
    var bb := MulP(b, b);
    var e := SubP(aa, bb);
    (MulP(aa, bb), MulP(e, AddP(aa, MulP(121665, e))))
  }

  lemma StepDoubles(x1: nat, s: Points)
    ensures (RfcStep(x1, s).x2, RfcStep(x1, s).z2) == RfcDouble(s.x2, s.z2)
  {
    hide AddP, SubP, MulP, RfcStep;
    var a, b := AddP(s.x2, s.z2), SubP(s.x2, s.z2);
    StepInField(x1, s, a, MulP(a, a), b, MulP(b, b), SubP(MulP(a, a), MulP(b, b)), MulP(SubP(s.x3, s.z3), a),
                MulP(AddP(s.x3, s.z3), b));
  }

  method PointDouble(p: array<nat>)
    requires TightPoints(p)
    modifies p
    ensures TightPoints(p)
    ensures (PointsAt(p).x2, PointsAt(p).z2) == RfcDouble(old(PointsAt(p).x2), old(PointsAt(p).z2))
  {
    hide At, Fe, AddP, SubP, MulP, Word, Tight, Loose;
    FAdd(p, 20, p, 0, p, 5);
    FSub(p, 25, p, 0, p, 5);
    FSqr2(p, 30, p, 20);
    ghost var aa := Fe(At(p, 30));
    Store(p, 20, At(p, 35));
    FSub(p, 35, p, 30, p, 35);
    ghost var e := Fe(At(p, 35));
    FMul1(p, 25, p, 35, 121665);
    FAdd(p, 25, p, 25, p, 30);
    FMul2(p, 0, p, 30, p, 20);
    MulPSym(e, 121665); AddPSym(aa, MulP(121665, e));
  }

  method SwapPoints(bit: nat, p: array<nat>)
    requires bit <= 1 && TightPoints(p)
    modifies p
    ensures TightPoints(p) && PointsAt(p) == RfcSwap(bit, old(PointsAt(p))) && Word(p, 40) == old(Word(p, 40))
  {
    ghost var s := p[..];
    TightWords(p, 0); TightWords(p, 5); TightWords(p, 10); TightWords(p, 15);
    CSwap2(bit, p, 0, 10);
    assert forall k :: 0 <= k < 10 ==> p[k] == if bit == 1 then s[k + 10] else s[k];
    assert forall k :: 10 <= k < 20 ==> p[k] == if bit == 1 then s[k - 10] else s[k];
  }

  lemma TightWords(p: array<nat>, o: nat)
    requires o + 5 <= p.Length && Tight(At(p, o))
    ensures forall k :: o <= k < o + 5 ==> p[k] < 0x10000000000000000
  {
  }

  // ---- the scalar ----

  ghost predicate Key(key: array<nat>)
    reads key
  {
    key.Length == 32 && IsLimbs(Base(8), Slice(key, 0, 32))
  }

  /** decodeScalar25519 of RFC 7748: the key with three bits cleared at the bottom and the top two bits set to 01. */
  ghost function Clamped(s: seq<nat>): (c: seq<nat>)
    requires |s| == 32
    ensures |c| == 32
  {
    s[0 := And(s[0], 248)][31 := Or(And(s[31], 127), 64)]
  }

  /** The lemmas on masks, with the powers of two as literals. */
  lemma LowMask(k: nat, x: nat, b: nat)
    requires b == Base(k)
    ensures And(x, b - 1) == x % b
  {
    AndOnes(k, x);
  }

  lemma HighMask(k: nat, x: nat, m: nat, b: nat, y: nat)
    requires b == Base(k) && y == Prod(m, b)
    ensures And(x, y) == Prod(And(x / b, m), b) && Or(x, y) == x % b + Prod(Or(x / b, m), b)
  {
    hide And, Or;
    HighBitsOnly(k, x, m);
  }

  lemma ClearLowBits(b: nat)
    requires b < 256
    ensures And(b, 248) == b / 8 * 8
  {
    PowersUpToEight();
    hide Base, Pow, Or, And;
    HighMask(3, b, 31, 8, 248);
    LowMask(5, b / 8, 32);
  }

  lemma ClearTopBit(b: nat)
    requires b < 256
    ensures And(b, 127) == b % 128
  {
    PowersUpToEight();
    hide Base, Pow, Or, And;
    LowMask(7, b, 128);
  }

  lemma SetBitSix(b: nat)
    requires b < 256
    ensures Or(b % 128, 64) == b % 64 + 64
  {
    hide Base, Pow, Or, And;
    PowersUpToEight();
    OrOne(b % 128 / 64);
    HighMask(6, b % 128, 1, 64, 64);
  }

  lemma OrOne(h: nat)
    requires h <= 1
    ensures Or(h, 1) == 1
  {
  }

  lemma PowersUpToEight()
    ensures Base(0) == 1 && Base(1) == 2 && Base(2) == 4 && Base(3) == 8 && Base(4) == 16 && Base(5) == 32
        && Base(6) == 64
    ensures Base(7) == 128 && Base(8) == 256
  {
  }

  /** The clamped key differs from the key only in the bits 0 to 2, 254 and 255. */
  lemma ClampedBits(s: seq<nat>, t: nat)
    requires |s| == 32 && IsLimbs(Base(8), s) && t < 255
    ensures IsLimbs(Base(8), Clamped(s))
    ensures Shr(Eval(Base(8), Clamped(s)), t) % 2
         == if t < 3 then 0 else if t == 254 then 1 else And(Shr(s[t / 8], t % 8), 1)
  {
    ClampedBytes(s);
    var c := Clamped(s);
    var k, j := t / 8, t % 8;
    assert t == 8 * k + j && k < 32;
    hide *;
    OneBit(8, c, k, j);
    assert Base(1) == 2 by { PowersUpToEight(); }
    LowMask(1, Shr(s[k], j), 2);
    if k == 0 {
      LowByteBits(s[0], j);
    } else if k == 31 {
      HighByteBits(s[31], j);
    }
  }

  lemma ClampedBytes(s: seq<nat>)
    requires |s| == 32 && IsLimbs(Base(8), s)
    ensures IsLimbs(Base(8), Clamped(s))
    ensures forall k :: 0 <= k < 32 ==>
              Clamped(s)[k] == if k == 0 then s[k] / 8 * 8 else if k == 31 then s[k] % 64 + 64 else s[k]
  {
    assert Base(8) == 256 by { PowersUpToEight(); }
    ClearLowBits(s[0]); ClearTopBit(s[31]); SetBitSix(s[31]);
    hide And, Or, Pow, Base;
  }

  lemma LowByteBits(b: nat, j: nat)
    requires j < 8
    ensures Shr(b / 8 * 8, j) % 2 == if j < 3 then 0 else Shr(b, j) % 2
  {
    PowersUpToEight();
    if j >= 3 {
      PowAdd(2, 3, j - 3);
      DivDiv(b / 8 * 8, 8, Base(j - 3));
      DivDiv(b, 8, Base(j - 3));
    } else {
      BitOfLimb(3, 0, b / 8, j);
    }
  }

  lemma HighByteBits(b: nat, j: nat)
    requires j < 7
    ensures Shr(b % 64 + 64, j) % 2 == if j == 6 then 1 else Shr(b, j) % 2
  {
    PowersUpToEight();
    if j < 6 {
      BitOfLimb(6, b % 64, b / 64, j);
      BitOfLimb(6, b % 64, 1, j);
    }
  }

  // ---- the ladder ----

  /** Without a swap, three steps on zero bits are three doublings of the first point. */
  lemma TrailingZeros(k: nat, u: nat)
    requires Shr(k, 0) % 2 == 0 && Shr(k, 1) % 2 == 0 && Shr(k, 2) % 2 == 0
    ensures var r := RfcLoop(k, u, 3);
            var s := RfcSwap(r.1, r.0);
            var d1 := RfcDouble(s.x2, s.z2);
            var d2 := RfcDouble(d1.0, d1.1);
            var f := RfcLoop(k, u, 0);
            f.1 == 0 && (f.0.x2, f.0.z2) == RfcDouble(d2.0, d2.1)
  {
    hide RfcStep, RfcDouble, Base;
    var r3, r2, r1 := RfcLoop(k, u, 3), RfcLoop(k, u, 2), RfcLoop(k, u, 1);
    assert Xor(r3.1, 0) == r3.1;
    assert r2 == (RfcStep(u, RfcSwap(r3.1, r3.0)), 0);
    assert Xor(0, 0) == 0;
    assert r1 == (RfcStep(u, r2.0), 0);
    StepDoubles(u, RfcSwap(r3.1, r3.0)); StepDoubles(u, r2.0); StepDoubles(u, r1.0);
    assert RfcLoop(k, u, 0) == (RfcStep(u, r1.0), 0);
  }

  /** The buffer is in the state of the RFC ladder after bit t; word 40 is the pending swap. */
  ghost predicate InStep(p: array<nat>, k: nat, u: nat, t: nat)
    requires t <= 255
    reads p
  {
    TightPoints(p) && (PointsAt(p), Word(p, 40)) == RfcLoop(k, u, t)
  }

  method SetSwap(p: array<nat>, bit: nat)
    requires TightPoints(p)
    modifies p
    ensures TightPoints(p) && PointsAt(p) == old(PointsAt(p)) && Word(p, 40) == bit
  {
    p[40] := bit;
  }

  lemma LoopStep(k: nat, u: nat, t: nat)
    requires t < 255
    ensures var r := RfcLoop(k, u, t + 1);
            RfcLoop(k, u, t) == (RfcStep(u, RfcSwap(Xor(r.1, Shr(k, t) % 2), r.0)), Shr(k, t) % 2)
    ensures RfcLoop(k, u, t).1 <= 1
  {
  }

  /** Bit t of the key, 3 <= t <= 253, which clamping does not change. */
  method LadderBit(q: array<nat>, key: array<nat>, p: array<nat>, t: nat, ghost k: nat)
    requires Key(key) && q.Length >= 5 && q != p && Tight(At(q, 0)) && 3 <= t <= 253
    requires k == Eval(Base(8), Clamped(Slice(key, 0, 32))) && InStep(p, k, Fe(At(q, 0)), t + 1)
    modifies p
    ensures InStep(p, k, Fe(At(q, 0)), t)
  {
    ghost var u := Fe(At(q, 0));
    ClampedBits(Slice(key, 0, 32), t);
    LoopStep(k, u, t);
    LoopStep(k, u, t + 1);
    AndOnes(1, Shr(key[t / 8], t % 8));
    assert Base(1) == 2;
    hide Fe, At, RfcLoop, RfcStep, RfcSwap, Xor, And, Base, Pow, Eval, Shr, PointsAt, Clamped, IsLimbs;
    var bit := And(Shr(key[t / 8], t % 8), 1);
    var sw := Xor(p[40], bit);
    XorBit(p[40], bit);
    SwapPoints(sw, p);
    PointAddAndDouble(q, p);
    SetSwap(p, bit);
  }

  /** The point (x : z) that the RFC ladder leaves for the clamped key. */
  ghost function RfcResult(key: seq<nat>, u: nat): (nat, nat)
    requires |key| == 32
  {
    var r := RfcLoop(Eval(Base(8), Clamped(key)), u, 0);
    var s := RfcSwap(r.1, r.0);
    (s.x2, s.z2)
  }

  /** The constants 0 and 1. */
  method StoreSmall(p: array<nat>, o: nat, v: nat)
    requires o + 5 <= p.Length && v <= 1
    modifies p
    ensures Tight(At(p, o)) && Fe(At(p, o)) == v
    ensures forall x: array<nat>, i: nat {:trigger At(x, i)} ::
              old(allocated(x)) && Clear(x, i, p, o, 5) ==> At(x, i) == old(At(x, i))
  {
    SmallFe(Felem(v, 0, 0, 0, 0));
    hide At, Fe, Val5;
    Store(p, o, Felem(v, 0, 0, 0, 0));
  }

  lemma SmallFe(f: Felem)
    requires f.l0 <= 1 && f.l1 == f.l2 == f.l3 == f.l4 == 0
    ensures Fe(f) == f.l0
  {
  }

  /** The points at infinity and u, the state before the first bit. */
  method LadderStart(init: array<nat>) returns (p: array<nat>)
    requires init.Length >= 10 && Tight(At(init, 0)) && Tight(At(init, 5)) && Fe(At(init, 5)) == 1
    ensures fresh(p) && TightPoints(p) && PointsAt(p) == Points(1, 0, Fe(At(init, 0)), 1)
  {
    p := new nat[41](_ => 0);
    hide At, Fe, Tight, Loose;
    Store(p, 10, At(init, 0));
    Store(p, 15, At(init, 5));
    StoreSmall(p, 0, 1);
    StoreSmall(p, 5, 0);
  }

  lemma FirstBit(key: seq<nat>, u: nat)
    requires |key| == 32 && IsLimbs(Base(8), key)
    ensures RfcLoop(Eval(Base(8), Clamped(key)), u, 254) == (RfcStep(u, RfcSwap(1, Points(1, 0, u, 1))), 1)
  {
    ClampedBits(key, 254);
    var k := Eval(Base(8), Clamped(key));
    LoopStep(k, u, 254);
    assert RfcLoop(k, u, 255) == (Points(1, 0, u, 1), 0);
    assert Xor(0, 1) == 1;
  }

  lemma LastBits(key: seq<nat>, u: nat)
    requires |key| == 32 && IsLimbs(Base(8), key)
    ensures var r := RfcLoop(Eval(Base(8), Clamped(key)), u, 3);
            var s := RfcSwap(r.1, r.0);
            var d1 := RfcDouble(s.x2, s.z2);
            var d2 := RfcDouble(d1.0, d1.1);
            RfcResult(key, u) == RfcDouble(d2.0, d2.1)
  {
    ClampedBits(key, 0); ClampedBits(key, 1); ClampedBits(key, 2);
    hide RfcLoop, RfcDouble, Clamped, Eval, Shr;
    TrailingZeros(Eval(Base(8), Clamped(key)), u);
  }

  method LadderLoop(q: array<nat>, key: array<nat>, p: array<nat>, ghost k: nat)
    requires Key(key) && q.Length >= 5 && p !in {q, key} && Tight(At(q, 0))
    requires k == Eval(Base(8), Clamped(Slice(key, 0, 32))) && InStep(p, k, Fe(At(q, 0)), 254)
    modifies p
    ensures InStep(p, k, Fe(At(q, 0)), 3)
  {
    hide *;
    var i := 0;
    while i < 251
      invariant 0 <= i <= 251 && InStep(p, k, Fe(At(q, 0)), 254 - i)
    {
      LadderBit(q, key, p, 253 - i, k);
      i := i + 1;
    }
  }

  lemma PendingSwap(p: array<nat>, k: nat, u: nat)
    requires InStep(p, k, u, 3)
    ensures TightPoints(p) && p[40] <= 1
    ensures PointsAt(p) == RfcLoop(k, u, 3).0 && p[40] == RfcLoop(k, u, 3).1
  {
    LoopStep(k, u, 3);
  }

  method CopyOut(out: array<nat>, p: array<nat>)
    requires TightPoints(p) && out.Length == 10 && out != p
    modifies out
    ensures Tight(At(out, 0)) && Tight(At(out, 5)) && Fe(At(out, 0)) == PointsAt(p).x2
        && Fe(At(out, 5)) == PointsAt(p).z2
  {
    hide At, Fe;
    Store(out, 0, At(p, 0));
    Store(out, 5, At(p, 5));
  }

  /**
   * The key is never clamped: bit 254 is taken as set by the first swap, the bits 253 to 3 are read,
   * and the three low bits, cleared in a clamped key, become doublings.
   */
  method MontgomeryLadder(out: array<nat>, key: array<nat>, init: array<nat>)
    requires Key(key) && out.Length == 10 && init.Length == 10
    requires Tight(At(init, 0)) && Tight(At(init, 5)) && Fe(At(init, 5)) == 1
    modifies out
    ensures Tight(At(out, 0)) && Tight(At(out, 5))
    ensures (Fe(At(out, 0)), Fe(At(out, 5))) == RfcResult(old(Slice(key, 0, 32)), old(Fe(At(init, 0))))
  {
    ghost var ks, u := Slice(key, 0, 32), Fe(At(init, 0));
    ghost var k := Eval(Base(8), Clamped(ks));
    FirstBit(ks, u);
    LastBits(ks, u);
    LoopStep(k, u, 3);
    hide At, Fe, RfcLoop, RfcDouble, RfcStep, RfcSwap, Clamped, Eval, Tight, Word, PointsAt, Pow, Base;
    var p := LadderStart(init);
    SwapPoints(1, p);
    PointAddAndDouble(init, p);
    SetSwap(p, 1);
    LadderLoop(init, key, p, k);
    var sw := p[40];
    PendingSwap(p, k, u);
    SwapPoints(sw, p);
    PointDouble(p);
    PointDouble(p);
    PointDouble(p);
    CopyOut(out, p);
  }

  // ---- inversion ----

  function PowP(x: nat, e: nat): nat { Pow(x, e) % P }

  lemma PowPAdd(x: nat, e: nat, f: nat)
    ensures MulP(PowP(x, e), PowP(x, f)) == PowP(x, e + f)
  {
    PowAdd(x, e, f);
    CongMod(Pow(x, e), P);
    CongMod(Pow(x, f), P);
    CongMul(PowP(x, e), Pow(x, e), PowP(x, f), Pow(x, f), P);
  }

  lemma PowPPow(x: nat, e: nat, f: nat)
    ensures PowP(PowP(x, e), f) == PowP(x, Prod(e, f))
  {
    CongMod(Pow(x, e), P);
    CongPow(PowP(x, e), Pow(x, e), f, P);
    PowMul(x, e, f);
  }

  lemma SquarePower(x: nat)
    ensures MulP(x, x) == PowP(x, 2)
  {
    PowTwo(x);
  }

  /** n >= 1 squarings: the power 2^n. */
  method FSquareTimes(o: array<nat>, oo: nat, inp: array<nat>, io: nat, n: nat)
    requires n >= 1 && oo + 5 <= o.Length && io + 5 <= inp.Length && Tight(At(inp, io))
    modifies o
    ensures Tight(At(o, oo)) && Fe(At(o, oo)) == PowP(Fe(old(At(inp, io))), Pow(2, n))
    ensures forall x: array<nat>, i: nat {:trigger At(x, i)} ::
              old(allocated(x)) && Clear(x, i, o, oo, 5) ==> At(x, i) == old(At(x, i))
  {
    ghost var z := Fe(At(inp, io));
    hide At, Fe, Pow, MulP, Word, PowP;
    PowTwo(z);
    SquarePower(z);
    FSqr(o, oo, inp, io);
    ghost var e := 2;
    var k := 1;
    while k < n
      invariant 1 <= k <= n && e == Pow(2, k)
      invariant Tight(At(o, oo)) && Fe(At(o, oo)) == PowP(z, e)
      invariant forall x: array<nat>, i: nat {:trigger At(x, i)} ::
                old(allocated(x)) && Clear(x, i, o, oo, 5) ==> At(x, i) == old(At(x, i))
    {
      FSqr(o, oo, o, oo);
      PowPAdd(z, e, e);
      PowSuccessor(2, k);
      e := e + e;
      k := k + 1;
    }
  }

  /** 2^k - 1: a number of k ones. */
  ghost function Ones(k: nat): nat {
    PowPositive(2, k);
    Pow(2, k) - 1
  }

  lemma OnesAdd(a: nat, b: nat)
    ensures Prod(Ones(a), Pow(2, b)) + Ones(b) == Ones(a + b)
  {
    hide Pow;
    PowAdd(2, a, b);
    MulDistrib(Pow(2, b), Pow(2, a), 1);
  }

  /** Shifting a ones and multiplying by b ones gives a + b ones. */
  lemma JoinOnes(x: nat, a: nat, b: nat)
    ensures MulP(PowP(PowP(x, Ones(a)), Pow(2, b)), PowP(x, Ones(b))) == PowP(x, Ones(a + b))
  {
    hide *;
    PowPPow(x, Ones(a), Pow(2, b));
    PowPAdd(x, Prod(Ones(a), Pow(2, b)), Ones(b));
    OnesAdd(a, b);
  }

  /** The first exponents: 2, 8, 9, 11, 22 and 31. */
  lemma SmallPowers(z: nat)
    ensures PowP(PowP(z, 2), Pow(2, 2)) == PowP(z, 8) && PowP(PowP(z, 11), Pow(2, 1)) == PowP(z, 22)
    ensures Pow(2, 1) == 2 && Ones(5) == 31
    ensures MulP(PowP(z, 8), PowP(z, 1)) == PowP(z, 9) && MulP(PowP(z, 9), PowP(z, 2)) == PowP(z, 11)
    ensures MulP(PowP(z, 22), PowP(z, 9)) == PowP(z, 31)
  {
    assert Pow(2, 1) == 2 && Pow(2, 2) == 4 && Pow(2, 5) == 32 by {
      PowSuccessor(2, 0); PowSuccessor(2, 1); PowSuccessor(2, 2); PowSuccessor(2, 3); PowSuccessor(2, 4);
    }
    hide PowP, MulP, Pow;
    PowPPow(z, 2, 4); PowPPow(z, 11, 2);
    PowPAdd(z, 8, 1); PowPAdd(z, 9, 2); PowPAdd(z, 22, 9);
  }

  /** 2^255 - 21 = (2^250 - 1) * 2^5 + 11. */
  lemma FinalPower(z: nat)
    ensures MulP(PowP(PowP(z, Ones(250)), Pow(2, 5)), PowP(z, 11)) == PowP(z, P - 2)
  {
    OnesAdd(250, 5);
    assert Ones(5) == 31 by { SmallPowers(z); }
    assert Ones(255) == P + 18 by { PowTo255(); }
    hide *;
    PowPPow(z, Ones(250), Pow(2, 5));
    PowPAdd(z, Prod(Ones(250), Pow(2, 5)), 11);
  }

  lemma PowTo255()
    ensures Ones(255) == P + 18
  {
    PowTo127();
    hide Pow;
    PowAdd(2, 127, 127); PowAdd(2, 254, 1);
  }

  lemma PowTo127()
    ensures Pow(2, 1) == 2 && Pow(2, 127) == 0x80000000_00000000_00000000_00000000
  {
    PowTo31();
    hide Pow;
    PowAdd(2, 31, 31); PowAdd(2, 62, 1); PowAdd(2, 63, 63); PowAdd(2, 126, 1);
  }

  lemma PowTo31()
    ensures Pow(2, 1) == 2 && Pow(2, 31) == 0x80000000
  {
    assert Pow(2, 1) == 2;
    hide Pow;
    PowAdd(2, 1, 1); PowAdd(2, 2, 1); PowAdd(2, 3, 3); PowAdd(2, 6, 1); PowAdd(2, 7, 7); PowAdd(2, 14, 1);
    PowAdd(2, 15, 15); PowAdd(2, 30, 1);
  }

  /** The addition chain of the inversion: i^(2^255 - 21). */
  method FInv(o: array<nat>, oo: nat, inp: array<nat>, io: nat)
    requires oo + 5 <= o.Length && io + 5 <= inp.Length && Tight(At(inp, io))
    modifies o
    ensures Tight(At(o, oo)) && Fe(At(o, oo)) == PowP(Fe(old(At(inp, io))), P - 2)
    ensures forall x: array<nat>, i: nat {:trigger At(x, i)} ::
              old(allocated(x)) && Clear(x, i, o, oo, 5) ==> At(x, i) == old(At(x, i))
  {
    ghost var z := Fe(At(inp, io));
    var t1 := new nat[20](_ => 0);
    FInvLow(t1, inp, io);
    FInvMiddle(t1, z);
    FInvHigh(t1, z);
    FinalPower(z);
    hide At, Fe, PowP, Pow, Ones, MulP, Tight, Loose;
    FMul(o, oo, t1, 15, t1, 0);
  }

  /** t1 holds i^11 at 0 and i^(2^10 - 1) at 5. */
  method FInvLow(t1: array<nat>, inp: array<nat>, io: nat)
    requires t1.Length == 20 && io + 5 <= inp.Length && t1 != inp && Tight(At(inp, io))
    modifies t1
    ensures Tight(At(t1, 0)) && Fe(At(t1, 0)) == PowP(Fe(At(inp, io)), 11)
    ensures Tight(At(t1, 5)) && Fe(At(t1, 5)) == PowP(Fe(At(inp, io)), Ones(10))
  {
    ghost var z := Fe(At(inp, io));
    hide At, Fe, PowP, Pow, Ones, MulP, Tight, Loose;
    SmallPowers(z);
    PowPOne(At(inp, io));
    JoinOnes(z, 5, 5);
    FSquareTimes(t1, 0, inp, io, 1);
    FSquareTimes(t1, 15, t1, 0, 2);
    FMul(t1, 5, t1, 15, inp, io);
    FMul(t1, 0, t1, 5, t1, 0);
    FSquareTimes(t1, 15, t1, 0, 1);
    FMul(t1, 5, t1, 15, t1, 5);
    FSquareTimes(t1, 15, t1, 5, 5);
    FMul(t1, 5, t1, 15, t1, 5);
  }

  lemma PowPOne(f: Felem)
    ensures PowP(Fe(f), 1) == Fe(f)
  {
    hide Val5;
    assert Pow(Fe(f), 1) == Fe(f);
    DivModUnique(Fe(f), P, 0, Fe(f));
  }

  /** From i^(2^10 - 1) at 5 to i^(2^50 - 1) at 5 and i^(2^100 - 1) at 10. */
  method FInvMiddle(t1: array<nat>, ghost z: nat)
    requires t1.Length == 20 && Tight(At(t1, 5)) && Fe(At(t1, 5)) == PowP(z, Ones(10))
    modifies t1
    ensures At(t1, 0) == old(At(t1, 0))
    ensures Tight(At(t1, 5)) && Fe(At(t1, 5)) == PowP(z, Ones(50)) && Tight(At(t1, 10))
        && Fe(At(t1, 10)) == PowP(z, Ones(100))
  {
    hide At, Fe, PowP, Pow, Ones, MulP, Tight, Loose;
    JoinOnes(z, 10, 10); JoinOnes(z, 20, 20); JoinOnes(z, 40, 10); JoinOnes(z, 50, 50);
    FSquareTimes(t1, 15, t1, 5, 10);
    FMul(t1, 10, t1, 15, t1, 5);
    FSquareTimes(t1, 15, t1, 10, 20);
    FMul(t1, 15, t1, 15, t1, 10);
    FSquareTimes(t1, 15, t1, 15, 10);
    FMul(t1, 5, t1, 15, t1, 5);
    FSquareTimes(t1, 15, t1, 5, 50);
    FMul(t1, 10, t1, 15, t1, 5);
  }

  /** On to i^((2^250 - 1) * 2^5) at 15; i^11 at 0 stays. */
  method FInvHigh(t1: array<nat>, ghost z: nat)
    requires t1.Length == 20
    requires Tight(At(t1, 5)) && Fe(At(t1, 5)) == PowP(z, Ones(50)) && Tight(At(t1, 10))
        && Fe(At(t1, 10)) == PowP(z, Ones(100))
    modifies t1
    ensures At(t1, 0) == old(At(t1, 0))
    ensures Tight(At(t1, 15)) && Fe(At(t1, 15)) == PowP(PowP(z, Ones(250)), Pow(2, 5))
  {
    hide At, Fe, PowP, Pow, Ones, MulP, Tight, Loose;
    JoinOnes(z, 100, 100); JoinOnes(z, 200, 50);
    FSquareTimes(t1, 15, t1, 10, 100);
    FMul(t1, 15, t1, 15, t1, 10);
    FSquareTimes(t1, 15, t1, 15, 50);
    FMul(t1, 15, t1, 15, t1, 5);
    FSquareTimes(t1, 15, t1, 15, 5);
  }

  // ---- encoding and decoding ----

  /** 32 bytes as four words. */
  lemma EvalWords(s: seq<nat>)
    requires |s| == 32
    ensures Eval(Base(8), s) == Val4((Eval(Base(8), s[0..8]), Eval(Base(8), s[8..16]), Eval(Base(8), s[16..24]),
                                      Eval(Base(8), s[24..32])))
  {
    var B := Base(8);
    EvalSplit(B, s, 8);
    assert s[8..][..8] == s[8..16] && s[8..][8..] == s[16..];
    EvalSplit(B, s[8..], 8);
    assert s[16..][..8] == s[16..24] && s[16..][8..] == s[24..32];
    EvalSplit(B, s[16..], 8);
    BytesPerWord();
  }

  lemma BytesPerWord()
    ensures Pow(Base(8), 8) == 0x10000000000000000
  {
    PowMul(2, 8, 8);
    BaseLiterals();
  }

  /** Four words to 32 bytes. */
  method StoreBytes(o: array<nat>, w: (nat, nat, nat, nat))
    requires o.Length == 32 && Words4(w)
    modifies o
    ensures IsLimbs(Base(8), Slice(o, 0, 32)) && Val(Base(8), o, 0, 32) == Val4(w)
  {
    BytesPerWord();
    hide Eval, Pow, Base, IsLimbs, Slice;
    StoreLe(o, 0, 8, w.0);
    StoreLe(o, 8, 8, w.1);
    StoreLe(o, 16, 8, w.2);
    StoreLe(o, 24, 8, w.3);
    FourWords(o);
  }

  lemma FourWords(o: array<nat>)
    requires o.Length == 32
    ensures Val(Base(8), o, 0, 32) == Val4((Val(Base(8), o, 0, 8), Val(Base(8), o, 8, 8), Val(Base(8), o, 16, 8),
                                        Val(Base(8), o, 24, 8)))
    ensures IsLimbs(Base(8), Slice(o, 0, 32))
       <==>
         IsLimbs(Base(8), Slice(o, 0, 8)) && IsLimbs(Base(8), Slice(o, 8, 8)) && IsLimbs(Base(8), Slice(o, 16, 8))
         && IsLimbs(Base(8), Slice(o, 24, 8))
  {
    var s := Slice(o, 0, 32);
    SliceInside(o, 0, 32, 0, 8); SliceInside(o, 0, 32, 8, 8); SliceInside(o, 0, 32, 16, 8);
    SliceInside(o, 0, 32, 24, 8);
    hide Slice, Eval, Base;
    assert s == s[0..8] + s[8..16] + s[16..24] + s[24..32];
    EvalWords(s);
  }

  /** The affine x-coordinate x * z^(p - 2), written in its only encoding below p. */
  method EncodePoint(o: array<nat>, i: array<nat>)
    requires o.Length == 32 && i.Length >= 10 && Tight(At(i, 0)) && Tight(At(i, 5))
    modifies o
    ensures IsLimbs(Base(8), Slice(o, 0, 32))
    ensures Val(Base(8), o, 0, 32) == MulP(PowP(Fe(old(At(i, 5))), P - 2), Fe(old(At(i, 0)))) < P
  {
    hide At, Fe, Tight, Loose, Eval, Pow, PowP, Base, IsLimbs, Slice, Val4, Words4, StoreWords;
    var tmp := new nat[5](_ => 0);
    FInv(tmp, 0, i, 5);
    FMul(tmp, 0, tmp, 0, i, 0);
    var u64s := StoreWords(At(tmp, 0));
    StoreBytes(o, u64s);
  }

  /** The u-coordinate of RFC 7748: the top bit of the last byte is ignored and other values are reduced. */
  ghost function RfcDecodeU(s: seq<nat>): nat {
    Eval(Base(8), s) % 0x8000000000000000000000000000000000000000000000000000000000000000 % P
  }

  /** X25519(k, u) of section 5 of RFC 7748. */
  ghost function RfcX25519(k: seq<nat>, u: seq<nat>): nat
    requires |k| == 32
  {
    var r := RfcResult(k, RfcDecodeU(u));
    MulP(r.0, PowP(r.1, P - 2))
  }

  lemma MaskedTop(w: (nat, nat, nat, nat))
    requires Words4(w)
    ensures And(w.3, 0x7fffffffffffffff) == w.3 % 0x8000000000000000
    ensures Val4((w.0, w.1, w.2, w.3 % 0x8000000000000000))
         == Val4(w) % 0x8000000000000000000000000000000000000000000000000000000000000000
  {
    assert Base(63) == 0x8000000000000000 by { BaseLiterals(); BaseHalf(64); }
    hide And, Base;
    LowMask(63, w.3, 0x8000000000000000);
    var v := Val4((w.0, w.1, w.2, w.3 % 0x8000000000000000));
    DivModUnique(Val4(w), 0x8000000000000000000000000000000000000000000000000000000000000000, w.3 / 0x8000000000000000,
                 v);
  }

  /** The point (u : 1) from the 32 bytes of u. */
  method DecodePoint(pub: array<nat>) returns (init: array<nat>)
    requires Key(pub)
    ensures fresh(init) && init.Length == 10 && Tight(At(init, 0)) && Tight(At(init, 5))
    ensures Fe(At(init, 0)) == RfcDecodeU(Slice(pub, 0, 32)) && Fe(At(init, 5)) == 1
  {
    FourWords(pub);
    EvalBound(Base(8), Slice(pub, 0, 8)); EvalBound(Base(8), Slice(pub, 8, 8));
    EvalBound(Base(8), Slice(pub, 16, 8)); EvalBound(Base(8), Slice(pub, 24, 8));
    BytesPerWord();
    hide Eval, Pow, Base, IsLimbs, Slice, Val4, And, At, UnpackWords, Tight, Val5;
    init := new nat[10](_ => 0);
    var t0 := LoadLe(pub, 0, 8);
    var t1 := LoadLe(pub, 8, 8);
    var t2 := LoadLe(pub, 16, 8);
    var tmp3 := LoadLe(pub, 24, 8);
    MaskedTop((t0, t1, t2, tmp3));
    var t3 := And(tmp3, 0x7fffffffffffffff);
    StoreSmall(init, 5, 1);
    Store(init, 0, UnpackWords((t0, t1, t2, t3)));
  }

  /** X25519 for every key and every u-coordinate. */
  method ScalarMult(out: array<nat>, priv: array<nat>, pub: array<nat>)
    requires out.Length == 32 && Key(priv) && Key(pub)
    modifies out
    ensures Key(out) && Val(Base(8), out, 0, 32) == RfcX25519(old(Slice(priv, 0, 32)), old(Slice(pub, 0, 32)))
  {
    hide At, Fe, Tight, Loose, Eval, Pow, PowP, Base, IsLimbs, Slice, RfcDecodeU, RfcResult;
    var init := DecodePoint(pub);
    ghost var u := Fe(At(init, 0));
    MontgomeryLadder(init, priv, init);
    ghost var r := (Fe(At(init, 0)), Fe(At(init, 5)));
    EncodePoint(out, init);
    MulPSym(PowP(r.1, P - 2), r.0);
  }

  /** The shared secret, and whether it passes the all-zero check of section 6.1 of RFC 7748. */
  method Ecdh(out: array<nat>, priv: array<nat>, pub: array<nat>) returns (ok: bool)
    requires out.Length == 32 && Key(priv) && Key(pub)
    modifies out
    ensures Key(out) && Val(Base(8), out, 0, 32) == RfcX25519(old(Slice(priv, 0, 32)), old(Slice(pub, 0, 32)))
    ensures ok <==> RfcX25519(old(Slice(priv, 0, 32)), old(Slice(pub, 0, 32))) != 0
  {
    hide RfcX25519;
    ScalarMult(out, priv, pub);
    BaseAtLeastTwo(8);
    var z := Bignum256.BnIsZeroMask(8, 32, out);
    ok := z != Base(8) - 1;
  }
}
