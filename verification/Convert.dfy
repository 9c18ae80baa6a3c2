/** Bignums from and to big-endian byte strings, Hacl_Bignum.c, for words of wb bytes. */
module Convert {
  import opened Arith
  import opened Words
  import opened Limbs
  import opened Bytes

  function Reverse(s: seq<nat>): (r: seq<nat>)
    ensures |r| == |s| && forall i :: 0 <= i < |s| ==> r[i] == s[|s| - 1 - i]
  {
    seq(|s|, i requires 0 <= i < |s| => s[|s| - 1 - i])
  }

  /** The number a byte string stands for, highest byte first. */
  ghost function BeValue(s: seq<nat>): nat {
    Eval(Base(8), Reverse(s))
  }

  /** The base of words of wb bytes. */
  ghost function WordBase(wb: nat): nat {
    Pow(Base(8), wb)
  }

  lemma BeConcat(s: seq<nat>, t: seq<nat>)
    ensures BeValue(s + t) == Prod(Pow(Base(8), |t|), BeValue(s)) + BeValue(t)
  {
    hide Eval, Pow, Base;
    assert Reverse(s + t) == Reverse(t) + Reverse(s);
    EvalConcat(Base(8), Reverse(t), Reverse(s));
  }

  lemma BeBound(s: seq<nat>)
    requires IsLimbs(Base(8), s)
    ensures BeValue(s) < Pow(Base(8), |s|)
  {
    EvalBound(Base(8), Reverse(s));
  }

  /** Two byte strings of one length stand for the same number only if they are equal. */
  lemma BeInjective(s: seq<nat>, t: seq<nat>)
    requires |s| == |t| && IsLimbs(Base(8), s) && IsLimbs(Base(8), t) && BeValue(s) == BeValue(t)
    ensures s == t
  {
    EvalInjective(Base(8), Reverse(s), Reverse(t));
    assert s == Reverse(Reverse(s)) && t == Reverse(Reverse(t));
  }

  lemma BeZeros(n: nat, s: seq<nat>)
    ensures BeValue(seq(n, _ => 0) + s) == BeValue(s)
  {
    BeConcat(seq(n, _ => 0), s);
    EvalZeros(Base(8), Reverse(seq(n, _ => 0)));
  }

  /** The n bytes of a number hold its residue. */
  lemma {:induction false} BeResidue(x: nat, n: nat)
    ensures Pow(Base(8), n) > 0
    ensures IsLimbs(Base(8), BeBytes(x, n)) && BeValue(BeBytes(x, n)) == x % Pow(Base(8), n)
  {
    PowPositive(Base(8), n);
    if n > 0 {
      PowPositive(Base(8), n - 1);
      BeResidue(Shr(x, 8), n - 1);
      BeConcat(BeBytes(Shr(x, 8), n - 1), [Low(x, 8)]);
      EvalOne(Base(8), Low(x, 8));
      assert Reverse([Low(x, 8)]) == [Low(x, 8)];
      assert Pow(Base(8), 1) == Base(8);
      hide BeValue, BeBytes;
      ResidueSplit(x, Base(8), Pow(Base(8), n - 1));
    }
  }

  lemma ResidueSplit(x: nat, b: nat, p: nat)
    requires b > 0 && p > 0
    ensures b * p > 0 && x % (b * p) == b * (x / b % p) + x % b
  {
    var q, t := x / b, x / b % p;
    MulLe(1, p, b);
    MulLe(t + 1, p, b);
    assert q == q / p * p + t && x == q * b + x % b;
    assert x == q / p * (b * p) + (b * t + x % b) by { MulAssoc(q / p, p, b); MulDistrib(b, q / p * p, t); }
    DivModUnique(x, b * p, q / p, b * t + x % b);
  }

  lemma BeOfBytes(x: nat, n: nat)
    requires x < Pow(Base(8), n)
    ensures IsLimbs(Base(8), BeBytes(x, n)) && BeValue(BeBytes(x, n)) == x
  {
    hide BeValue, BeBytes, Base, Pow;
    BeResidue(x, n);
    DivModUnique(x, Pow(Base(8), n), 0, x);
  }

  /** load64_be and load32_be. */
  method LoadBe(b: array<nat>, off: nat, n: nat) returns (x: nat)
    requires off + n <= b.Length
    ensures x == BeValue(Slice(b, off, n))
  {
    x := 0;
    var i := 0;
    while i < n
      invariant 0 <= i <= n && x == BeValue(Slice(b, off, i))
    {
      SliceJoin(b, off, i, 1);
      BeConcat(Slice(b, off, i), [b[off + i]]);
      EvalOne(Base(8), b[off + i]);
      assert Reverse([b[off + i]]) == [b[off + i]] == Slice(b, off + i, 1);
      x := Base(8) * x + b[off + i];
      i := i + 1;
    }
  }

  /** The words that len bytes take. */
  function WordsFor(len: nat, wb: nat): nat
    requires len > 0 && wb > 0
  {
    (len - 1) / wb + 1
  }

  lemma WordsCover(len: nat, wb: nat)
    requires len > 0 && wb > 0
    ensures len <= Prod(WordsFor(len, wb), wb)
  {
  }

  /** One more word in front of i words read from the end of tmp. */
  lemma WordInFront(tmp: array<nat>, i: nat, n: nat, wb: nat, limbs: seq<nat>, d: nat)
    requires i < n && tmp.Length == Prod(n, wb) && |limbs| == i
    requires Prod(n - i - 1, wb) + wb + Prod(i, wb) == tmp.Length
    requires Eval(WordBase(wb), limbs) == BeValue(Slice(tmp, Prod(n - i - 1, wb) + wb, Prod(i, wb)))
    requires d == BeValue(Slice(tmp, Prod(n - i - 1, wb), wb))
    ensures Eval(WordBase(wb), limbs + [d]) == BeValue(Slice(tmp, Prod(n - i - 1, wb), wb + Prod(i, wb)))
  {
    hide BeValue, Slice;
    var o := Prod(n - i - 1, wb);
    SliceJoin(tmp, o, wb, Prod(i, wb));
    BeConcat(Slice(tmp, o, wb), Slice(tmp, o + wb, Prod(i, wb)));
    EvalSnoc(WordBase(wb), limbs, d);
    PowMul(Base(8), wb, i);
    SliceLength(tmp, o + wb, Prod(i, wb));
    ProdSym(i, wb);
    hide Pow;
    assert Pow(Base(8), Prod(i, wb)) == Pow(WordBase(wb), i);
  }

  lemma SliceLength(a: array<nat>, i: nat, n: nat)
    requires i + n <= a.Length
    ensures |Slice(a, i, n)| == n
  {
  }

  lemma WordsSplit(i: nat, n: nat, wb: nat)
    requires i < n
    ensures Prod(n - i - 1, wb) + wb + Prod(i, wb) == Prod(n, wb) && Prod(i + 1, wb) == wb + Prod(i, wb)
    ensures Prod(n - i, wb) == Prod(n - i - 1, wb) + wb
  {
  }

  /** The words of tmp from its end to its front, lowest word first. */
  method LoadWords(tmp: array<nat>, n: nat, wb: nat, res: array<nat>)
    requires tmp.Length == Prod(n, wb) && n <= res.Length && res != tmp && IsLimbs(Base(8), tmp[..])
    modifies res
    ensures Val(WordBase(wb), res, 0, n) == BeValue(tmp[..]) && IsLimbs(WordBase(wb), Slice(res, 0, n))
    ensures res[n..] == old(res[n..])
  {
    hide BeValue, WordBase, Prod;
    var i := 0;
    NoWords(tmp, n, wb);
    while i < n
      invariant 0 <= i <= n && tmp.Length == Prod(n, wb) == Prod(n - i, wb) + Prod(i, wb)
      invariant Eval(WordBase(wb), res[..i]) == BeValue(Slice(tmp, Prod(n - i, wb), Prod(i, wb)))
      invariant IsLimbs(WordBase(wb), res[..i]) && res[n..] == old(res[n..])
    {
      WordsSplit(i, n, wb);
      var d := LoadBe(tmp, Prod(n - i - 1, wb), wb);
      WordBound(tmp, Prod(n - i - 1, wb), wb);
      ghost var limbs := res[..i];
      WordInFront(tmp, i, n, wb, limbs, d);
      res[i] := d;
      assert res[..i + 1] == limbs + [d];
      i := i + 1;
    }
    AllWords(tmp, n, wb);
    assert res[..n] == Slice(res, 0, n);
  }

  lemma NoWords(tmp: array<nat>, n: nat, wb: nat)
    requires tmp.Length == Prod(n, wb)
    ensures Prod(0, wb) == 0 && Eval(WordBase(wb), []) == BeValue(Slice(tmp, Prod(n, wb), 0))
  {
    assert Reverse([]) == [];
  }

  lemma AllWords(tmp: array<nat>, n: nat, wb: nat)
    requires tmp.Length == Prod(n, wb)
    ensures Prod(0, wb) == 0 && Slice(tmp, 0, Prod(n, wb)) == tmp[..]
  {
  }

  lemma WordBound(tmp: array<nat>, off: nat, wb: nat)
    requires off + wb <= tmp.Length && IsLimbs(Base(8), tmp[..])
    ensures BeValue(Slice(tmp, off, wb)) < WordBase(wb)
  {
    assert Slice(tmp, off, wb) == tmp[..][off..off + wb];
    BeBound(Slice(tmp, off, wb));
  }

  /** The bytes, right-aligned in whole words. */
  method BnFromBytesBe(wb: nat, len: nat, b: array<nat>, res: array<nat>)
    requires wb > 0 && 0 < len <= b.Length && WordsFor(len, wb) <= res.Length && b != res
    requires IsLimbs(Base(8), b[..len])
    modifies res
    ensures Val(WordBase(wb), res, 0, WordsFor(len, wb)) == BeValue(b[..len])
    ensures IsLimbs(WordBase(wb), Slice(res, 0, WordsFor(len, wb)))
    ensures res[WordsFor(len, wb)..] == old(res[WordsFor(len, wb)..])
  {
    hide Prod, WordsFor, BeValue, WordBase;
    var n := WordsFor(len, wb);
    WordsCover(len, wb);
    var tmpLen := Prod(n, wb);
    var tmp := new nat[tmpLen](_ => 0);
    Memcpy(len, b, 0, tmp, tmpLen - len);
    assert tmp[..] == seq(tmpLen - len, _ => 0) + b[..len] by {
      SliceJoin(tmp, 0, tmpLen - len, len);
    }
    BeZeros(tmpLen - len, b[..len]);
    LoadWords(tmp, n, wb, res);
  }

  /** One more word behind i words written to the front of tmp. */
  lemma WordBehind(tmp: array<nat>, b: array<nat>, i: nat, n: nat, wb: nat, before: seq<nat>)
    requires i < n <= b.Length && Prod(i, wb) + wb <= tmp.Length && b[n - i - 1] < WordBase(wb)
    requires before == Slice(tmp, 0, Prod(i, wb)) && IsLimbs(Base(8), before)
    requires BeValue(before) == Val(WordBase(wb), b, n - i, i)
    requires Slice(tmp, Prod(i, wb), wb) == BeBytes(b[n - i - 1], wb)
    ensures IsLimbs(Base(8), Slice(tmp, 0, Prod(i, wb) + wb))
    ensures BeValue(Slice(tmp, 0, Prod(i, wb) + wb)) == Val(WordBase(wb), b, n - i - 1, i + 1)
  {
    var d := b[n - i - 1];
    assert Slice(b, n - i - 1, i + 1)[1..] == Slice(b, n - i, i);
    assert Val(WordBase(wb), b, n - i - 1, i + 1) == d + WordBase(wb) * Val(WordBase(wb), b, n - i, i);
    SliceJoin(tmp, 0, Prod(i, wb), wb);
    hide BeValue, Slice, Base, BeBytes, Val;
    BeOfBytes(d, wb);
    BeConcat(before, BeBytes(d, wb));
  }

  /** The words of b from the highest to the lowest. */
  method StoreWords(b: array<nat>, n: nat, wb: nat, tmp: array<nat>)
    requires tmp.Length == Prod(n, wb) && n <= b.Length && b != tmp && IsLimbs(WordBase(wb), b[..n])
    modifies tmp
    ensures IsLimbs(Base(8), tmp[..]) && BeValue(tmp[..]) == Val(WordBase(wb), b, 0, n)
  {
    hide BeValue, WordBase, Prod, Slice, BeBytes, Val, Base;
    var i := 0;
    NoBytes(tmp, b, n, wb);
    while i < n
      invariant 0 <= i <= n && tmp.Length == Prod(n, wb) == Prod(n - i, wb) + Prod(i, wb)
      invariant IsLimbs(Base(8), Slice(tmp, 0, Prod(i, wb)))
      invariant BeValue(Slice(tmp, 0, Prod(i, wb))) == Val(WordBase(wb), b, n - i, i)
    {
      WordsSplit(i, n, wb);
      ghost var before := Slice(tmp, 0, Prod(i, wb));
      assert b[..n][n - i - 1] == b[n - i - 1];
      StoreBe(tmp, Prod(i, wb), wb, b[n - i - 1]);
      WordBehind(tmp, b, i, n, wb, before);
      i := i + 1;
    }
    AllWords(tmp, n, wb);
  }

  lemma NoBytes(tmp: array<nat>, b: array<nat>, n: nat, wb: nat)
    requires n <= b.Length
    ensures Prod(0, wb) == 0 && Slice(tmp, 0, 0) == [] && BeValue([]) == Val(WordBase(wb), b, n, 0) == 0
  {
    assert Reverse([]) == [];
  }

  /** The value modulo 256^len: the bytes of the top word that do not fit are dropped. */
  method BnToBytesBe(wb: nat, len: nat, b: array<nat>, res: array<nat>)
    requires wb > 0 && 0 < len <= res.Length && WordsFor(len, wb) <= b.Length
    requires IsLimbs(WordBase(wb), b[..WordsFor(len, wb)])
    modifies res
    ensures IsLimbs(Base(8), res[..len])
    ensures Pow(Base(8), len) > 0
    ensures BeValue(res[..len]) == old(Val(WordBase(wb), b, 0, WordsFor(len, wb))) % Pow(Base(8), len)
    ensures res[len..] == old(res[len..])
  {
    hide Prod, WordsFor, BeValue, WordBase, Pow, Val;
    var n := WordsFor(len, wb);
    WordsCover(len, wb);
    var tmpLen := Prod(n, wb);
    var tmp := new nat[tmpLen](_ => 0);
    ghost var v := Val(WordBase(wb), b, 0, n);
    StoreWords(b, n, wb, tmp);
    ghost var all := tmp[..];
    LowBytes(all[..tmpLen - len], all[tmpLen - len..]);
    assert all == all[..tmpLen - len] + all[tmpLen - len..];
    assert Slice(res, len, res.Length - len) == res[len..];
    Memcpy(len, tmp, tmpLen - len, res, 0);
    assert Slice(res, len, res.Length - len) == res[len..];
    assert res[..len] == all[tmpLen - len..];
  }

  lemma LowBytes(s: seq<nat>, t: seq<nat>)
    requires IsLimbs(Base(8), t)
    ensures Pow(Base(8), |t|) > 0 && BeValue(t) == BeValue(s + t) % Pow(Base(8), |t|)
  {
    hide BeValue, Pow, Base;
    BeConcat(s, t);
    BeBound(t);
    DivModUnique(BeValue(s + t), Pow(Base(8), |t|), BeValue(s), BeValue(t));
  }

  /** Bytes read into a bignum and written back are the same bytes. */
  lemma BytesRoundTrip(bytes: seq<nat>, out: seq<nat>, v: nat)
    requires IsLimbs(Base(8), bytes) && IsLimbs(Base(8), out) && |out| == |bytes|
    requires v == BeValue(bytes) && Pow(Base(8), |out|) > 0 && BeValue(out) == v % Pow(Base(8), |out|)
    ensures out == bytes
  {
    hide BeValue, Pow, Base;
    BeBound(bytes);
    DivModUnique(v, Pow(Base(8), |out|), 0, v);
    BeInjective(out, bytes);
  }

  /** Limbs written to enough bytes and read back are the same limbs. */
  lemma LimbsRoundTrip(wb: nat, limbs: seq<nat>, back: seq<nat>, bytes: seq<nat>)
    requires WordBase(wb) > 0 && IsLimbs(WordBase(wb), limbs) && IsLimbs(WordBase(wb), back) && |limbs| == |back|
    requires Eval(WordBase(wb), limbs) < Pow(Base(8), |bytes|)
    requires BeValue(bytes) == Eval(WordBase(wb), limbs) % Pow(Base(8), |bytes|)
    requires Eval(WordBase(wb), back) == BeValue(bytes)
    ensures back == limbs
  {
    hide *;
    DivModUnique(Eval(WordBase(wb), limbs), Pow(Base(8), |bytes|), 0, Eval(WordBase(wb), limbs));
    EvalInjective(WordBase(wb), limbs, back);
  }

  /** The conversions one after the other: every byte string of at least one byte comes back. */
  method BytesThereAndBack(wb: nat, len: nat, b: array<nat>) returns (out: array<nat>)
    requires wb > 0 && 0 < len <= b.Length && IsLimbs(Base(8), b[..len])
    ensures fresh(out) && out.Length == len && out[..] == b[..len]
  {
    hide BeValue, WordBase, WordsFor, Val, Pow, Base;
    var limbs := new nat[WordsFor(len, wb)];
    out := new nat[len];
    BnFromBytesBe(wb, len, b, limbs);
    assert limbs[..WordsFor(len, wb)] == Slice(limbs, 0, WordsFor(len, wb));
    ghost var v := Val(WordBase(wb), limbs, 0, WordsFor(len, wb));
    BnToBytesBe(wb, len, limbs, out);
    BytesRoundTrip(b[..len], out[..len], v);
    assert out[..] == out[..len];
  }

  /** The other way round: a bignum that fits the bytes comes back. */
  method LimbsThereAndBack(wb: nat, len: nat, b: array<nat>) returns (out: array<nat>)
    requires wb > 0 && len > 0 && WordsFor(len, wb) == b.Length && IsLimbs(WordBase(wb), b[..])
    requires Val(WordBase(wb), b, 0, b.Length) < Pow(Base(8), len)
    ensures fresh(out) && out[..] == b[..]
  {
    hide BeValue, WordBase, WordsFor, Pow, Base, Eval;
    var bytes := new nat[len];
    out := new nat[b.Length];
    assert b[..WordsFor(len, wb)] == b[..] == Slice(b, 0, b.Length);
    BnToBytesBe(wb, len, b, bytes);
    assert bytes[..] == bytes[..len];
    BnFromBytesBe(wb, len, bytes, out);
    assert out[..] == Slice(out, 0, b.Length);
    BasePositive(wb);
    LimbsRoundTrip(wb, b[..], out[..], bytes[..]);
  }

  lemma BasePositive(wb: nat)
    ensures WordBase(wb) > 0
  {
    PowPositive(Base(8), wb);
  }
}
