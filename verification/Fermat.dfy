/** Fermat's little theorem, which the inverse modulo a prime by exponentiation rests on. */
module Fermat {
  import opened Arith

  ghost predicate Prime(p: nat) {
    p > 1 && forall d :: 1 < d < p ==> p % d != 0
  }

  /** Euclid's lemma by descent: if p divides k * m and 0 < k < p then p divides m. */
  lemma {:induction false} Euclid(p: nat, k: nat, m: int)
    requires Prime(p) && 0 < k < p && Cong(k * m, 0, p)
    ensures Cong(m, 0, p)
    decreases k
  {
    if k > 1 {
      var q, r := p / k, p % k;
      assert p == q * k + r;
      assert r * m == p * m - q * (k * m) by { MulDistrib(m, p, q * k); MulAssoc(q, k, m); }
      CongMul(q, q, k * m, 0, p);
      CongIntro(p * m, 0, m, p);
      CongAdd(p * m, 0, q * (k * m), 0, p);
      Euclid(p, r, m);
    }
  }

  function Choose(n: nat, k: nat): nat {
    if k == 0 then 1 else if n == 0 then 0 else Choose(n - 1, k - 1) + Choose(n - 1, k)
  }

  lemma {:induction false} ChooseAbove(n: nat, k: nat)
    requires k >= n
    ensures Choose(n, k) == if k == n then 1 else 0
  {
    if n > 0 {
      ChooseAbove(n - 1, k - 1);
      ChooseAbove(n - 1, k);
    }
  }

  lemma {:induction false} Absorb(n: nat, k: nat)
    requires n > 0 && k > 0
    ensures k * Choose(n, k) == n * Choose(n - 1, k - 1)
  {
    if n == 1 {
      ChooseAbove(1, k);
      ChooseAbove(0, k - 1);
    } else if k > 1 {
      var x, y, z := Choose(n - 1, k - 1), Choose(n - 1, k), Choose(n - 2, k - 2);
      Absorb(n - 1, k - 1);
      Absorb(n - 1, k);
      assert x == z + Choose(n - 2, k - 1);
      AbsorbArith(n, k, x, y, z, Choose(n - 2, k - 1));
    } else {
      Absorb(n - 1, 1);
      assert Choose(n, 1) == Choose(n - 1, 0) + Choose(n - 1, 1);
    }
  }

  lemma AbsorbArith(n: nat, k: nat, x: nat, y: nat, z: nat, u: nat)
    requires (k - 1) * x == (n - 1) * z && k * y == (n - 1) * u && x == z + u
    ensures k * (x + y) == n * x
  {
  }

  /** The terms of (x + 1)^n below x^m. */
  function Terms(n: nat, m: nat, x: nat): nat {
    if m == 0 then 0 else Terms(n, m - 1, x) + Choose(n, m - 1) * Pow(x, m - 1)
  }

  lemma {:induction false} TermsStep(n: nat, m: nat, x: nat)
    requires m > 0
    ensures Terms(n + 1, m, x) == Terms(n, m, x) + x * Terms(n, m - 1, x)
  {
    if m > 1 {
      TermsStep(n, m - 1, x);
      TermsArith(Terms(n, m - 1, x), Terms(n, m - 2, x), Choose(n, m - 2), Choose(n, m - 1), x, Pow(x, m - 2));
    }
  }

  lemma TermsArith(s: nat, t: nat, c: nat, d: nat, x: nat, q: nat)
    ensures (s + x * t) + (c + d) * (x * q) == (s + d * (x * q)) + x * (t + c * q)
  {
    MulDistrib(x * q, c, d); MulSwap(x, c, q);
    MulDistrib(x, t, c * q);
  }

  lemma {:induction false} Binomial(n: nat, x: nat)
    ensures Pow(x + 1, n) == Terms(n, n + 1, x)
  {
    if n > 0 {
      Binomial(n - 1, x);
      TermsStep(n - 1, n + 1, x);
      ChooseAbove(n - 1, n);
      var t := Terms(n - 1, n, x);
      assert (x + 1) * t == t + x * t;
    } else {
      assert Terms(0, 1, x) == Terms(0, 0, x) + Choose(0, 0) * Pow(x, 0);
    }
  }

  /** Modulo a prime only the first and the last term of (x + 1)^p remain. */
  lemma {:induction false} MiddleTerms(p: nat, m: nat, x: nat)
    requires Prime(p) && 0 < m <= p
    ensures Cong(Terms(p, m, x), 1, p)
  {
    if m > 1 {
      var k := m - 1;
      MiddleTerms(p, k, x);
      Absorb(p, k);
      CongIntro(k * Choose(p, k), 0, Choose(p - 1, k - 1), p);
      Euclid(p, k, Choose(p, k));
      CongMul(Choose(p, k), 0, Pow(x, k), Pow(x, k), p);
      CongAdd(Terms(p, k, x), 1, Choose(p, k) * Pow(x, k), 0, p);
    } else {
      assert Terms(p, 1, x) == Terms(p, 0, x) + Choose(p, 0) * Pow(x, 0);
    }
  }

  lemma {:induction false} FermatPower(p: nat, x: nat)
    requires Prime(p)
    ensures Cong(Pow(x, p), x, p)
  {
    if x > 0 {
      var y := x - 1;
      FermatPower(p, y);
      Binomial(p, y);
      MiddleTerms(p, p, y);
      ChooseAbove(p, p);
      assert Pow(x, p) == Terms(p, p, y) + Pow(y, p);
      CongAdd(Terms(p, p, y), 1, Pow(y, p), y, p);
    }
  }

  /** a^(p - 2) is the inverse of a modulo a prime p. */
  lemma InverseByPower(p: nat, a: nat)
    requires Prime(p) && 0 < a < p
    ensures a * (Pow(a, p - 2) % p) % p == 1
  {
    var u := Pow(a, p - 2);
    FermatPower(p, a);
    assert Pow(a, p) == a * Pow(a, p - 1) == a * (a * u);
    CongAdd(a * (a * u), a, a, a, p);
    MulDistrib(a, a * u, 1);
    Euclid(p, a, a * u - 1);
    CongAdd(a * u - 1, 0, 1, 1, p);
    CongMod(u, p);
    CongMul(a, a, u % p, u, p);
    DivModUnique(1, p, 0, 1);
  }
}
