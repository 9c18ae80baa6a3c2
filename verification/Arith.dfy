/** Powers and congruences: the integer mathematics that the limb code refines. */
module Arith {

  function Pow(b: nat, e: nat): nat {
    if e == 0 then 1 else b * Pow(b, e - 1)
  }

  lemma {:induction false} PowPositive(b: nat, e: nat)
    requires b > 0
    ensures Pow(b, e) > 0
  {
    if e > 0 { PowPositive(b, e - 1); }
  }

  lemma PowSuccessor(b: nat, e: nat)
    ensures Pow(b, e + 1) == b * Pow(b, e)
  {
  }

  lemma {:induction false} PowAdd(b: nat, e: nat, f: nat)
    ensures Pow(b, e + f) == Pow(b, e) * Pow(b, f)
  {
    if e > 0 {
      PowAdd(b, e - 1, f);
      MulAssoc(b, Pow(b, e - 1), Pow(b, f));
    }
  }

  lemma {:induction false} PowMul(b: nat, e: nat, f: nat)
    ensures Pow(Pow(b, e), f) == Pow(b, e * f)
  {
    if f > 0 {
      PowMul(b, e, f - 1);
      MulDistrib(e, f - 1, 1);
      PowAdd(b, e, e * (f - 1));
    }
  }

  lemma {:induction false} PowMonotonic(b: nat, e: nat, f: nat)
    requires b > 0 && e <= f
    ensures Pow(b, e) <= Pow(b, f)
  {
    PowAdd(b, e, f - e);
    PowPositive(b, f - e);
    MulLe(1, Pow(b, f - e), Pow(b, e));
  }

  /** The product of two natural numbers is one: spares a caller the proof. */
  function Prod(x: nat, y: nat): nat {
    x * y
  }

  lemma ProdSym(x: nat, y: nat)
    ensures Prod(x, y) == Prod(y, x)
  {
  }

  lemma ProdBound(x: nat, X: nat, y: nat, Y: nat)
    requires x <= X && y <= Y
    ensures Prod(x, y) <= X * Y
  {
  }

  /** A number times a weighted sum of five limbs. */
  lemma ScaleFive(x: nat, p1: nat, p2: nat, p3: nat, p4: nat, g0: nat, g1: nat, g2: nat, g3: nat, g4: nat)
    ensures x * (g0 + p1 * g1 + p2 * g2 + p3 * g3 + p4 * g4)
         == x * g0 + p1 * (x * g1) + p2 * (x * g2) + p3 * (x * g3) + p4 * (x * g4)
  {
    var w1, w2, w3, w4 := p1 * g1, p2 * g2, p3 * g3, p4 * g4;
    assert x * (g0 + w1 + w2 + w3 + w4) == x * g0 + x * w1 + x * w2 + x * w3 + x * w4 by {
      MulDistrib(x, g0 + w1 + w2 + w3, w4); MulDistrib(x, g0 + w1 + w2, w3);
      MulDistrib(x, g0 + w1, w2); MulDistrib(x, g0, w1);
    }
    MulSwap(x, p1, g1); MulSwap(x, p2, g2); MulSwap(x, p3, g3); MulSwap(x, p4, g4);
  }

  lemma MulSwap(x: int, p: int, g: int)
    ensures x * (p * g) == p * (x * g)
  {
  }

  lemma MulAssoc(x: int, y: int, z: int)
    ensures x * (y * z) == (x * y) * z
  {
  }

  lemma MulDistrib(x: int, y: int, z: int)
    ensures x * (y + z) == x * y + x * z
    ensures x * (y - z) == x * y - x * z
  {
  }

  /** Distribution over a sum that goes by another name. */
  lemma MulSum(p: int, z: int, x: int, y: int)
    requires z == x + y
    ensures p * z == p * x + p * y
  {
  }

  lemma MulLe(x: int, y: int, z: nat)
    requires x <= y
    ensures x * z <= y * z && z * x <= z * y
  {
  }

  lemma MulLt(x: int, y: int, z: int)
    requires x < y && z > 0
    ensures x * z < y * z && z * x < z * y
  {
  }

  /** Uniqueness of quotient and remainder. */
  lemma DivModUnique(x: int, d: int, q: int, r: int)
    requires 0 <= r < d && x == q * d + r
    ensures x / d == q && x % d == r
  {
    var q', r' := x / d, x % d;
    assert x == q' * d + r';
    assert (q - q') * d == r' - r by { MulDistrib(d, q, q'); }
    if q - q' >= 1 { MulLe(1, q - q', d); }
    if q - q' <= -1 { MulLe(q - q', -1, d); }
  }

  lemma DivBound(x: int, d: nat, k: int)
    requires d > 0 && 0 <= x < d * k
    ensures 0 <= x / d < k
  {
  }

  // ---- congruence modulo n ----

  /** x and y leave the same remainder modulo n. */
  ghost predicate Cong(x: int, y: int, n: int)
    requires n > 0
  {
    x % n == y % n
  }

  /** A difference that is an explicit multiple gives a congruence ... */
  lemma CongIntro(x: int, y: int, k: int, n: int)
    requires n > 0 && x == y + k * n
    ensures Cong(x, y, n)
  {
    var q, r := y / n, y % n;
    assert y == q * n + r;
    assert x == (q + k) * n + r by { MulDistrib(n, q, k); }
    DivModUnique(x, n, q + k, r);
  }

  /** ... and back. */
  lemma CongElim(x: int, y: int, n: int) returns (k: int)
    requires n > 0 && Cong(x, y, n)
    ensures x == y + k * n
  {
    k := x / n - y / n;
    MulDistrib(n, x / n, y / n);
  }

  lemma CongAdd(x: int, x': int, y: int, y': int, n: int)
    requires n > 0 && Cong(x, x', n) && Cong(y, y', n)
    ensures Cong(x + y, x' + y', n) && Cong(x - y, x' - y', n)
  {
    var k := CongElim(x, x', n);
    var l := CongElim(y, y', n);
    MulDistrib(n, k, l);
    CongIntro(x + y, x' + y', k + l, n);
    CongIntro(x - y, x' - y', k - l, n);
  }

  lemma CongMul(x: int, x': int, y: int, y': int, n: int)
    requires n > 0 && Cong(x, x', n) && Cong(y, y', n)
    ensures Cong(x * y, x' * y', n)
  {
    var k := CongElim(x, x', n);
    var l := CongElim(y, y', n);
    assert x * y == x' * y' + (k * y + x' * l) * n by {
      calc {
        x * y;
        (x' + k * n) * y;
        x' * y + (k * n) * y;
        x' * (y' + l * n) + (k * n) * y;
        x' * y' + x' * (l * n) + (k * n) * y;
        { MulAssoc(x', l, n); assert (k * n) * y == (k * y) * n by { MulAssoc(k, n, y); MulAssoc(k, y, n); } }
        x' * y' + (x' * l) * n + (k * y) * n;
        { MulDistrib(n, x' * l, k * y); }
        x' * y' + (k * y + x' * l) * n;
      }
    }
    CongIntro(x * y, x' * y', k * y + x' * l, n);
  }

  lemma CongMod(x: int, n: int)
    requires n > 0
    ensures Cong(x % n, x, n)
  {
    CongIntro(x, x % n, x / n, n);
  }

  lemma PowTwo(x: nat)
    ensures Pow(x, 2) == Prod(x, x) && Pow(2, 1) == 2
  {
    PowSuccessor(x, 1); PowSuccessor(x, 0); PowSuccessor(2, 0);
  }

  /** A product may be reduced before or after. */
  lemma ProdMod(x: nat, y: nat, n: nat)
    requires n > 0
    ensures Prod(x, y) % n == Prod(x % n, y % n) % n
  {
    CongMod(x, n);
    CongMod(y, n);
    CongMul(x % n, x, y % n, y, n);
  }

  lemma {:induction false} CongPow(x: nat, y: nat, e: nat, n: int)
    requires n > 0 && Cong(x, y, n)
    ensures Cong(Pow(x, e), Pow(y, e), n)
  {
    if e > 0 {
      CongPow(x, y, e - 1, n);
      CongMul(x, y, Pow(x, e - 1), Pow(y, e - 1), n);
    }
  }

  /** A factor with an inverse can be cancelled. */
  lemma CongCancel(x: int, y: int, r: int, rinv: int, n: int)
    requires n > 0 && Cong(r * rinv, 1, n) && Cong(x * r, y * r, n)
    ensures Cong(x, y, n)
  {
    CongMul(x * r, y * r, rinv, rinv, n);
    MulAssoc(x, r, rinv);
    MulAssoc(y, r, rinv);
    CongMul(x, x, r * rinv, 1, n);
    CongMul(y, y, r * rinv, 1, n);
  }

  /** 2 is invertible modulo an odd number, hence so is every power of 2. */
  lemma {:induction false} PowTwoInvertible(n: int, e: nat) returns (inv: nat)
    requires n > 0 && n % 2 == 1
    ensures Cong(Pow(2, e) * inv, 1, n)
  {
    if e == 0 {
      inv := 1;
    } else {
      var h := PowTwoInvertible(n, e - 1);
      var half := (n + 1) / 2;
      inv := half * h;
      CongIntro(2 * half, 1, 1, n);
      CongMul(2 * half, 1, Pow(2, e - 1) * h, 1, n);
      assert Pow(2, e) * inv == (2 * half) * (Pow(2, e - 1) * h) by {
        var p := Pow(2, e - 1);
        assert (2 * p) * (half * h) == (2 * half) * (p * h) by {
          MulAssoc(p, half, h); MulAssoc(half, p, h);
        }
      }
    }
  }
}
