/** Divisibility, odd moduli and prime moduli. */
module Primes {
  import opened Arith
  import opened Modular
  import opened Words

  predicate Divides(d: int, n: int)
  {
    d != 0 && n % d == 0
  }

  ghost function NoDivisor(p: int): Verdict {
    if forall d :: 2 <= d < p ==> !Divides(d, p) then Holds else Fails
  }

  ghost predicate IsPrime(p: int)
  {
    p >= 2 && NoDivisor(p).Holds?
  }

  lemma PrimeMeans(p: int)
    ensures IsPrime(p) <==> p >= 2 && forall d :: 2 <= d < p ==> p % d != 0
  {
    if IsPrime(p) {
      forall d | 2 <= d < p ensures p % d != 0 { assert !Divides(d, p); }
    }
  }

  lemma DividesByMultiple(d: int, n: int, k: int)
    requires d > 0 && n == d * k
    ensures Divides(d, n)
  {
    DivModUnique(n, k, 0, d);
  }

  /** A factor of a prime is 1 or the prime. */
  lemma PrimeFactor(p: int, d: int, k: int)
    requires IsPrime(p) && d >= 1 && p == d * k
    ensures d == 1 || d == p
  {
    DividesByMultiple(d, p, k);
    if d > p {
      if k <= 0 { MulLe(d, k, 0); assert false; }
      MulLe(d, 1, k);
      assert false;
    }
  }

  lemma ZeroCong(z: int, m: int) returns (k: int)
    requires m > 0 && Cong(z, 0, m)
    ensures z == k * m
  {
    k := CongMultiple(z, 0, m);
  }

  lemma CongZero(z: int, m: int, k: int)
    requires m > 0 && z == k * m
    ensures Cong(z, 0, m)
  {
    CongByMultiple(z, 0, m, k);
  }

  /** Nonzero residues are nonzero modulo m. */
  lemma SmallNotZero(a: int, m: int)
    requires 0 < a < m
    ensures !Cong(a, 0, m)
  {
    SmallZero(a, m);
  }

  /** Powers of two can be cancelled modulo an odd number. */
  lemma {:induction false} CancelPow2(z: int, k: nat, m: int)
    requires m > 0 && m % 2 == 1 && Cong(Pow2(k) * z, 0, m)
    ensures Cong(z, 0, m)
    decreases k
  {
    if k > 0 {
      var y := Pow2(k - 1) * z;
      Assoc(2, Pow2(k - 1), z);
      var t := ZeroCong(Pow2(k) * z, m);
      // 2 y = t m with m odd, so t is even
      OddFactor(y, t, m);
      CongZero(y, m, t / 2);
      CancelPow2(z, k - 1, m);
    }
  }

  lemma OddFactor(y: int, t: int, m: int)
    requires m % 2 == 1 && 2 * y == t * m
    ensures t % 2 == 0 && y == (t / 2) * m
  {
    var h, n := t / 2, m / 2;
    if t % 2 == 1 {
      Distrib(2 * h + 1, 2 * n, 1);
      Assoc(2, 2 * h + 1, n);
      Assoc(2 * h + 1, 2, n);
      assert false;
    }
    assert t == 2 * h;
    assert t * m == 2 * (h * m);
  }

  /** An inverse modulo a prime. */
  lemma {:induction false} InverseExists(a: int, p: int) returns (b: int)
    requires IsPrime(p) && 0 < a < p
    ensures Cong(a * b, 1, p)
    decreases a
  {
    if a == 1 {
      b := 1;
    } else {
      var q, r := p / a, p % a;
      DivMod(p, a);
        assert !Divides(a, p);
      var c := InverseExists(r, p);
      b := -q * c;
      // a b = -(q a) c = (r - p) c
      var k := CongMultiple(r * c, 1, p);
      InverseStep(a, q, r, c, p, b);
      assert a * b - 1 == (k - c) * p by { Distrib(p, k, c); }
      CongByMultiple(a * b, 1, p, k - c);
    }
  }

  lemma InverseStep(a: int, q: int, r: int, c: int, p: int, b: int)
    requires p == a * q + r && b == -q * c
    ensures a * b == r * c - c * p
  {
    Assoc(a, -q, c);
    MulEq(c, p, a * q + r);
    Distrib(c, a * q, r);
    assert a * -q == -(a * q);
    assert (-(a * q)) * c == -((a * q) * c);
  }

  /** A residue has an inverse unless it is zero. */
  lemma Unit(a: int, p: int) returns (c: int)
    requires IsPrime(p) && !Cong(a, 0, p)
    ensures Cong(a * c, 1, p)
  {
    CongMod(a, p);
    c := InverseExists(a % p, p);
    CongMul(a, a % p, c, c, p);
    CongTrans(a * c, (a % p) * c, 1, p);
  }

  /** A prime dividing a product divides a factor. */
  lemma EuclidLemma(a: int, b: int, p: int)
    requires IsPrime(p) && Cong(a * b, 0, p) && !Cong(a, 0, p)
    ensures Cong(b, 0, p)
  {
    // b = (a c) b = c (a b) = 0
    var c := Unit(a, p);
    CongMul(a * c, 1, b, b, p);
    CongMul(c, c, a * b, 0, p);
    Assoc(c, a, b);
  }

  /** Cancelling a unit. */
  lemma CancelFactor(a: int, b: int, c: int, p: int)
    requires IsPrime(p) && !Cong(a, 0, p) && Cong(a * b, a * c, p)
    ensures Cong(b, c, p)
  {
    CongAdd(a * b, a * c, a * c, a * c, p);
    Distrib(a, b, c);
    EuclidLemma(a, b - c, p);
    CongAdd(b - c, 0, c, c, p);
  }

  lemma OddPrime(p: int)
    requires IsPrime(p) && p > 2
    ensures p % 2 == 1
  {
    assert !Divides(2, p);
  }

  predicate IsInverse(a: int, r: int, p: int)
    requires p > 0
  {
    0 <= r < p && Cong(a * r, 1, p)
  }

  lemma UnitExists(a: int, p: int)
    requires IsPrime(p) && !Cong(a, 0, p)
    ensures exists r :: IsInverse(a, r, p)
  {
    var c := Unit(a, p);
    var r := c % p;
    CongMod(c, p);
    CongMul(a, a, r, c, p);
    assert IsInverse(a, r, p);
  }

  /** The inverse modulo a prime. */
  ghost function Inv(a: int, p: int): (r: int)
    requires IsPrime(p) && !Cong(a, 0, p)
    ensures IsInverse(a, r, p)
  {
    UnitExists(a, p);
    var r :| IsInverse(a, r, p);
    r
  }
}
