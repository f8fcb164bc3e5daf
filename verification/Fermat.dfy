/** Fermat's little theorem, and square roots modulo a prime p = 3 mod 4. */
module Fermat {
  import opened Arith
  import opened Modular
  import opened Words
  import opened Primes

  function Power(a: int, n: nat): int {
    if n == 0 then 1 else a * Power(a, n - 1)
  }

  lemma {:induction false} PowerAdd(a: int, m: nat, n: nat)
    ensures Power(a, m + n) == Power(a, m) * Power(a, n)
  {
    if m > 0 {
      PowerAdd(a, m - 1, n);
      Assoc(a, Power(a, m - 1), Power(a, n));
    }
  }

  lemma {:induction false} PowerProduct(a: int, b: int, n: nat)
    ensures Power(a * b, n) == Power(a, n) * Power(b, n)
  {
    if n > 0 {
      PowerProduct(a, b, n - 1);
      Interchange(a, b, Power(a, n - 1), Power(b, n - 1));
    }
  }

  lemma {:induction false} PowerCong(a: int, b: int, n: nat, p: int)
    requires p > 0 && Cong(a, b, p)
    ensures Cong(Power(a, n), Power(b, n), p)
  {
    if n > 0 {
      PowerCong(a, b, n - 1, p);
      CongMul(a, b, Power(a, n - 1), Power(b, n - 1), p);
    }
  }

  lemma {:induction false} PowerSquare(a: int, n: nat)
    ensures Power(a * a, n) == Power(a, 2 * n)
  {
    PowerProduct(a, a, n);
    PowerAdd(a, n, n);
  }

  function Choose(n: nat, k: nat): nat {
    if k == 0 then 1 else if n == 0 then 0 else Choose(n - 1, k - 1) + Choose(n - 1, k)
  }

  lemma {:induction false} ChooseFull(n: nat, k: nat)
    requires k >= n
    ensures Choose(n, k) == if k == n then 1 else 0
  {
    if n > 0 {
      ChooseFull(n - 1, k - 1);
      ChooseFull(n - 1, k);
    }
  }

  lemma {:induction false} Absorption(n: nat, k: nat)
    requires n > 0 && k > 0
    ensures k * Choose(n, k) == n * Choose(n - 1, k - 1)
  {
    if n == 1 {
      if k > 1 { ChooseFull(1, k); ChooseFull(0, k - 1); }
    } else {
      Absorption(n - 1, k);
      if k > 1 { Absorption(n - 1, k - 1); }
      AbsorptionStep(n, k, Choose(n - 1, k - 1), Choose(n - 1, k),
                     if k > 1 then Choose(n - 2, k - 2) else 0, Choose(n - 2, k - 1));
    }
  }

  lemma AbsorptionStep(n: int, k: int, x: int, y: int, u: int, v: int)
    requires x == u + v && (k - 1) * x == (n - 1) * u && k * y == (n - 1) * v
    ensures k * (x + y) == n * x
  {
    Distrib(k, x, y);
    Distrib(x, k, 1);
    Distrib(x, n, 1);
    Distrib(n - 1, u, v);
  }

  lemma ChoosePrime(p: nat, k: nat)
    requires IsPrime(p) && 0 < k < p
    ensures Cong(Choose(p, k), 0, p)
  {
    Absorption(p, k);
    var m := Choose(p - 1, k - 1);
    assert p * m == m * p;
    CongZero(k * Choose(p, k), p, m);
    SmallNotZero(k, p);
    EuclidLemma(k, Choose(p, k), p);
  }

  /** The first m + 1 terms of (a + 1)^n */
  function Binomial(a: int, n: nat, m: nat): int {
    Choose(n, m) * Power(a, m) + (if m == 0 then 0 else Binomial(a, n, m - 1))
  }

  lemma {:induction false} BinomialStep(a: int, n: nat, m: nat)
    requires n > 0
    ensures Binomial(a, n, m) == Binomial(a, n - 1, m) + (if m == 0 then 0 else a * Binomial(a, n - 1, m - 1))
  {
    if m > 0 {
      BinomialStep(a, n, m - 1);
      TermStep(a, Power(a, m - 1), Power(a, m), Choose(n - 1, m - 1), Choose(n - 1, m),
               if m > 1 then Binomial(a, n - 1, m - 2) else 0);
    }
  }

  lemma TermStep(a: int, q: int, p: int, x: int, y: int, b: int)
    requires p == a * q
    ensures (x + y) * p + a * b == y * p + a * (x * q + b)
  {
    Distrib(p, x, y);
    MulEq(x, p, a * q);
    Assoc(x, a, q);
    Assoc(a, x, q);
    Distrib(a, x * q, b);
  }

  lemma {:induction false} BinomialTheorem(a: int, n: nat)
    ensures Binomial(a, n, n) == Power(a + 1, n)
  {
    if n > 0 {
      BinomialTheorem(a, n - 1);
      BinomialStep(a, n, n);
      ChooseFull(n - 1, n);
      var b := Binomial(a, n - 1, n - 1);
      assert Binomial(a, n - 1, n) == b;
      Distrib(b, a, 1);
    }
  }

  lemma {:induction false} MiddleTerms(a: int, p: nat, m: nat)
    requires IsPrime(p) && m < p
    ensures Cong(Binomial(a, p, m), 1, p)
  {
    if m > 0 {
      MiddleTerms(a, p, m - 1);
      ChoosePrime(p, m);
      CongMul(Choose(p, m), 0, Power(a, m), Power(a, m), p);
      CongAdd(Choose(p, m) * Power(a, m), 0, Binomial(a, p, m - 1), 1, p);
    }
  }

  lemma {:induction false} FermatFull(a: nat, p: nat)
    requires IsPrime(p)
    ensures Cong(Power(a, p), a, p)
  {
    if a == 0 {
      assert Power(0, p) == 0;
    } else {
      var b := a - 1;
      FermatFull(b, p);
      BinomialTheorem(b, p);
      MiddleTerms(b, p, p - 1);
      ChooseFull(p, p);
      CongAdd(Power(b, p), b, Binomial(b, p, p - 1), 1, p);
    }
  }

  lemma FermatLittle(a: int, p: nat)
    requires IsPrime(p) && !Cong(a, 0, p)
    ensures Cong(Power(a, p - 1), 1, p)
  {
    CongMod(a, p);
    var r := a % p;
    FermatFull(r, p);
    CancelFactor(r, Power(r, p - 1), 1, p);
    PowerCong(r, a, p - 1, p);
  }

  /** For p = 3 mod 4, x^((p+1)/4) is a square root of every square x. */
  lemma SquareRoot(y: int, x: int, p: nat)
    requires IsPrime(p) && p % 4 == 3 && Cong(y * y, x, p)
    ensures var r := Power(x, (p + 1) / 4); Cong(r * r, x, p)
  {
    var e := (p + 1) / 4;
    var r := Power(x, e);
    PowerAdd(x, e, e);
    PowerCong(x, y * y, 2 * e, p);
    PowerSquare(y, 2 * e);
    // r^2 = y^(p+1) = y^2
    assert 4 * e == p + 1 && 2 * (2 * e) == p + 1;
    FermatSquare(y, p);
  }

  lemma FermatSquare(y: int, p: nat)
    requires IsPrime(p)
    ensures Cong(Power(y, p + 1), y * y, p)
  {
    var q := Power(y, p - 1);
    assert Power(y, p) == y * q && Power(y, p + 1) == y * (y * q);
    Assoc(y, y, q);
    if Cong(y, 0, p) {
      CongMul(y, 0, y, 0, p);
      CongMul(y * y, 0, q, q, p);
    } else {
      FermatLittle(y, p);
      CongMul(y * y, y * y, q, 1, p);
    }
  }
}
