/** Numbers of 256 bits have at most 78 digits. */
module DecimalBound {
  import opened Arith
  import opened Words
  import opened Limbs
  import opened DecimalSpec

  lemma TenTo13(a: nat, b: nat)
    requires a == 6 && b == 13
    ensures Pow(10, b) == 10_0000_0000_0000
  {
    assert Pow(10, a) == 100_0000 && Pow(10, 7) == 10 * Pow(10, a);
    PowAdd(10, a, 7);
  }

  lemma TenTo78(b: nat, c: nat, d: nat, n: nat)
    requires b == 13 && c == 26 && d == 52 && n == 78 && Pow(10, b) == 10_0000_0000_0000
    ensures Pow(10, n) == 100_0000_0000_0000_0000_0000_0000 * 1_0000_0000_0000_0000_0000_0000_0000_0000_0000_0000_0000_0000_0000
  {
    PowAdd(10, b, b);
    PowAdd(10, c, c);
    PowAdd(10, d, c);
  }

  lemma TwoPower(a: nat, b: nat, m: nat)
    requires a == 64 && b == 128 && m == 256
    ensures Pow2(m) == 0x1_0000_0000_0000_0000_0000_0000_0000_0000 * 0x1_0000_0000_0000_0000_0000_0000_0000_0000
  {
    Pow2Literals();
    Pow2Add(a, a);
    Pow2Add(b, b);
  }

  lemma BitsAndDigits(m: nat, n: nat)
    requires m == 256 && n == 78
    ensures Pow2(m) < Pow(10, n)
  {
    TenTo13(6, 13);
    TenTo78(13, 26, 52, n);
    TwoPower(64, 128, m);
  }

  lemma LengthBound(x: nat, n: nat)
    requires x < Pow(10, n) && n > 0
    ensures Length(x) <= n
  {
    LengthExact(x);
    if Length(x) > n { PowMonotone(10, n, Length(x) - 1); }
  }

  /** bn_format's bound on the number of digits is enough for every 256-bit number. */
  lemma AmountFits(x: nat, m: nat, n: nat)
    requires m == 256 && n == 78 && x < Pow2(m)
    ensures Length(x) <= n
  {
    BitsAndDigits(m, n);
    LengthBound(x, n);
  }
}
