/**
 The recoding of a scalar into 64 odd signed digits in base 16: what point_multiply
 reads from the limbs of a = k + 2^256 (less the group order when k is even).
 */
module ScalarDigits {
  import opened Arith
  import opened Words
  import opened BignumSpec

  /** The bits of a from position 4 i on. */
  function Window(a: nat, i: nat): nat {
    DivBounds(a, Pow2(4 * i), 0);
    a / Pow2(4 * i)
  }

  function Odd(x: int): int {
    2 * (x / 2) + 1
  }

  /** The digit at position i: its sign is the lowest bit of the next position. */
  function Digit(a: nat, i: nat): int {
    var t := Window(a, i) % 16;
    if Window(a, i + 1) % 2 == 1 then Odd(t) else -Odd(15 - t)
  }

  /** The digits from position i up, as one number. */
  function DigitsFrom(a: nat, i: nat): int
    requires i <= 64
    decreases 64 - i
  {
    if i == 64 then 0 else 16 * DigitsFrom(a, i + 1) + Digit(a, i)
  }

  lemma DigitShape(a: nat, i: nat)
    ensures Digit(a, i) % 2 == 1 && -15 <= Digit(a, i) <= 15
  {}

  lemma WindowStep(a: nat, i: nat)
    ensures Window(a, i) == 16 * Window(a, i + 1) + Window(a, i) % 16
    ensures Window(a, i + 1) == Window(a, i) / 16
  {
    Pow2Add(4 * i, 4);
    assert Pow2(4) == 16;
    assert 4 * (i + 1) == 4 * i + 4;
    DivDiv(a, Pow2(4 * i), 16);
  }

  lemma WindowZero(a: nat)
    ensures Window(a, 0) == a
  {
    assert Pow2(0) == 1;
    DivModUnique(a, a, 0, 1);
  }

  lemma Double(n: nat, m: nat)
    requires m == 2 * n
    ensures Pow2(m) == Pow2(n) * Pow2(n)
  {
    Pow2Add(n, n);
  }

  lemma Pow252(n: nat)
    requires n == 252
    ensures Pow2(n) == TWO256 / 16 && Pow2(n + 4) == TWO256
  {
    var b, d := 128, 64;
    Pow2Literals();
    Double(d, b);
    Double(b, n + 4);
    Pow2Add(n, 4);
    assert Pow2(4) == 16;
  }

  /** The digits from position i up make the bits of a from there on, made odd, less 2^256. */
  lemma {:induction false} DigitsValue(a: nat, i: nat)
    requires a < 2 * TWO256 && i <= 64
    ensures DigitsFrom(a, i) == Odd(Window(a, i)) - Pow2(256 - 4 * i)
    decreases 64 - i
  {
    if i == 64 {
      TopWindow(a, i);
    } else {
      DigitsValue(a, i + 1);
      WindowStep(a, i);
      Sixteen(256 - 4 * i, 256 - 4 * (i + 1));
      DigitStep(Window(a, i + 1), Window(a, i) % 16);
    }
  }

  lemma TopWindow(a: nat, i: nat)
    requires a < 2 * TWO256 && i == 64
    ensures Odd(Window(a, i)) == 1 && Pow2(256 - 4 * i) == 1
  {
    Pow252(4 * i - 4);
    DivBounds(a, TWO256, 2);
  }

  lemma Sixteen(m: nat, n: nat)
    requires m == n + 4
    ensures Pow2(m) == 16 * Pow2(n)
  {
    Pow2Add(n, 4);
    assert Pow2(4) == 16;
  }

  /** Making the next position odd is paid back with a negative digit. */
  lemma DigitStep(w: nat, t: nat)
    requires t < 16
    ensures Odd(16 * w + t) == 16 * Odd(w) + (if w % 2 == 1 then Odd(t) else -Odd(15 - t))
  {}

  /** For an odd number the digits represent it, less 2^256. */
  lemma Recoding(a: nat)
    requires a < 2 * TWO256 && a % 2 == 1
    ensures DigitsFrom(a, 0) == a - TWO256
  {
    DigitsValue(a, 0);
    WindowZero(a);
    Pow252(252);
  }

  /** The digits from any position on make an odd number. */
  lemma PartialOdd(a: nat, i: nat)
    requires a < 2 * TWO256 && i < 64
    ensures DigitsFrom(a, i) % 2 == 1
  {
    DigitShape(a, i);
    OddSum(DigitsFrom(a, i + 1), Digit(a, i), DigitsFrom(a, i));
  }

  lemma OddSum(m: int, d: int, s: int)
    requires d % 2 == 1 && s == 16 * m + d
    ensures s % 2 == 1
  {}

  /** All digits but the lowest make a number below 2^252 in size. */
  lemma PartialBound(a: nat, i: nat)
    requires a < 2 * TWO256 && 0 < i < 64
    ensures -(TWO256 / 16) < DigitsFrom(a, i) < TWO256 / 16
  {
    DigitsValue(a, i);
    PositionBound(a, 4 * i, 256 - 4 * i);
    OddDifference(Window(a, i), Pow2(256 - 4 * i), DigitsFrom(a, i));
  }

  lemma OddDifference(w: nat, m: int, d: int)
    requires d == Odd(w) - m && w < 2 * m
    ensures -m < d < m
  {}

  lemma PositionBound(a: nat, k: nat, n: nat)
    requires a < 2 * TWO256 && n <= 252 && k + n == 256
    ensures Pow2(n) <= TWO256 / 16 && a / Pow2(k) < 2 * Pow2(n)
  {
    var m := 252;
    Pow252(m);
    Pow2Monotone(n, m);
    Pow2Add(k, n);
    WindowBound(a, Pow2(k), Pow2(n));
  }

  lemma WindowBound(a: nat, p: nat, m: nat)
    requires p > 0 && p * m == TWO256 && a < 2 * TWO256
    ensures a / p < 2 * m
  {
    assert p * (2 * m) == 2 * (p * m);
    DivBounds(a, p, 2 * m);
  }
}
