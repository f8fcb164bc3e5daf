/**
 Inverses in the field of 256 elements: a^254.  Squaring is linear; repeated eight times
 it is the identity, because it fixes x; and its only fixed points are 0 and 1, so the
 idempotent a^255 is 1 unless a is 0.
 */
module Gf256Inverse {
  import opened Gf256
  import opened Words

  function Square(a: F): F {
    Mul(a, a)
  }

  /** a^(2^n) */
  function Squares(a: F, n: nat): F
    decreases n
  {
    if n == 0 then a else Squares(Square(a), n - 1)
  }

  function Power(a: F, n: nat): F {
    if n == 0 then One else Mul(a, Power(a, n - 1))
  }

  lemma {:induction false} PowerAdd(a: F, m: nat, n: nat, k: nat)
    requires k == m + n
    ensures Power(a, k) == Mul(Power(a, m), Power(a, n))
    decreases m
  {
    if m == 0 {
      MulOne(Power(a, n));
    } else {
      PowerAdd(a, m - 1, n, k - 1);
      MulAssoc(a, Power(a, m - 1), Power(a, n));
    }
  }

  lemma SquareAdd(a: F, b: F)
    ensures Square(Add(a, b)) == Add(Square(a), Square(b))
  {
    var s := Add(a, b);
    MulAdd(a, b, s);
    MulAdd(a, b, a);
    MulAdd(a, b, b);
    MulComm(a, b);
    var m := Mul(a, b);
    Cancel(Square(a), m, Square(b));
  }

  lemma Cancel(a: F, m: F, b: F)
    ensures Add(Add(a, m), Add(m, b)) == Add(a, b)
  {}

  lemma SquareMul(a: F, b: F)
    ensures Square(Mul(a, b)) == Mul(Square(a), Square(b))
  {
    // (ab)(ab) = a(b(ab)) = a(a(bb))
    MulAssoc(a, b, Mul(a, b));
    MulComm(a, b);
    MulAssoc(b, b, a);
    MulComm(Square(b), a);
    MulAssoc(a, a, Square(b));
  }

  lemma {:induction false} SquaresAdd(a: F, b: F, n: nat)
    ensures Squares(Add(a, b), n) == Add(Squares(a, n), Squares(b, n))
    decreases n
  {
    if n > 0 {
      SquareAdd(a, b);
      SquaresAdd(Square(a), Square(b), n - 1);
    }
  }

  lemma {:induction false} SquaresMul(a: F, b: F, n: nat)
    ensures Squares(Mul(a, b), n) == Mul(Squares(a, n), Squares(b, n))
    decreases n
  {
    if n > 0 {
      SquareMul(a, b);
      SquaresMul(Square(a), Square(b), n - 1);
    }
  }

  lemma {:induction false} SquaresZero(n: nat)
    ensures Squares(Zero, n) == Zero
  {
    MulZero(Zero);
    if n > 0 { SquaresZero(n - 1); }
  }

  // ------------------------------------------------------------ squaring is linear

  lemma SquareShift(u: F)
    ensures Square(XTime(u)) == XTime(XTime(Square(u)))
  {
    MulBitsX(u, XTime(u));
    MulIsBits(XTime(u), XTime(u));
    MulIsBits(u, XTime(u));
    MulComm(u, XTime(u));
    MulBitsX(u, u);
    MulIsBits(XTime(u), u);
    MulIsBits(u, u);
  }

  /** The sum of s[j] x^(2 (n + j)), each power reduced. */
  function EvenRow(s: seq<bool>, v: F): F
    decreases |s|
  {
    if |s| == 0 then Zero else Add(Sel(s[0], v), EvenRow(s[1..], XTime(XTime(v))))
  }

  lemma {:induction false} SquareSpread(u: F, s: seq<bool>)
    ensures Square(MulBits(u, s)) == EvenRow(s, Square(u))
    decreases |s|
  {
    MulZero(Zero);
    if |s| > 0 {
      SquareAdd(Sel(s[0], u), MulBits(XTime(u), s[1..]));
      SquareSpread(XTime(u), s[1..]);
      SquareShift(u);
    }
  }

  /** Coefficient k of x^(2 i), reduced. */
  predicate Even(i: int, k: int) {
    || (i == 0 && k == 0) || (i == 1 && k == 2) || (i == 2 && k == 4) || (i == 3 && k == 6)
    || (i == 4 && (k == 0 || k == 1 || k == 3 || k == 4)) || (i == 5 && (k == 2 || k == 3 || k == 5 || k == 6))
    || (i == 6 && (k == 0 || k == 1 || k == 3 || k == 5 || k == 7)) || (i == 7 && (k == 1 || k == 3 || k == 4 || k == 7))
  }

  function EvenPower(i: int): F {
    seq(8, k => Even(i, k))
  }

  lemma NextEven(i: nat)
    requires i < 7
    ensures XTime(XTime(EvenPower(i))) == EvenPower(i + 1)
  {
    assert i == 0 || i == 1 || i == 2 || i == 3 || i == 4 || i == 5 || i == 6;
  }

  /** Coefficient k of the square, from the coefficients of a from i on. */
  predicate EvenBit(a: F, i: nat, k: nat)
    requires k < 8
    decreases 8 - i
  {
    i < 8 && ((a[i] && Even(i, k)) != EvenBit(a, i + 1, k))
  }

  lemma {:induction false} EvenBits(a: F, i: nat, k: nat)
    requires i < 8 && k < 8
    ensures EvenRow(a[i..], EvenPower(i))[k] == EvenBit(a, i, k)
    decreases 8 - i
  {
    assert a[i..][1..] == a[i + 1..];
    if i < 7 {
      NextEven(i);
      EvenBits(a, i + 1, k);
    } else {
      assert a[i + 1..] == [];
    }
  }

  /** b is the square of a, coefficient by coefficient. */
  predicate IsSquare(a: F, b: F) {
    && b[0] == ((a[0] != a[4]) != a[6]) && b[1] == ((a[4] != a[6]) != a[7])
    && b[2] == (a[1] != a[5]) && b[3] == ((a[4] != a[5]) != (a[6] != a[7]))
    && b[4] == ((a[2] != a[4]) != a[7]) && b[5] == (a[5] != a[6])
    && b[6] == (a[3] != a[5]) && b[7] == (a[6] != a[7])
  }

  lemma EvenBitValue(a: F, k: nat)
    requires k < 8
    ensures EvenBit(a, 0, k) == (
      (((a[0] && Even(0, k)) != (a[1] && Even(1, k))) != ((a[2] && Even(2, k)) != (a[3] && Even(3, k))))
      != (((a[4] && Even(4, k)) != (a[5] && Even(5, k))) != ((a[6] && Even(6, k)) != (a[7] && Even(7, k)))))
  {
    assert !EvenBit(a, 8, k);
    assert EvenBit(a, 7, k) == (a[7] && Even(7, k));
    assert EvenBit(a, 6, k) == ((a[6] && Even(6, k)) != EvenBit(a, 7, k));
    assert EvenBit(a, 5, k) == ((a[5] && Even(5, k)) != EvenBit(a, 6, k));
    assert EvenBit(a, 4, k) == ((a[4] && Even(4, k)) != EvenBit(a, 5, k));
    assert EvenBit(a, 3, k) == ((a[3] && Even(3, k)) != EvenBit(a, 4, k));
    assert EvenBit(a, 2, k) == ((a[2] && Even(2, k)) != EvenBit(a, 3, k));
    assert EvenBit(a, 1, k) == ((a[1] && Even(1, k)) != EvenBit(a, 2, k));
  }

  lemma SquareBit(a: F, k: nat)
    requires k < 8
    ensures Square(a)[k] == EvenBit(a, 0, k)
  {
    OneLeft(a);
    MulIsBits(One, a);
    MulOne(One);
    SquareSpread(One, a);
    assert a[0..] == a && One == EvenPower(0);
    EvenBits(a, 0, k);
  }

  lemma SquareFormula(a: F)
    ensures IsSquare(a, Square(a))
  {
    forall k: nat | k < 8
      ensures Square(a)[k] == (
        (((a[0] && Even(0, k)) != (a[1] && Even(1, k))) != ((a[2] && Even(2, k)) != (a[3] && Even(3, k))))
        != (((a[4] && Even(4, k)) != (a[5] && Even(5, k))) != ((a[6] && Even(6, k)) != (a[7] && Even(7, k)))))
    {
      SquareBit(a, k);
      EvenBitValue(a, k);
    }
  }

  lemma SquareUnique(a: F, b: F)
    requires IsSquare(a, b)
    ensures b == Square(a)
  {
    SquareFormula(a);
    var s := Square(a);
    forall i | 0 <= i < 8 ensures s[i] == b[i] {
      assert i == 0 || i == 1 || i == 2 || i == 3 || i == 4 || i == 5 || i == 6 || i == 7;
    }
    assert s == b;
  }

  // ------------------------------------------------------------ the Frobenius map has order 8

  lemma {:induction false} SquaresChain(s: seq<F>, n: nat)
    requires |s| == n + 1 && forall i :: 0 <= i < n ==> IsSquare(s[i], s[i + 1])
    ensures Squares(s[0], n) == s[n]
    decreases n
  {
    if n > 0 {
      SquareUnique(s[0], s[1]);
      forall i | 0 <= i < n - 1 ensures IsSquare(s[1..][i], s[1..][i + 1]) {
        assert IsSquare(s[i + 1], s[i + 1 + 1]);
      }
      SquaresChain(s[1..], n - 1);
    }
  }

  /** x^(2^i), reduced */
  function FrobeniusPower(i: int): F {
    if i == 0 || i == 8 then X else if i == 1 then Of({2}) else if i == 2 then Of({4})
    else if i == 3 then Of({0, 1, 3, 4}) else if i == 4 then Of({1, 2, 3, 4, 6}) else if i == 5 then Of({2, 5, 6, 7})
    else if i == 6 then Of({0, 2, 3, 6}) else Of({1, 3, 4, 5, 6, 7})
  }

  lemma FrobeniusStep(i: nat)
    requires i < 8
    ensures IsSquare(FrobeniusPower(i), FrobeniusPower(i + 1))
  {
    assert i == 0 || i == 1 || i == 2 || i == 3 || i == 4 || i == 5 || i == 6 || i == 7;
  }

  /** x^256 = x; n is 8. */
  lemma XReturns(n: nat)
    requires n == 8
    ensures Squares(X, n) == X
  {
    var s := seq(n + 1, i => FrobeniusPower(i));
    forall i | 0 <= i < n ensures IsSquare(s[i], s[i + 1]) { FrobeniusStep(i); }
    SquaresChain(s, n);
  }

  lemma TimesX(u: F)
    ensures Mul(X, u) == XTime(u)
  {
    assert X == XTime(One);
    MulBitsX(One, u);
    MulIsBits(X, u);
    MulIsBits(One, u);
    OneLeft(u);
  }

  /** A sum of powers of x times a fixed point is a fixed point. */
  lemma {:induction false} SquaresBits(u: F, s: seq<bool>, n: nat)
    requires Squares(u, n) == u && Squares(X, n) == X
    ensures Squares(MulBits(u, s), n) == MulBits(u, s)
    decreases |s|
  {
    SquaresZero(n);
    if |s| > 0 {
      TimesX(u);
      SquaresMul(X, u, n);
      SquaresBits(XTime(u), s[1..], n);
      SquaresAdd(Sel(s[0], u), MulBits(XTime(u), s[1..]), n);
    }
  }

  lemma SquaresIdentity(a: F, n: nat)
    requires n == 8
    ensures Squares(a, n) == a
  {
    SquaresOne(n);
    XReturns(n);
    SquaresBits(One, a, n);
    OneLeft(a);
    MulIsBits(One, a);
  }

  lemma {:induction false} SquaresOne(n: nat)
    ensures Squares(One, n) == One
  {
    MulOne(One);
    if n > 0 { SquaresOne(n - 1); }
  }

  lemma {:induction false} PowerSquare(a: F, n: nat, m: nat)
    requires m == 2 * n
    ensures Power(Square(a), n) == Power(a, m)
  {
    if n > 0 {
      PowerSquare(a, n - 1, m - 2);
      MulAssoc(a, a, Power(a, m - 2));
    }
  }

  lemma {:induction false} SquaresPower(a: F, n: nat, m: nat)
    requires m == Pow2(n)
    ensures Squares(a, n) == Power(a, m)
    decreases n
  {
    if n == 0 {
      MulOne(a);
    } else {
      SquaresPower(Square(a), n - 1, m / 2);
      PowerSquare(a, m / 2, m);
    }
  }

  // ------------------------------------------------------------ inverses

  function InverseExponent(): nat { 254 }

  /** a^254, given by its coefficients. */
  function Inverse(a: F): F {
    seq(8, k requires 0 <= k < 8 => Power(a, InverseExponent())[k])
  }

  lemma InverseIsPower(a: F)
    ensures Inverse(a) == Power(a, InverseExponent())
  {}

  /** Squaring fixes only 0 and 1. */
  lemma FixedPoints(e: F)
    requires IsSquare(e, e)
    ensures e == Zero || e == One
  {
    assert !e[1] && !e[2] && !e[3] && !e[4] && !e[5] && !e[6] && !e[7];
    forall i | 0 < i < 8 ensures !e[i] {
      assert i == 1 || i == 2 || i == 3 || i == 4 || i == 5 || i == 6 || i == 7;
    }
    if e[0] { assert e == One; } else { assert e == Zero; }
  }

  /** a^256 = a */
  lemma FullPower(a: F, n: nat)
    requires n == 256
    ensures Power(a, n) == a
  {
    var k := 8;
    Pow2Literals();
    SquaresIdentity(a, k);
    SquaresPower(a, k, n);
  }

  /** a^254 is the inverse of a, except for a = 0. */
  lemma InverseLaw(a: F)
    ensures a != Zero ==> Mul(a, Inverse(a)) == One && Mul(Inverse(a), a) == One
    ensures Inverse(Zero) == Zero
  {
    var n := InverseExponent();
    var e := Power(a, n + 1);
    InverseIsPower(a);
    InverseIsPower(Zero);
    FullPower(a, n + 2);
    // e e = a^256 a^254 = a a^254 = e
    PowerAdd(a, n + 1, n + 1, 2 * n + 2);
    PowerAdd(a, n + 2, n, 2 * n + 2);
    assert Square(e) == e;
    SquareFormula(e);
    FixedPoints(e);
    assert Power(a, n + 2) == Mul(a, e);
    MulZero(a);
    MulComm(a, Inverse(a));
    MulZero(Power(Zero, n - 1));
  }

  /** A product is 0 only if a factor is. */
  lemma NoZeroDivisors(a: F, b: F)
    ensures Mul(a, b) == Zero <==> a == Zero || b == Zero
  {
    MulZero(a);
    MulZero(b);
    if a != Zero && Mul(a, b) == Zero {
      InverseLaw(a);
      MulAssoc(Inverse(a), a, b);
      MulOne(b);
      MulZero(Inverse(a));
    }
  }
}
