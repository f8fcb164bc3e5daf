/**
 The field of 256 elements: polynomials over GF(2) modulo x^8 + x^4 + x^3 + x + 1.
 An element is its eight coefficients, lowest first.
 */
module Gf256 {
  predicate Eight(s: seq<bool>) {
    |s| == 8
  }

  type F = s: seq<bool> | Eight(s) witness [false, false, false, false, false, false, false, false]

  /** The polynomial with the given powers of x. */
  function Of(powers: set<int>): F {
    seq(8, i => i in powers)
  }

  const Zero := Of({})
  const One := Of({0})
  const X := Of({1})

  function Add(a: F, b: F): F {
    seq(8, i requires 0 <= i < 8 => a[i] != b[i])
  }

  function Sel(c: bool, v: F): F {
    if c then v else Zero
  }

  /** Multiplication by x: x^8 is x^4 + x^3 + x + 1. */
  function XTime(a: F): F {
    seq(8, i requires 0 <= i < 8 =>
      if i == 0 then a[7] else if i == 1 || i == 3 || i == 4 then a[i - 1] != a[7] else a[i - 1])
  }

  /** The sum of s_j x^j a over the coefficients of s. */
  function MulBits(a: F, s: seq<bool>): F
    decreases |s|
  {
    if |s| == 0 then Zero else Add(Sel(s[0], a), MulBits(XTime(a), s[1..]))
  }

  /** The product, given by its coefficients. */
  function Mul(a: F, b: F): F {
    seq(8, k requires 0 <= k < 8 => MulBits(a, b)[k])
  }

  lemma MulIsBits(a: F, b: F)
    ensures Mul(a, b) == MulBits(a, b)
  {}

  // ------------------------------------------------------------ a commutative ring

  lemma AddLaws(a: F, b: F, c: F)
    ensures Add(a, b) == Add(b, a) && Add(Add(a, b), c) == Add(a, Add(b, c))
    ensures Add(a, Zero) == a && Add(Zero, a) == a && Add(a, a) == Zero
  {}

  lemma Exchange(a: F, b: F, c: F, d: F)
    ensures Add(Add(a, b), Add(c, d)) == Add(Add(a, c), Add(b, d))
  {}

  lemma XTimeLinear(a: F, b: F)
    ensures XTime(Add(a, b)) == Add(XTime(a), XTime(b)) && XTime(Zero) == Zero
  {}

  lemma {:induction false} MulBitsAdd(a: F, b: F, s: seq<bool>)
    ensures MulBits(Add(a, b), s) == Add(MulBits(a, s), MulBits(b, s))
    decreases |s|
  {
    AddLaws(Zero, Zero, Zero);
    if |s| > 0 {
      XTimeLinear(a, b);
      MulBitsAdd(XTime(a), XTime(b), s[1..]);
      Exchange(Sel(s[0], a), Sel(s[0], b), MulBits(XTime(a), s[1..]), MulBits(XTime(b), s[1..]));
    }
  }

  lemma {:induction false} MulBitsX(a: F, s: seq<bool>)
    ensures MulBits(XTime(a), s) == XTime(MulBits(a, s))
    decreases |s|
  {
    XTimeLinear(Zero, Zero);
    if |s| > 0 {
      MulBitsX(XTime(a), s[1..]);
      XTimeLinear(Sel(s[0], a), MulBits(XTime(a), s[1..]));
    }
  }

  lemma {:induction false} MulBitsZero(s: seq<bool>)
    ensures MulBits(Zero, s) == Zero
    decreases |s|
  {
    XTimeLinear(Zero, Zero);
    AddLaws(Zero, Zero, Zero);
    if |s| > 0 { MulBitsZero(s[1..]); }
  }

  /** The polynomial x^i s. */
  function Shifted(i: nat, s: seq<bool>): F
    requires i + |s| == 8
  {
    seq(8, j requires 0 <= j < 8 => i <= j && s[j - i])
  }

  lemma {:induction false} MulBitsMonomial(i: nat, s: seq<bool>)
    requires i + |s| == 8
    ensures MulBits(Of({i}), s) == Shifted(i, s)
    decreases |s|
  {
    if |s| > 1 {
      assert XTime(Of({i})) == Of({i + 1});
      MulBitsMonomial(i + 1, s[1..]);
      assert Add(Sel(s[0], Of({i})), Shifted(i + 1, s[1..])) == Shifted(i, s);
    } else if |s| == 1 {
      assert s[1..] == [];
    } else {
      assert Shifted(i, s) == Zero;
    }
  }

  lemma OneLeft(b: F)
    ensures Mul(One, b) == b
  {
    MulBitsMonomial(0, b);
    MulIsBits(One, b);
  }

  /** (u a) b = (u b) a, from which commutativity and associativity follow. */
  lemma {:induction false} Interchange(u: F, s: seq<bool>, b: F)
    ensures Mul(MulBits(u, s), b) == MulBits(Mul(u, b), s)
    decreases |s|
  {
    MulBitsZero(b);
    MulIsBits(MulBits(u, s), b);
    MulIsBits(u, b);
    if |s| > 0 {
      MulBitsAdd(Sel(s[0], u), MulBits(XTime(u), s[1..]), b);
      MulIsBits(MulBits(XTime(u), s[1..]), b);
      Interchange(XTime(u), s[1..], b);
      MulBitsX(u, b);
      MulIsBits(XTime(u), b);
    }
  }

  lemma MulComm(a: F, b: F)
    ensures Mul(a, b) == Mul(b, a)
  {
    OneLeft(a);
    OneLeft(b);
    Interchange(One, a, b);
    MulIsBits(One, a);
    MulIsBits(b, a);
  }

  lemma MulAssoc(a: F, b: F, c: F)
    ensures Mul(Mul(a, b), c) == Mul(a, Mul(b, c))
  {
    MulComm(a, b);
    Interchange(b, a, c);
    MulIsBits(b, a);
    MulIsBits(Mul(b, c), a);
    MulComm(Mul(b, c), a);
  }

  lemma MulOne(a: F)
    ensures Mul(a, One) == a && Mul(One, a) == a
  {
    OneLeft(a);
    MulComm(a, One);
  }

  lemma MulZero(a: F)
    ensures Mul(a, Zero) == Zero && Mul(Zero, a) == Zero
  {
    MulBitsZero(a);
    MulIsBits(Zero, a);
    MulComm(a, Zero);
  }

  lemma MulAdd(a: F, b: F, c: F)
    ensures Mul(Add(a, b), c) == Add(Mul(a, c), Mul(b, c))
    ensures Mul(c, Add(a, b)) == Add(Mul(c, a), Mul(c, b))
  {
    MulBitsAdd(a, b, c);
    MulIsBits(Add(a, b), c);
    MulIsBits(a, c);
    MulIsBits(b, c);
    MulComm(c, Add(a, b));
    MulComm(c, a);
    MulComm(c, b);
  }

  // ------------------------------------------------------------ the polynomial product

  /** x^n reduced */
  function XPower(n: nat): F {
    if n == 0 then One else XTime(XPower(n - 1))
  }

  /** The sum of s_j x^(n + j), each power reduced. */
  function Row(s: seq<bool>, n: nat): F
    decreases |s|
  {
    if |s| == 0 then Zero else Add(Sel(s[0], XPower(n)), Row(s[1..], n + 1))
  }

  /** The product of the polynomials a and x^n s, expanded, each power of x reduced. */
  function Product(a: F, s: seq<bool>, n: nat): F
    decreases |s|
  {
    if |s| == 0 then Zero else Add(Sel(s[0], Row(a, n)), Product(a, s[1..], n + 1))
  }

  lemma {:induction false} RowIsShift(s: seq<bool>, n: nat)
    ensures Row(s, n) == MulBits(XPower(n), s)
    decreases |s|
  {
    if |s| > 0 { RowIsShift(s[1..], n + 1); }
  }

  lemma {:induction false} ProductIsMul(a: F, s: seq<bool>, n: nat)
    ensures Product(a, s, n) == MulBits(Mul(XPower(n), a), s)
    decreases |s|
  {
    MulIsBits(XPower(n), a);
    if |s| > 0 {
      RowIsShift(a, n);
      MulBitsX(XPower(n), a);
      MulIsBits(XPower(n + 1), a);
      ProductIsMul(a, s[1..], n + 1);
    }
  }

  /** Mul is multiplication of polynomials modulo x^8 + x^4 + x^3 + x + 1. */
  lemma MulIsPolynomialProduct(a: F, b: F)
    ensures Mul(a, b) == Product(a, b, 0)
  {
    ProductIsMul(a, b, 0);
    OneLeft(a);
    MulIsBits(a, b);
  }
}
