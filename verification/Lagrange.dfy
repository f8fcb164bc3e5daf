/** Polynomials over the field of 256 elements, and their values from given points. */
module Lagrange {
  import opened Gf256
  import opened Gf256Inverse

  /** The value at x of the polynomial with the given coefficients, lowest first. */
  function Eval(p: seq<F>, x: F): F {
    if |p| == 0 then Zero else Add(p[0], Mul(x, Eval(p[1..], x)))
  }

  function Plus(p: seq<F>, q: seq<F>): seq<F>
    requires |p| == |q|
  {
    seq(|p|, i requires 0 <= i < |p| => Add(p[i], q[i]))
  }

  function Scale(c: F, p: seq<F>): seq<F> {
    seq(|p|, i requires 0 <= i < |p| => Mul(c, p[i]))
  }

  /** (X - c) p */
  function TimesRoot(p: seq<F>, c: F): seq<F> {
    Plus([Zero] + p, Scale(c, p) + [Zero])
  }

  lemma {:induction false} EvalPlus(p: seq<F>, q: seq<F>, x: F)
    requires |p| == |q|
    ensures Eval(Plus(p, q), x) == Add(Eval(p, x), Eval(q, x))
  {
    AddLaws(Zero, Zero, Zero);
    if |p| > 0 {
      assert Plus(p, q)[1..] == Plus(p[1..], q[1..]);
      EvalPlus(p[1..], q[1..], x);
      MulAdd(Eval(p[1..], x), Eval(q[1..], x), x);
      Exchange(p[0], q[0], Mul(x, Eval(p[1..], x)), Mul(x, Eval(q[1..], x)));
    }
  }

  lemma MulSwap(a: F, b: F, c: F)
    ensures Mul(a, Mul(b, c)) == Mul(b, Mul(a, c))
  {
    MulAssoc(a, b, c);
    MulComm(a, b);
    MulAssoc(b, a, c);
  }

  lemma {:induction false} EvalScale(c: F, p: seq<F>, x: F)
    ensures Eval(Scale(c, p), x) == Mul(c, Eval(p, x))
  {
    MulZero(c);
    if |p| > 0 {
      assert Scale(c, p)[1..] == Scale(c, p[1..]);
      EvalScale(c, p[1..], x);
      MulAdd(p[0], Mul(x, Eval(p[1..], x)), c);
      MulSwap(c, x, Eval(p[1..], x));
    }
  }

  lemma {:induction false} EvalPad(p: seq<F>, x: F)
    ensures Eval(p + [Zero], x) == Eval(p, x)
  {
    MulZero(x);
    AddLaws(Zero, Zero, Zero);
    if |p| > 0 {
      assert (p + [Zero])[1..] == p[1..] + [Zero];
      EvalPad(p[1..], x);
    } else {
      assert (p + [Zero])[1..] == [];
    }
  }

  lemma EvalTimesRoot(p: seq<F>, c: F, x: F)
    ensures Eval(TimesRoot(p, c), x) == Mul(Add(x, c), Eval(p, x))
  {
    EvalPlus([Zero] + p, Scale(c, p) + [Zero], x);
    EvalPad(Scale(c, p), x);
    EvalScale(c, p, x);
    assert ([Zero] + p)[1..] == p;
    AddLaws(Mul(x, Eval(p, x)), Zero, Zero);
    MulAdd(x, c, Eval(p, x));
  }

  // ------------------------------------------------------------ roots

  /** The quotient of p by X - c. */
  function Quotient(p: seq<F>, c: F): seq<F> {
    if |p| <= 1 then [] else [Eval(p[1..], c)] + Quotient(p[1..], c)
  }

  /** Synthetic division: p(x) = (x - c) q(x) + p(c). */
  lemma {:induction false} Division(p: seq<F>, c: F, x: F)
    ensures |Quotient(p, c)| == if |p| == 0 then 0 else |p| - 1
    ensures Eval(p, x) == Add(Mul(Add(x, c), Eval(Quotient(p, c), x)), Eval(p, c))
  {
    MulZero(Add(x, c));
    AddLaws(Zero, Zero, Zero);
    if |p| == 1 {
      assert p[1..] == [];
      MulZero(x);
      MulZero(c);
      AddLaws(p[0], Zero, Zero);
    } else if |p| > 1 {
      Division(p[1..], c, x);
      var q := Quotient(p[1..], c);
      assert Quotient(p, c)[1..] == q;
      DivisionStep(x, c, p[0], Eval(q, x), Eval(p[1..], c));
    }
  }

  /** a + x ((x - c) q + v) = (x - c) (v + x q) + (a + c v) */
  lemma DivisionStep(x: F, c: F, a: F, q: F, v: F)
    ensures Add(a, Mul(x, Add(Mul(Add(x, c), q), v)))
         == Add(Mul(Add(x, c), Add(v, Mul(x, q))), Add(a, Mul(c, v)))
  {
    var d := Add(x, c);
    MulAdd(Mul(d, q), v, x);
    MulAdd(v, Mul(x, q), d);
    MulSwap(x, d, q);
    MulAdd(x, c, v);
    Rearrange(a, Mul(d, Mul(x, q)), Mul(x, v), Mul(c, v));
  }

  lemma Rearrange(a: F, s: F, t: F, u: F)
    ensures Add(a, Add(s, t)) == Add(Add(Add(t, u), s), Add(a, u))
  {}

  predicate Distinct(xs: seq<F>) {
    forall i, j :: 0 <= i < j < |xs| ==> xs[i] != xs[j]
  }

  lemma AddCancel(a: F, b: F)
    ensures Add(a, b) == Zero <==> a == b
    ensures Add(Add(a, b), b) == a
  {
    AddLaws(a, b, b);
    AddLaws(b, a, a);
    AddLaws(a, b, a);
    if Add(a, b) == Zero {
      forall i | 0 <= i < 8 ensures a[i] == b[i] { assert !Add(a, b)[i]; }
    }
  }

  /** A polynomial with as many roots as coefficients is 0 everywhere. */
  lemma {:induction false} ManyRoots(p: seq<F>, xs: seq<F>, x: F)
    requires |p| <= |xs| && Distinct(xs) && forall i :: 0 <= i < |xs| ==> Eval(p, xs[i]) == Zero
    ensures Eval(p, x) == Zero
    decreases |p|
  {
    if |p| > 0 {
      var n := |xs| - 1;
      var c, q := xs[n], Quotient(p, xs[n]);
      Division(p, c, x);
      forall i | 0 <= i < n ensures Eval(q, xs[i]) == Zero {
        Division(p, c, xs[i]);
        AddLaws(Mul(Add(xs[i], c), Eval(q, xs[i])), Zero, Zero);
        AddCancel(xs[i], c);
        NoZeroDivisors(Add(xs[i], c), Eval(q, xs[i]));
      }
      assert forall i :: 0 <= i < n ==> xs[..n][i] == xs[i];
      ManyRoots(q, xs[..n], x);
      MulZero(Add(x, c));
      AddLaws(Zero, Zero, Zero);
    }
  }

  // ------------------------------------------------------------ the basis polynomials

  /** The product of u - xs[j] over j < n, j != skip. */
  function Differences(xs: seq<F>, u: F, skip: int, n: nat): F
    requires n <= |xs|
  {
    if n == 0 then One
    else if n - 1 == skip then Differences(xs, u, skip, n - 1)
    else Mul(Differences(xs, u, skip, n - 1), Add(u, xs[n - 1]))
  }

  /** The same product as a polynomial in u. */
  function Basis(xs: seq<F>, skip: int, n: nat): seq<F>
    requires n <= |xs|
  {
    if n == 0 then [One]
    else if n - 1 == skip then Basis(xs, skip, n - 1)
    else TimesRoot(Basis(xs, skip, n - 1), xs[n - 1])
  }

  lemma {:induction false} BasisValue(xs: seq<F>, skip: int, n: nat, u: F)
    requires n <= |xs|
    ensures Eval(Basis(xs, skip, n), u) == Differences(xs, u, skip, n)
    ensures |Basis(xs, skip, n)| == if 0 <= skip < n then n else n + 1
  {
    if n == 0 {
      MulZero(u);
      AddLaws(One, Zero, Zero);
      assert [One][1..] == [];
    } else {
      BasisValue(xs, skip, n - 1, u);
      EvalTimesRoot(Basis(xs, skip, n - 1), xs[n - 1], u);
      MulComm(Add(u, xs[n - 1]), Differences(xs, u, skip, n - 1));
    }
  }

  /** The product vanishes exactly at the points that are not skipped. */
  lemma {:induction false} DifferencesZero(xs: seq<F>, u: F, skip: int, n: nat)
    requires n <= |xs|
    ensures Differences(xs, u, skip, n) == Zero <==> exists j :: 0 <= j < n && j != skip && xs[j] == u
  {
    if n == 0 {
      assert One[0] && !Zero[0];
    } else {
      DifferencesZero(xs, u, skip, n - 1);
      NoZeroDivisors(Differences(xs, u, skip, n - 1), Add(u, xs[n - 1]));
      AddCancel(u, xs[n - 1]);
    }
  }

  /** The coefficient of ys[i]: the basis polynomial that is 1 at xs[i] and 0 at the others. */
  function Weight(xs: seq<F>, i: nat): F
    requires i < |xs|
  {
    Inverse(Differences(xs, xs[i], i, |xs|))
  }

  /** The interpolating polynomial's value at u, from the first m points. */
  function SumAt(xs: seq<F>, ys: seq<F>, m: nat, u: F): F
    requires m <= |xs| == |ys|
  {
    if m == 0 then Zero
    else Add(SumAt(xs, ys, m - 1, u), Mul(Mul(ys[m - 1], Weight(xs, m - 1)), Differences(xs, u, m - 1, |xs|)))
  }

  function SumPoly(xs: seq<F>, ys: seq<F>, m: nat): (p: seq<F>)
    requires m <= |xs| == |ys|
    ensures |p| == |xs|
  {
    if m == 0 then seq(|xs|, _ => Zero)
    else
      BasisValue(xs, m - 1, |xs|, Zero);
      Plus(SumPoly(xs, ys, m - 1), Scale(Mul(ys[m - 1], Weight(xs, m - 1)), Basis(xs, m - 1, |xs|)))
  }

  lemma {:induction false} EvalZeros(n: nat, x: F)
    ensures Eval(seq(n, _ => Zero), x) == Zero
  {
    MulZero(x);
    AddLaws(Zero, Zero, Zero);
    if n > 0 {
      assert seq(n, _ => Zero)[1..] == seq(n - 1, _ => Zero);
      EvalZeros(n - 1, x);
    }
  }

  lemma {:induction false} SumPolyValue(xs: seq<F>, ys: seq<F>, m: nat, u: F)
    requires m <= |xs| == |ys|
    ensures Eval(SumPoly(xs, ys, m), u) == SumAt(xs, ys, m, u)
  {
    if m == 0 {
      EvalZeros(|xs|, u);
    } else {
      var c, b := Mul(ys[m - 1], Weight(xs, m - 1)), Basis(xs, m - 1, |xs|);
      SumPolyValue(xs, ys, m - 1, u);
      BasisValue(xs, m - 1, |xs|, u);
      EvalPlus(SumPoly(xs, ys, m - 1), Scale(c, b), u);
      EvalScale(c, b, u);
    }
  }

  /** At a given point the sum is the given value. */
  lemma {:induction false} SumAtPoint(xs: seq<F>, ys: seq<F>, m: nat, k: nat)
    requires m <= |xs| == |ys| && k < |xs| && Distinct(xs)
    ensures SumAt(xs, ys, m, xs[k]) == if k < m then ys[k] else Zero
  {
    if m > 0 {
      var i, n := m - 1, |xs|;
      SumAtPoint(xs, ys, i, k);
      DifferencesZero(xs, xs[k], i, n);
      var c, d := Mul(ys[i], Weight(xs, i)), Differences(xs, xs[k], i, n);
      if k == i {
        assert d != Zero;
        InverseLaw(d);
        MulAssoc(ys[i], Weight(xs, i), d);
        MulOne(ys[i]);
        AddLaws(ys[i], Zero, Zero);
      } else {
        MulZero(c);
        AddLaws(SumAt(xs, ys, i, xs[k]), Zero, Zero);
      }
    }
  }

  /** f has the given values at the given points. */
  predicate Through(f: seq<F>, xs: seq<F>, ys: seq<F>)
    requires |xs| == |ys|
  {
    forall i :: 0 <= i < |xs| ==> Eval(f, xs[i]) == ys[i]
  }

  function Padded(f: seq<F>, n: nat): (p: seq<F>)
    requires |f| <= n
    ensures |p| == n
    decreases n - |f|
  {
    if |f| == n then f else Padded(f + [Zero], n)
  }

  lemma {:induction false} EvalPadded(f: seq<F>, n: nat, x: F)
    requires |f| <= n
    ensures Eval(Padded(f, n), x) == Eval(f, x)
    decreases n - |f|
  {
    if |f| < n {
      EvalPad(f, x);
      EvalPadded(f + [Zero], n, x);
    }
  }

  /** Lagrange: the sum is the value of any polynomial of low degree through the points. */
  lemma Interpolation(f: seq<F>, xs: seq<F>, ys: seq<F>, u: F)
    requires |f| <= |xs| == |ys| && Distinct(xs) && Through(f, xs, ys)
    ensures SumAt(xs, ys, |xs|, u) == Eval(f, u)
  {
    var n := |xs|;
    var p, g := Padded(f, n), SumPoly(xs, ys, n);
    var d := Plus(p, g);
    forall i | 0 <= i < n ensures Eval(d, xs[i]) == Zero {
      EvalPlus(p, g, xs[i]);
      EvalPadded(f, n, xs[i]);
      SumPolyValue(xs, ys, n, xs[i]);
      SumAtPoint(xs, ys, n, i);
      AddLaws(ys[i], Zero, Zero);
    }
    ManyRoots(d, xs, u);
    EvalPlus(p, g, u);
    EvalPadded(f, n, u);
    SumPolyValue(xs, ys, n, u);
    AddCancel(Eval(f, u), SumAt(xs, ys, n, u));
  }
}
