/** The value shamir_interpolate accumulates, and that it is the interpolating polynomial's. */
module ShamirSpec {
  import opened Gf256
  import opened Gf256Inverse
  import opened Lagrange

  /** The denominator of share i: (u - x_i), or 1 for the requested share, times the differences. */
  function Denominator(xs: seq<F>, u: F, i: nat, n: nat): F
    requires i < |xs| && n <= |xs|
  {
    Mul(if xs[i] == u then One else Add(u, xs[i]), Differences(xs, xs[i], i, n))
  }

  /** Entry i says whether the denominator of share i is nonzero. */
  ghost predicate Regular(xs: seq<F>, u: F, regular: seq<bool>, i: nat) {
    i < |regular| && i < |xs| && (regular[i] <==> Denominator(xs, u, i, |xs|) != Zero)
  }

  ghost function Regularities(xs: seq<F>, u: F): (regular: seq<bool>)
    ensures |regular| == |xs| && forall i :: 0 <= i < |xs| ==> Regular(xs, u, regular, i)
  {
    seq(|xs|, i requires 0 <= i < |xs| => Denominator(xs, u, i, |xs|) != Zero)
  }

  /** All denominators are nonzero exactly when the indices are distinct. */
  lemma RegularDistinct(xs: seq<F>, u: F, regular: seq<bool>)
    requires regular == Regularities(xs, u)
    ensures Distinct(xs) <==> forall i :: 0 <= i < |regular| ==> regular[i]
  {
    if Distinct(xs) {
      forall i | 0 <= i < |regular| ensures regular[i] {
        assert Regular(xs, u, regular, i);
        DenominatorZero(xs, u, i);
        OtherIndices(xs, i);
      }
    } else {
      var i, j :| 0 <= i < j < |xs| && xs[i] == xs[j];
      assert Regular(xs, u, regular, i);
      DenominatorZero(xs, u, i);
    }
  }

  lemma OtherIndices(xs: seq<F>, i: nat)
    requires Distinct(xs) && i < |xs|
    ensures !exists j :: 0 <= j < |xs| && j != i && xs[j] == xs[i]
  {
    forall j | 0 <= j < |xs| && j != i ensures xs[j] != xs[i] {
      if i < j { assert xs[i] != xs[j]; }
    }
  }

  function Numerator(xs: seq<F>, u: F): F {
    Differences(xs, u, -1, |xs|)
  }

  /** The scaled coefficient of share i. */
  function Term(xs: seq<F>, u: F, i: nat, y: F): F
    requires i < |xs|
  {
    Mul(Mul(Inverse(Denominator(xs, u, i, |xs|)), Numerator(xs, u)), y)
  }

  function Terms(xs: seq<F>, ys: seq<F>, u: F): seq<F>
    requires |xs| == |ys|
  {
    seq(|xs|, i requires 0 <= i < |xs| => Term(xs, u, i, ys[i]))
  }

  /** The share that is asked for is added as it is. */
  function Hits(xs: seq<F>, ys: seq<F>, u: F): seq<F>
    requires |xs| == |ys|
  {
    seq(|xs|, i requires 0 <= i < |xs| => if xs[i] == u then ys[i] else Zero)
  }

  function Accumulate(hits: seq<F>, terms: seq<F>, m: nat): F
    requires m <= |hits| == |terms|
  {
    if m == 0 then Zero else Add(Add(Accumulate(hits, terms, m - 1), hits[m - 1]), terms[m - 1])
  }

  /** The sum over all shares. */
  function Secret(xs: seq<F>, ys: seq<F>, u: F): F
    requires |xs| == |ys|
  {
    Accumulate(Hits(xs, ys, u), Terms(xs, ys, u), |xs|)
  }

  /** A denominator vanishes exactly for a repeated index. */
  lemma DenominatorZero(xs: seq<F>, u: F, i: nat)
    requires i < |xs|
    ensures Denominator(xs, u, i, |xs|) == Zero <==> exists j :: 0 <= j < |xs| && j != i && xs[j] == xs[i]
  {
    AddCancel(u, xs[i]);
    DifferencesZero(xs, xs[i], i, |xs|);
    var d := if xs[i] == u then One else Add(u, xs[i]);
    assert One[0] && !Zero[0];
    NoZeroDivisors(d, Differences(xs, xs[i], i, |xs|));
  }

  lemma {:induction false} SkipOne(xs: seq<F>, u: F, i: nat, n: nat)
    requires i < n <= |xs|
    ensures Differences(xs, u, -1, n) == Mul(Differences(xs, u, i, n), Add(u, xs[i]))
  {
    if n - 1 == i {
      SameBelow(xs, u, i, n - 1);
    } else {
      SkipOne(xs, u, i, n - 1);
      var d, a, b := Differences(xs, u, i, n - 1), Add(u, xs[i]), Add(u, xs[n - 1]);
      MulAssoc(d, a, b);
      MulComm(a, b);
      MulAssoc(d, b, a);
    }
  }

  lemma {:induction false} SameBelow(xs: seq<F>, u: F, i: nat, n: nat)
    requires n <= i && n <= |xs|
    ensures Differences(xs, u, -1, n) == Differences(xs, u, i, n)
  {
    if n > 0 { SameBelow(xs, u, i, n - 1); }
  }

  lemma InverseUnique(a: F, b: F)
    requires Mul(a, b) == One
    ensures Inverse(a) == b
  {
    MulZero(b);
    assert One[0] && !Zero[0];
    assert a != Zero;
    InverseLaw(a);
    MulAssoc(Inverse(a), a, b);
    MulOne(b);
    MulOne(Inverse(a));
  }

  lemma InverseProduct(a: F, b: F)
    requires a != Zero && b != Zero
    ensures Inverse(Mul(a, b)) == Mul(Inverse(a), Inverse(b))
  {
    InverseLaw(a);
    InverseLaw(b);
    var i, j := Inverse(a), Inverse(b);
    Interleave(a, b, i, j);
    MulOne(One);
    InverseUnique(Mul(a, b), Mul(i, j));
  }

  lemma Interleave(a: F, b: F, c: F, d: F)
    ensures Mul(Mul(a, b), Mul(c, d)) == Mul(Mul(a, c), Mul(b, d))
  {
    MulAssoc(a, b, Mul(c, d));
    MulSwap(b, c, d);
    MulAssoc(a, c, Mul(b, d));
  }

  /** (d w)^-1 (n d) y = y w^-1 n */
  lemma TermValue(d: F, w: F, n: F, y: F)
    requires d != Zero && w != Zero
    ensures Mul(Mul(Inverse(Mul(d, w)), Mul(n, d)), y) == Mul(Mul(y, Inverse(w)), n)
  {
    var i, j := Inverse(d), Inverse(w);
    InverseProduct(d, w);
    InverseLaw(d);
    MulComm(n, d);
    Interleave(i, j, d, n);
    var m := Mul(j, n);
    MulOne(m);
    MulComm(m, y);
    MulAssoc(y, j, n);
  }

  lemma NewTerm(xs: seq<F>, u: F, i: nat, y: F)
    requires i < |xs| && Distinct(xs) && xs[i] != u
    ensures Term(xs, u, i, y) == Mul(Mul(y, Weight(xs, i)), Differences(xs, u, i, |xs|))
  {
    SkipOne(xs, u, i, |xs|);
    AddCancel(u, xs[i]);
    DifferencesZero(xs, xs[i], i, |xs|);
    TermValue(Add(u, xs[i]), Differences(xs, xs[i], i, |xs|), Differences(xs, u, i, |xs|), y);
  }

  lemma VanishingTerm(xs: seq<F>, k: nat, i: nat, y: F)
    requires k < |xs| && i < |xs|
    ensures Term(xs, xs[k], i, y) == Zero
  {
    DifferencesZero(xs, xs[k], -1, |xs|);
    assert Numerator(xs, xs[k]) == Zero;
    MulZero(Inverse(Denominator(xs, xs[k], i, |xs|)));
    MulZero(y);
  }

  function Sum(terms: seq<F>, m: nat): F
    requires m <= |terms|
  {
    if m == 0 then Zero else Add(Sum(terms, m - 1), terms[m - 1])
  }

  lemma {:induction false} AccumulateSum(hits: seq<F>, terms: seq<F>, m: nat)
    requires m <= |hits| == |terms| && forall i :: 0 <= i < |hits| ==> hits[i] == Zero
    ensures Accumulate(hits, terms, m) == Sum(terms, m)
  {
    if m > 0 {
      AccumulateSum(hits, terms, m - 1);
      AddLaws(Sum(terms, m - 1), Zero, Zero);
    }
  }

  lemma {:induction false} AccumulateHit(hits: seq<F>, terms: seq<F>, k: nat, m: nat)
    requires m <= |hits| == |terms| && k < |hits|
    requires forall i :: 0 <= i < |hits| ==> terms[i] == Zero && (i != k ==> hits[i] == Zero)
    ensures Accumulate(hits, terms, m) == if k < m then hits[k] else Zero
  {
    if m > 0 {
      AccumulateHit(hits, terms, k, m - 1);
      AddLaws(hits[k], Zero, Zero);
      AddLaws(Zero, Zero, Zero);
    }
  }

  lemma {:induction false} SumIsSumAt(xs: seq<F>, ys: seq<F>, u: F, terms: seq<F>, m: nat)
    requires m <= |xs| == |ys| == |terms|
    requires forall i :: 0 <= i < |xs| ==> terms[i] == Mul(Mul(ys[i], Weight(xs, i)), Differences(xs, u, i, |xs|))
    ensures Sum(terms, m) == SumAt(xs, ys, m, u)
  {
    if m > 0 { SumIsSumAt(xs, ys, u, terms, m - 1); }
  }

  /** For a new index, the code's sum is the Lagrange sum. */
  lemma SecretIsSum(xs: seq<F>, ys: seq<F>, u: F)
    requires |xs| == |ys| && Distinct(xs) && forall i :: 0 <= i < |xs| ==> xs[i] != u
    ensures Secret(xs, ys, u) == SumAt(xs, ys, |xs|, u)
  {
    var hits, terms := Hits(xs, ys, u), Terms(xs, ys, u);
    AccumulateSum(hits, terms, |xs|);
    forall i | 0 <= i < |xs|
      ensures terms[i] == Mul(Mul(ys[i], Weight(xs, i)), Differences(xs, u, i, |xs|))
    {
      NewTerm(xs, u, i, ys[i]);
    }
    SumIsSumAt(xs, ys, u, terms, |xs|);
  }

  /** For the index of a share, it is that share's value. */
  lemma SecretIsShare(xs: seq<F>, ys: seq<F>, k: nat)
    requires |xs| == |ys| && k < |xs| && Distinct(xs)
    ensures Secret(xs, ys, xs[k]) == ys[k]
  {
    var hits, terms := Hits(xs, ys, xs[k]), Terms(xs, ys, xs[k]);
    forall i | 0 <= i < |xs| ensures terms[i] == Zero && (i != k ==> hits[i] == Zero) {
      VanishingTerm(xs, k, i, ys[i]);
      if i < k { assert xs[i] != xs[k]; } else if k < i { assert xs[k] != xs[i]; }
    }
    AccumulateHit(hits, terms, k, |xs|);
  }

  /** The recovered value lies on every polynomial of low degree through the shares. */
  lemma SecretIsValue(f: seq<F>, xs: seq<F>, ys: seq<F>, u: F)
    requires |f| <= |xs| == |ys| && Distinct(xs) && Through(f, xs, ys)
    ensures Secret(xs, ys, u) == Eval(f, u)
  {
    if k :| 0 <= k < |xs| && xs[k] == u {
      SecretIsShare(xs, ys, k);
    } else {
      SecretIsSum(xs, ys, u);
      Interpolation(f, xs, ys, u);
    }
  }

  /** There is such a polynomial. */
  lemma SharesHavePolynomial(xs: seq<F>, ys: seq<F>)
    requires |xs| == |ys| && Distinct(xs)
    ensures |SumPoly(xs, ys, |xs|)| == |xs| && Through(SumPoly(xs, ys, |xs|), xs, ys)
  {
    forall k | 0 <= k < |xs| ensures Eval(SumPoly(xs, ys, |xs|), xs[k]) == ys[k] {
      SumPolyValue(xs, ys, |xs|, xs[k]);
      SumAtPoint(xs, ys, |xs|, k);
    }
  }
}
