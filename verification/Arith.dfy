/**
 Nonlinear facts about the integers, one product at a time.

 Folding.  The verifier expands a function or predicate wherever its name occurs, which
 the long proofs about curves, groups and registers cannot afford.  Two devices keep a
 name folded; neither changes what it means:

 - A condition that is carried along but not looked into is returned as a `Verdict`, and
   the contracts say `.Holds?`.
 - A definition that must stay out of sight is written a few calls deep: F(x) is
   FIn(FOLDS, x), where FIn(depth, x) is FIn(depth - 1, x) until depth is 0 and only then
   the definition.  The verifier unfolds at most two calls, so it sees F as a mere name.
   The lemma named `..Means` unwinds the calls by induction; callers that need the
   definition call that lemma.

 Examples are CurveSpec.Equation, Jacobian.Over, CurveGroup.Multiple, Bip32Spec.ChildPoint,
 ScalarMultiply.Partial, Powers.Two, Checksum.Register and Bech32Spec.CharOf.
 */
module Arith {
  /** A truth value; see the note on folding above. */
  datatype Verdict = Holds | Fails

  /** How often a folded function calls itself; see the note on folding above. */
  const FOLDS: nat := 4

  lemma MulLe(a: int, x: int, y: int)
    requires 0 <= a && x <= y
    ensures a * x <= a * y
  {}

  lemma MulLt(a: int, x: int, y: int)
    requires 0 < a && x < y
    ensures a * x < a * y
  {}

  lemma MulPositive(a: int, b: int)
    requires 0 < a && 0 < b
    ensures 0 < a * b
  {}

  lemma MulNonNegative(a: int, b: int)
    requires 0 <= a && 0 <= b
    ensures 0 <= a * b
  {}

  /** Products of pairwise ordered non-negative factors are ordered. */
  lemma MulLe2(a: int, b: int, c: int, d: int)
    requires 0 <= a <= c && 0 <= b <= d
    ensures a * b <= c * d
  {
    MulLe(a, b, d);
    MulLe(d, a, c);
  }

  lemma Distrib(a: int, x: int, y: int)
    ensures a * (x + y) == a * x + a * y
    ensures a * (x - y) == a * x - a * y
  {}

  /** Multiplying both sides of an equation. */
  lemma MulEq(a: int, x: int, y: int)
    requires x == y
    ensures a * x == a * y
  {}

  lemma Assoc(a: int, b: int, c: int)
    ensures a * (b * c) == (a * b) * c
  {}

  lemma Rotate(a: int, b: int, c: int)
    ensures (a * b) * c == (a * c) * b
  {
    Assoc(a, b, c);
    Assoc(a, c, b);
  }

  lemma Interchange(a: int, b: int, c: int, d: int)
    ensures (a * b) * (c * d) == (a * c) * (b * d)
  {
    Assoc(a, b, c * d);
    Assoc(b, c, d);
    Assoc(c, b, d);
    Assoc(a, c, b * d);
  }

  lemma DivMod(x: int, m: int)
    requires m > 0
    ensures x == m * (x / m) + x % m && 0 <= x % m < m
  {}

  /** Quotient and remainder are unique. */
  lemma DivModUnique(x: int, q: int, r: int, m: int)
    requires m > 0 && x == m * q + r && 0 <= r < m
    ensures x / m == q && x % m == r
  {
    var q', r' := x / m, x % m;
    DivMod(x, m);
    Distrib(m, q, q');
    if q > q' { MulLe(m, 1, q - q'); assert false; }
    if q < q' { MulLe(m, q - q', -1); assert false; }
  }

  /** Digits below the base are determined by the sum they occur in. */
  lemma SplitUnique(a: int, x: int, b: int, y: int, m: int)
    requires m > 0 && 0 <= a < m && 0 <= b < m
    requires a + m * x == b + m * y
    ensures a == b && x == y
  {
    DivModUnique(a + m * x, x, a, m);
    DivModUnique(a + m * x, y, b, m);
  }

  /** Dividing by a product is dividing twice. */
  lemma DivDiv(x: int, a: int, b: int)
    requires a > 0 && b > 0
    ensures a * b > 0
    ensures x / (a * b) == (x / a) / b
    ensures x % (a * b) == a * ((x / a) % b) + x % a
  {
    MulPositive(a, b);
    DivMod(x, a);
    DivMod(x / a, b);
    var q, s, r := (x / a) / b, (x / a) % b, x % a;
    Distrib(a, b * q, s);
    Assoc(a, b, q);
    MulLe(a, s, b - 1);
    Distrib(a, b, 1);
    DivModUnique(x, q, a * s + r, a * b);
  }

  /** x / m is the largest q with m * q <= x. */
  lemma DivBounds(x: int, m: int, q: int)
    requires m > 0
    ensures m * q <= x ==> q <= x / m
    ensures x < m * q ==> x / m < q
  {
    DivMod(x, m);
    if m * q <= x && q > x / m {
      MulLe(m, x / m + 1, q);
      Distrib(m, x / m, 1);
      assert false;
    }
    if x < m * q && x / m >= q {
      MulLe(m, q, x / m);
      assert false;
    }
  }
}
