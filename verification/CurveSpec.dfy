/**
 The affine chord-and-tangent addition on y^2 = x^3 + a x + b modulo a prime: what the
 curve routines are specified against.
 */
module CurveSpec {
  import opened Arith
  import opened Modular
  import opened Words
  import opened BignumSpec
  import opened Primes

  datatype Curve = Curve(prime: int, a: int, b: int, order: int, gx: int, gy: int)

  datatype Point = Infinity | At(x: int, y: int)

  /**
   What the code assumes of a curve: a prime in the range of the bignum engine, a small
   non-positive a that bn_subi can subtract, and b != 0, without which the pair (0, 0)
   that stands for infinity would be a point.
   */
  ghost predicate Valid(c: Curve) {
    && IsPrime(c.prime) && InRange(c.prime)
    && -3 <= c.a <= 0 && -c.a <= c.prime % WORD30
    && 0 < c.b < c.prime
  }

  /** Coordinates are residues modulo the prime. */
  predicate Reduced(c: Curve, q: Point) {
    q.At? ==> 0 <= q.x < c.prime && 0 <= q.y < c.prime
  }

  /** x^3 + a x + b */
  function Cubic(x: int, a: int, b: int): int {
    (x * x + a) * x + b
  }

  ghost function EquationIn(depth: nat, c: Curve, x: int, y: int): Verdict
    requires c.prime > 0
  {
    if depth > 0 then EquationIn(depth - 1, c, x, y)
    else if Cong(y * y, Cubic(x, c.a, c.b), c.prime) then Holds else Fails
  }

  /** Whether (x, y) satisfies the curve equation; folded (see Arith), EquationMeans unfolds it. */
  ghost function Equation(c: Curve, x: int, y: int): Verdict
    requires c.prime > 0
  {
    EquationIn(FOLDS, c, x, y)
  }

  ghost predicate OnCurve(c: Curve, q: Point) {
    Reduced(c, q) && (q.At? ==> c.prime > 0 && Equation(c, q.x, q.y).Holds?)
  }

  lemma {:induction false} EquationInMeans(depth: nat, c: Curve, x: int, y: int)
    requires c.prime > 0
    ensures EquationIn(depth, c, x, y).Holds? <==> Cong(y * y, Cubic(x, c.a, c.b), c.prime)
  {
    if depth > 0 { EquationInMeans(depth - 1, c, x, y); }
  }

  lemma EquationMeans(c: Curve, x: int, y: int)
    requires c.prime > 0
    ensures Equation(c, x, y).Holds? <==> Cong(y * y, Cubic(x, c.a, c.b), c.prime)
  {
    EquationInMeans(FOLDS, c, x, y);
  }

  /** q is -P; a point with y = 0 is its own negative. */
  predicate Opposite(q: Point, r: Point)
    requires q.At? && r.At?
  {
    q.x == r.x && (q.y != r.y || q.y == 0)
  }

  /** The negative of a point. */
  function Neg(c: Curve, q: Point): Point {
    if q.Infinity? then Infinity else At(q.x, if q.y == 0 then 0 else c.prime - q.y)
  }

  ghost function Slope(c: Curve, q: Point, r: Point): int
    requires Valid(c) && q.At? && r.At? && Reduced(c, q) && Reduced(c, r) && !Opposite(q, r)
  {
    var p := c.prime;
    SlopeDefined(c, q, r);
    if q.x == r.x
    then (3 * (q.x * q.x) + c.a) * Inv(2 * q.y, p)
    else (q.y - r.y) * Inv(q.x - r.x, p)
  }

  lemma SlopeDefined(c: Curve, q: Point, r: Point)
    requires Valid(c) && q.At? && r.At? && Reduced(c, q) && Reduced(c, r) && !Opposite(q, r)
    ensures q.x == r.x ==> !Cong(2 * q.y, 0, c.prime)
    ensures q.x != r.x ==> !Cong(q.x - r.x, 0, c.prime)
  {
    var p := c.prime;
    if q.x == r.x {
      if Cong(2 * q.y, 0, p) {
        OddPrime(p);
        assert Pow2(1) == 2;
        CancelPow2(q.y, 1, p);
        SmallZero(q.y, p);
        assert false;
      }
    } else {
      SmallZero(q.x - r.x, p);
    }
  }

  ghost function Add(c: Curve, q: Point, r: Point): Point
    requires Valid(c) && Reduced(c, q) && Reduced(c, r)
  {
    if q.Infinity? then r
    else if r.Infinity? then q
    else if Opposite(q, r) then Infinity
    else
      var l := Slope(c, q, r);
      ThirdPoint(l, q, r, c.prime)
  }

  /** The third point of the line of slope l through q and r, reflected. */
  function ThirdPoint(l: int, q: Point, r: Point, p: int): Point
    requires p > 0 && q.At? && r.At?
  {
    var x := (l * l - (q.x + r.x)) % p;
    At(x, (l * (q.x - x) - q.y) % p)
  }

  /** The slope is the quotient it is written as. */
  lemma SlopeEquation(c: Curve, q: Point, r: Point)
    requires Valid(c) && q.At? && r.At? && Reduced(c, q) && Reduced(c, r) && !Opposite(q, r)
    ensures var l := Slope(c, q, r);
            && (q.x == r.x ==> q.y == r.y && Cong(l * (2 * q.y), 3 * (q.x * q.x) + c.a, c.prime))
            && (q.x != r.x ==> Cong(l * (q.x - r.x), q.y - r.y, c.prime))
  {
    var p := c.prime;
    SlopeDefined(c, q, r);
    if q.x == r.x {
      QuotientEquation(3 * (q.x * q.x) + c.a, 2 * q.y, p);
    } else {
      QuotientEquation(q.y - r.y, q.x - r.x, p);
    }
  }

  lemma QuotientEquation(n: int, d: int, p: int)
    requires IsPrime(p) && !Cong(d, 0, p)
    ensures Cong((n * Inv(d, p)) * d, n, p)
  {
    var i := Inv(d, p);
    CongMul(n, n, d * i, 1, p);
    Assoc(n, i, d);
  }

  /** Any number with the slope's equation is congruent to the slope. */
  lemma SlopeUnique(c: Curve, q: Point, r: Point, l: int)
    requires Valid(c) && q.At? && r.At? && Reduced(c, q) && Reduced(c, r) && !Opposite(q, r)
    requires q.x == r.x ==> Cong(l * (2 * q.y), 3 * (q.x * q.x) + c.a, c.prime)
    requires q.x != r.x ==> Cong(l * (q.x - r.x), q.y - r.y, c.prime)
    ensures Cong(l, Slope(c, q, r), c.prime)
  {
    SlopeEquation(c, q, r);
    SlopeDefined(c, q, r);
    var d := if q.x == r.x then 2 * q.y else q.x - r.x;
    CancelFactor(d, l, Slope(c, q, r), c.prime);
  }

  /** The third point is determined by its equations, and by the slope modulo p. */
  lemma ThirdPointEquations(l: int, q: Point, r: Point, p: int, m: int, x: int, y: int)
    requires p > 0 && q.At? && r.At? && Cong(l, m, p)
    requires 0 <= x < p && Cong(x, l * l - (q.x + r.x), p)
    requires 0 <= y < p && Cong(y, l * (q.x - x) - q.y, p)
    ensures ThirdPoint(m, q, r, p) == At(x, y)
  {
    CongMul(l, m, l, m, p);
    CongAdd(l * l, m * m, q.x + r.x, q.x + r.x, p);
    CongMod(m * m - (q.x + r.x), p);
    CongSmall(x, (m * m - (q.x + r.x)) % p, p);
    CongMul(l, m, q.x - x, q.x - x, p);
    CongAdd(l * (q.x - x), m * (q.x - x), q.y, q.y, p);
    CongMod(m * (q.x - x) - q.y, p);
    CongSmall(y, (m * (q.x - x) - q.y) % p, p);
  }

  lemma ThirdPointRange(l: int, q: Point, r: Point, p: int)
    requires p > 0 && q.At? && r.At?
    ensures var s := ThirdPoint(l, q, r, p);
            && s.At? && 0 <= s.x < p && 0 <= s.y < p
            && Cong(s.x, l * l - (q.x + r.x), p) && Cong(s.y, l * (q.x - s.x) - q.y, p)
  {
    var x := (l * l - (q.x + r.x)) % p;
    CongMod(l * l - (q.x + r.x), p);
    CongMod(l * (q.x - x) - q.y, p);
  }

  /** The sum, from a number congruent to the slope. */
  lemma SumFromSlope(c: Curve, q: Point, r: Point, l: int, x: int, y: int)
    requires Valid(c) && q.At? && r.At? && Reduced(c, q) && Reduced(c, r) && !Opposite(q, r)
    requires Cong(l, Slope(c, q, r), c.prime)
    requires 0 <= x < c.prime && Cong(x, l * l - (q.x + r.x), c.prime)
    requires 0 <= y < c.prime && Cong(y, l * (q.x - x) - q.y, c.prime)
    ensures Add(c, q, r) == At(x, y)
  {
    ThirdPointEquations(l, q, r, c.prime, Slope(c, q, r), x, y);
  }

  /** Add(c, q, r) is a point whose coordinates satisfy the addition formulas. */
  lemma SumEquations(c: Curve, q: Point, r: Point) returns (l: int)
    requires Valid(c) && q.At? && r.At? && Reduced(c, q) && Reduced(c, r) && !Opposite(q, r)
    ensures var s := Add(c, q, r);
            && s.At? && 0 <= s.x < c.prime && 0 <= s.y < c.prime
            && Cong(s.x, l * l - (q.x + r.x), c.prime) && Cong(s.y, l * (q.x - s.x) - q.y, c.prime)
    ensures q.x == r.x ==> q.y == r.y && Cong(l * (2 * q.y), 3 * (q.x * q.x) + c.a, c.prime)
    ensures Cong(l * (q.x - r.x), q.y - r.y, c.prime)
  {
    l := Slope(c, q, r);
    SlopeEquation(c, q, r);
    ThirdPointRange(l, q, r, c.prime);
    if q.x == r.x { MulEq(l, q.x - r.x, 0); }
  }

  lemma SumOfTwo(a: int, b: int, p: int)
    requires 0 <= a < p && 0 <= b < p && a != b && Cong(a + b, 0, p)
    ensures a + b == p && a != 0 && b != 0
  {
    var k := ZeroCong(a + b, p);
    if k <= 0 { MulLe(p, k, 0); assert false; }
    if k >= 2 { MulLe(p, 2, k); assert false; }
  }

  /** Two points with the same x and different y have opposite y. */
  lemma OppositeY(x: int, y1: int, y2: int, c: Curve)
    requires Valid(c) && OnCurve(c, At(x, y1)) && OnCurve(c, At(x, y2)) && y1 != y2
    ensures Cong(y1 + y2, 0, c.prime)
  {
    var p := c.prime;
    EquationMeans(c, x, y1);
    EquationMeans(c, x, y2);
    SquareDifference(y1, y2, Cubic(x, c.a, c.b), p);
    SmallZero(y1 - y2, p);
    EuclidLemma(y1 - y2, y1 + y2, p);
  }

  lemma SquareDifference(y1: int, y2: int, w: int, p: int)
    requires p > 0 && Cong(y1 * y1, w, p) && Cong(y2 * y2, w, p)
    ensures Cong((y1 - y2) * (y1 + y2), 0, p)
  {
    assert (y1 - y2) * (y1 + y2) == y1 * y1 - y2 * y2;
    CongAdd(y1 * y1, w, y2 * y2, w, p);
  }
}
