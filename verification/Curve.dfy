/**
 The point routines.  Structs are copied by assignment in the source, so a bignum is
 modelled by the number it holds; points are objects that the routines overwrite.
 */
module CurvePoints {
  import opened Arith
  import opened Modular
  import opened Words
  import opened Primes
  import opened BignumSpec
  import opened FieldOps
  import opened CurveSpec
  import opened CurveClosure

  /** An affine point; (0, 0) stands for infinity. */
  class CurvePoint {
    var x: int
    var y: int

    constructor (x: int, y: int)
      ensures this.x == x && this.y == y
    {
      this.x, this.y := x, y;
    }

    function View(): Point
      reads this
    {
      Decode(x, y)
    }

    method SetInfinity()
      modifies this
      ensures View() == Infinity
    {
      x, y := 0, 0;
    }

    method Copy(that: CurvePoint)
      modifies this
      ensures x == old(that.x) && y == old(that.y)
    {
      x, y := that.x, that.y;
    }
  }

  function Decode(x: int, y: int): Point {
    if x == 0 && y == 0 then Infinity else At(x, y)
  }

  /** point_is_negative_of */
  predicate IsNegativeOf(q: Point, r: Point)
    requires q.At? && r.At?
  {
    q.x == r.x && q.y != 0 && q.y != r.y
  }

  /** On the curve, the test for a negative misses no pair of opposite points but a doubled one. */
  lemma NegativeTest(c: Curve, q: Point, r: Point)
    requires Valid(c) && OnCurve(c, q) && OnCurve(c, r) && q.At? && r.At? && q != r
    ensures IsNegativeOf(q, r) <==> Opposite(q, r)
    ensures Opposite(q, r) <==> q.x == r.x
  {
    var p := c.prime;
    if q.x == r.x && q.y == 0 {
      // y2^2 = y1^2 = 0
      EquationMeans(c, q.x, q.y);
      EquationMeans(c, r.x, r.y);
      assert Cong(r.y * r.y, 0, p);
      if !Cong(r.y, 0, p) {
        EuclidLemma(r.y, r.y, p);
        assert false;
      }
      CongSmall(r.y, 0, p);
    }
  }

  /** A sum of points other than infinity is not the pair (0, 0). */
  lemma OriginNotOnCurve(c: Curve)
    requires Valid(c)
    ensures !OnCurve(c, At(0, 0))
  {
    SmallNotZero(c.b, c.prime);
    EquationMeans(c, 0, 0);
  }

  /** l = (y2 - y1) / (x2 - x1), from its computation with partly reduced numbers. */
  lemma ChordSlope(q: Point, r: Point, d: int, inv: int, n: int, l: int, p: int)
    requires p > 0 && q.At? && r.At?
    requires Cong(d, r.x - q.x, p) && IsInverse(d, inv, p) && Cong(n, r.y - q.y, p) && Cong(l, inv * n, p)
    ensures Cong(l * (q.x - r.x), q.y - r.y, p)
  {
    var e := q.x - r.x;
    CongAdd(0, 0, d, r.x - q.x, p);
    CongAdd(0, 0, n, r.y - q.y, p);
    CongMul(l, inv * n, e, -d, p);
    assert (inv * n) * -d == -(n * (d * inv)) by {
      Assoc(inv, n, d);
      Assoc(n, d, inv);
      assert (inv * n) * -d == -((inv * n) * d);
      assert (inv * n) * d == n * (d * inv) by { Assoc(n, inv, d); }
    }
    CongMul(n, n, d * inv, 1, p);
    CongAdd(0, 0, n * (d * inv), n, p);
  }

  /** l = (3 x^2 + a) / (2 y) */
  lemma TangentSlope(x: int, y: int, a: int, d: int, inv: int, xx: int, xx3: int, n: int, l: int, p: int)
    requires p > 0 && Cong(d, 2 * y, p) && IsInverse(d, inv, p)
    requires Cong(xx, x * x, p) && Cong(xx3, 3 * xx, p) && Cong(n, xx3 + a, p) && Cong(l, n * inv, p)
    ensures Cong(l * (2 * y), 3 * (x * x) + a, p)
  {
    CongMul(l, n * inv, 2 * y, d, p);
    assert (n * inv) * d == n * (d * inv) by { Assoc(n, inv, d); }
    CongMul(n, n, d * inv, 1, p);
    CongMul(3, 3, xx, x * x, p);
    CongAdd(xx3, 3 * (x * x), a, a, p);
  }

  /** xr = lambda^2 - sum, fully reduced. */
  method ThirdX(lambda: int, sum: int, p: int) returns (xr: int)
    requires InRange(p) && 0 <= lambda < 2 * p && 0 <= sum <= 2 * p
    ensures 0 <= xr < p && Cong(xr, lambda * lambda - sum, p)
  {
    var t := Multiply(lambda, lambda, p);
    xr := SubtractMod(t, sum, p);
    CongAdd(t, lambda * lambda, sum, sum, p);
    xr := FastReduce(xr, p);
    xr := FullReduce(xr, p);
  }

  /** yr = lambda (x - xr) - y, fully reduced. */
  method ThirdY(lambda: int, x: int, y: int, xr: int, p: int) returns (yr: int)
    requires InRange(p) && 0 <= lambda < 2 * p && 0 <= x < p && 0 <= y < p && 0 <= xr < p
    ensures 0 <= yr < p && Cong(yr, lambda * (x - xr) - y, p)
  {
    var d := SubtractMod(x, xr, p);
    var t := Multiply(lambda, d, p);
    CongMul(lambda, lambda, d, x - xr, p);
    yr := SubtractMod(t, y, p);
    CongAdd(t, lambda * (x - xr), y, y, p);
    yr := FastReduce(yr, p);
    yr := FullReduce(yr, p);
  }

  /** cp2 := cp1 + cp2 */
  method PointAdd(c: Curve, cp1: CurvePoint, cp2: CurvePoint)
    requires Valid(c) && OnCurve(c, cp1.View()) && OnCurve(c, cp2.View())
    modifies cp2
    ensures cp2.View() == old(Add(c, cp1.View(), cp2.View()))
  {
    ghost var q, r := cp1.View(), cp2.View();
    OriginNotOnCurve(c);
    AddOnCurve(c, q, r);
    if cp1.x == 0 && cp1.y == 0 {
      return;
    }
    if cp2.x == 0 && cp2.y == 0 {
      cp2.Copy(cp1);
      return;
    }
    if cp1.x == cp2.x && cp1.y == cp2.y {
      PointDouble(c, cp2);
      return;
    }
    NegativeTest(c, q, r);
    if cp1.x == cp2.x && cp1.y != 0 && cp1.y != cp2.y {
      cp2.SetInfinity();
      return;
    }
    var lambda := Chord(cp1.x, cp1.y, cp2.x, cp2.y, c.prime);
    var yr := AddReduced(cp1.x, cp2.x, c.prime);
    var xr := ThirdX(lambda, yr, c.prime);
    CongAdd(lambda * lambda, lambda * lambda, yr, cp1.x + cp2.x, c.prime);
    yr := ThirdY(lambda, cp1.x, cp1.y, xr, c.prime);
    SlopeUnique(c, q, r, lambda);
    SumFromSlope(c, q, r, lambda, xr, yr);
    cp2.x := xr;
    cp2.y := yr;
  }

  method Chord(x1: int, y1: int, x2: int, y2: int, p: int) returns (lambda: int)
    requires IsPrime(p) && InRange(p) && 0 <= x1 < p && 0 <= x2 < p && 0 <= y1 < p && 0 <= y2 < p && x1 != x2
    ensures 0 <= lambda < 2 * p && Cong(lambda * (x1 - x2), y1 - y2, p)
  {
    var d := SubtractMod(x2, x1, p);
    SmallZero(x2 - x1, p);
    var inv := Invert(d, p);
    var n := SubtractMod(y2, y1, p);
    lambda := Multiply(inv, n, p);
    ChordSlope(At(x1, y1), At(x2, y2), d, inv, n, lambda, p);
  }

  method Tangent(x: int, y: int, a: int, p: int) returns (lambda: int)
    requires IsPrime(p) && InRange(p) && 0 <= x < p && 0 < y < p && -3 <= a <= 0 && -a <= p % WORD30
    ensures 0 <= lambda < 2 * p && Cong(lambda * (2 * y), 3 * (x * x) + a, p)
  {
    var d := MultiplyK(y, 2, p);
    if Cong(d, 0, p) {
      OddPrime(p);
      assert Pow2(1) == 2;
      CancelPow2(y, 1, p);
      SmallZero(y, p);
      assert false;
    }
    var inv := Invert(d, p);
    var xx := Multiply(x, x, p);
    var xx3 := MultiplyK(xx, 3, p);
    var n := SubtractI(xx3, -a, p);
    lambda := Multiply(n, inv, p);
    TangentSlope(x, y, a, d, inv, xx, xx3, n, lambda, p);
  }

  /** cp := cp + cp */
  method PointDouble(c: Curve, cp: CurvePoint)
    requires Valid(c) && OnCurve(c, cp.View())
    modifies cp
    ensures cp.View() == old(Add(c, cp.View(), cp.View()))
  {
    ghost var q := cp.View();
    OriginNotOnCurve(c);
    AddOnCurve(c, q, q);
    if cp.x == 0 && cp.y == 0 {
      return;
    }
    if cp.y == 0 {
      cp.SetInfinity();
      return;
    }
    var lambda := Tangent(cp.x, cp.y, c.a, c.prime);
    var xr := ThirdX(lambda, 2 * cp.x, c.prime);
    var yr := ThirdY(lambda, cp.x, cp.y, xr, c.prime);
    SlopeUnique(c, q, q, lambda);
    SumFromSlope(c, q, q, lambda, xr, yr);
    cp.x := xr;
    cp.y := yr;
  }
}
