/** The sum of two points of the curve is a point of the curve. */
module CurveClosure {
  import opened Arith
  import opened Modular
  import opened Words
  import opened Primes
  import opened BignumSpec
  import opened CurveSpec

  lemma CubeAt(x: int, u: int, a: int, b: int)
    ensures Cubic(x + u, a, b) == Cubic(x, a, b) + u * (u * u + (3 * x) * u + (3 * (x * x) + a))
  {
    assert (x + u) * (x + u) == x * x + 2 * (x * u) + u * u;
    var s := x * x + 2 * (x * u) + u * u + a;
    Distrib(s, x, u);
    assert s * x == (x * x + a) * x + u * (2 * (x * x) + x * u) by {
      assert 2 * (x * u) * x == u * (2 * (x * x));
      assert (u * u) * x == u * (x * u);
    }
    assert s * u == u * (x * x + 2 * (x * u) + u * u + a);
  }

  lemma SquareAt(l: int, u: int, y: int)
    ensures (l * u + y) * (l * u + y) == y * y + u * ((l * l) * u + 2 * (l * y))
  {
    assert (l * u) * (l * u) == u * ((l * l) * u) by {
      Assoc(l, u, l * u);
      Assoc(u, l, u);
      Assoc(l, l, u);
      Assoc(u, l, l * u);
    }
    assert (l * u) * y == u * (l * y);
  }

  /** Cubic minus line squared at x + u, where the line of slope l passes through (x, y). */
  lemma GapAt(x: int, y: int, l: int, u: int, a: int, b: int, m: int)
    requires m == 3 * x - l * l
    ensures Cubic(x + u, a, b) - (l * u + y) * (l * u + y)
         == u * (u * u + m * u + (3 * (x * x) + a - 2 * (l * y))) + (Cubic(x, a, b) - y * y)
  {
    CubeAt(x, u, a, b);
    SquareAt(l, u, y);
    Distrib(u, u * u + (3 * x) * u + (3 * (x * x) + a), (l * l) * u + 2 * (l * y));
    Distrib(u, 3 * x, l * l);
    assert m * u == (3 * x) * u - (l * l) * u;
  }

  /** The second factor of the gap takes the same value at the other two roots. */
  lemma OtherRoot(m: int, d: int, k: int)
    ensures (-m - d) * (-m - d) + m * (-m - d) + k == d * d + m * d + k
  {}

  /** The line meets the curve a third time at l^2 - x1 - x2. */
  lemma ThirdRoot(q: Point, r: Point, l: int, c: Curve)
    requires Valid(c) && q.At? && r.At? && OnCurve(c, q) && OnCurve(c, r)
    requires q.x == r.x ==> Cong(l * (2 * q.y), 3 * (q.x * q.x) + c.a, c.prime)
    requires Cong(l * (q.x - r.x), q.y - r.y, c.prime)
    ensures var u := l * l - q.x - r.x - q.x;
            Cong(Cubic(q.x + u, c.a, c.b), (l * u + q.y) * (l * u + q.y), c.prime)
  {
    var p, m, d := c.prime, 3 * q.x - l * l, r.x - q.x;
    var k := 3 * (q.x * q.x) + c.a - 2 * (l * q.y);
    var g := Cubic(q.x, c.a, c.b) - q.y * q.y;
    var u := -m - d;
    EquationMeans(c, q.x, q.y);
    CongAdd(Cubic(q.x, c.a, c.b), q.y * q.y, q.y * q.y, q.y * q.y, p);
    if q.x == r.x {
      TangentSecond(l, q.y, 3 * (q.x * q.x) + c.a, m, k, d, p);
    } else {
      UnitDifference(c, q, r);
      EquationMeans(c, r.x, r.y);
      ChordSecond(q.x, q.y, r.x, r.y, l, c.a, c.b, m, k, d, p);
    }
    GapAt(q.x, q.y, l, u, c.a, c.b, m);
    OtherRoot(m, d, k);
    var v := u * u + m * u + k;
    CongMul(u, u, v, 0, p);
    CongAdd(u * v, 0, g, 0, p);
    var f, h := Cubic(q.x + u, c.a, c.b), (l * u + q.y) * (l * u + q.y);
    CongAdd(f - h, 0, h, h, p);
  }

  /** A tangent meets the curve twice at its point. */
  lemma TangentSecond(l: int, y: int, n: int, m: int, k: int, d: int, p: int)
    requires p > 0 && Cong(l * (2 * y), n, p) && k == n - 2 * (l * y) && d == 0
    ensures Cong(d * d + m * d + k, 0, p)
  {
    TangentRoot(l, y, n, p);
    NoShift(m, d, k);
  }

  lemma ChordSecond(x1: int, y1: int, x2: int, y2: int, l: int, a: int, b: int, m: int, k: int, d: int, p: int)
    requires IsPrime(p) && !Cong(d, 0, p) && Cong(y1 * y1, Cubic(x1, a, b), p) && Cong(y2 * y2, Cubic(x2, a, b), p)
    requires Cong(l * (x1 - x2), y1 - y2, p) && d == x2 - x1
    requires m == 3 * x1 - l * l && k == 3 * (x1 * x1) + a - 2 * (l * y1)
    ensures Cong(d * d + m * d + k, 0, p)
  {
    ChordGap(x1, y1, x2, y2, l, a, b, m, k, d, p);
    EuclidLemma(d, d * d + m * d + k, p);
  }

  lemma NoShift(m: int, d: int, k: int)
    requires d == 0
    ensures d * d + m * d + k == k
  {}

  lemma UnitDifference(c: Curve, q: Point, r: Point)
    requires Valid(c) && q.At? && r.At? && Reduced(c, q) && Reduced(c, r) && q.x != r.x
    ensures !Cong(r.x - q.x, 0, c.prime)
  {
    SlopeDefined(c, r, q);
  }

  lemma TangentRoot(l: int, y: int, n: int, p: int)
    requires p > 0 && Cong(l * (2 * y), n, p)
    ensures Cong(n - 2 * (l * y), 0, p)
  {
    assert l * (2 * y) == 2 * (l * y);
    CongAdd(n, l * (2 * y), l * (2 * y), l * (2 * y), p);
  }

  /** A chord meets the curve at its second end. */
  lemma ChordGap(x1: int, y1: int, x2: int, y2: int, l: int, a: int, b: int, m: int, k: int, d: int, p: int)
    requires p > 0 && Cong(y1 * y1, Cubic(x1, a, b), p) && Cong(y2 * y2, Cubic(x2, a, b), p)
    requires Cong(l * (x1 - x2), y1 - y2, p) && d == x2 - x1
    requires m == 3 * x1 - l * l && k == 3 * (x1 * x1) + a - 2 * (l * y1)
    ensures Cong(d * (d * d + m * d + k), 0, p)
  {
    var f, e, w := Cubic(x2, a, b), Cubic(x1, a, b), l * d + y1;
    GapAt(x1, y1, l, d, a, b, m);
    LineAt(l, x1 - x2, d, y1, y2, w, p);
    GapZero(f, w * w, y2 * y2, e, y1 * y1, d * (d * d + m * d + k), p);
  }

  lemma LineAt(l: int, e: int, d: int, y1: int, y2: int, w: int, p: int)
    requires p > 0 && Cong(l * e, y1 - y2, p) && d == -e && w == l * d + y1
    ensures Cong(w * w, y2 * y2, p)
  {
    assert l * d == -(l * e);
    CongAdd(y1, y1, l * e, y1 - y2, p);
    CongMul(w, y2, w, y2, p);
  }

  /** f - w = v + (e - s) with f = w and e = s */
  lemma GapZero(f: int, w: int, y: int, e: int, s: int, v: int, p: int)
    requires p > 0 && Cong(y, f, p) && Cong(w, y, p) && Cong(s, e, p) && f - w == v + (e - s)
    ensures Cong(v, 0, p)
  {
    CongAdd(f, w, w, w, p);
    CongAdd(e, s, s, s, p);
    CongAdd(f - w, 0, e - s, 0, p);
  }

  lemma CubicCong(x: int, x3: int, a: int, b: int, p: int)
    requires p > 0 && Cong(x, x3, p)
    ensures Cong(Cubic(x, a, b), Cubic(x3, a, b), p)
  {
    CongMul(x, x3, x, x3, p);
    CongAdd(x * x, x3 * x3, a, a, p);
    CongMul(x * x + a, x3 * x3 + a, x, x3, p);
    CongAdd((x * x + a) * x, (x3 * x3 + a) * x3, b, b, p);
  }

  /** y is the negative of the ordinate w on the line. */
  lemma LineCong(x: int, y: int, x3: int, w: int, x1: int, y1: int, l: int, p: int)
    requires p > 0 && Cong(x, x3, p) && Cong(y, l * (x1 - x) - y1, p) && w == l * (x3 - x1) + y1
    ensures Cong(y, -w, p)
  {
    CongAdd(x1, x1, x, x3, p);
    CongMul(l, l, x1 - x, x1 - x3, p);
    CongAdd(l * (x1 - x), l * (x1 - x3), y1, y1, p);
    assert l * (x1 - x3) == -(l * (x3 - x1)) by { Distrib(l, x1, x3); Distrib(l, x3, x1); }
  }

  /** The reflected third root satisfies the equation modulo p. */
  lemma Reflected(x: int, y: int, x3: int, w: int, x1: int, y1: int, l: int, a: int, b: int, p: int)
    requires p > 0 && Cong(x, x3, p) && Cong(y, l * (x1 - x) - y1, p) && w == l * (x3 - x1) + y1
    requires Cong(Cubic(x3, a, b), w * w, p)
    ensures Cong(y * y, Cubic(x, a, b), p)
  {
    CubicCong(x, x3, a, b, p);
    LineCong(x, y, x3, w, x1, y1, l, p);
    CongMul(y, -w, y, -w, p);
    assert -w * -w == w * w;
  }

  lemma AddOnCurve(c: Curve, q: Point, r: Point)
    requires Valid(c) && OnCurve(c, q) && OnCurve(c, r)
    ensures OnCurve(c, Add(c, q, r))
  {
    if q.At? && r.At? && !Opposite(q, r) {
      var s := Add(c, q, r);
      var l := SumEquations(c, q, r);
      var u := l * l - q.x - r.x - q.x;
      ThirdRoot(q, r, l, c);
      EquationMeans(c, s.x, s.y);
      Reflected(s.x, s.y, q.x + u, l * u + q.y, q.x, q.y, l, c.a, c.b, c.prime);
    }
  }
}
