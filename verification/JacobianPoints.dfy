/** The projective point routines: no inversion, and results only partly reduced. */
module JacobianPoints {
  import opened Arith
  import opened Modular
  import opened Words
  import opened Primes
  import opened BignumSpec
  import opened FieldOps
  import opened CurveSpec
  import opened CurveClosure
  import opened CurvePoints
  import opened Jacobian

  class JacobianPoint {
    var x: int
    var y: int
    var z: int

    constructor (x: int, y: int, z: int)
      ensures this.x == x && this.y == y && this.z == z
    {
      this.x, this.y, this.z := x, y, z;
    }

    /** The coordinates stand for the affine point q. */
    ghost predicate Represents(c: Curve, q: Point)
      requires c.prime > 0
      reads this
    {
      Stands(c, x, y, z, q).Holds?
    }
  }

  ghost function Stands(c: Curve, x: int, y: int, z: int, q: Point): Verdict
    requires c.prime > 0
  {
    if Standing(c, x, y, z, q) then Holds else Fails
  }

  /** The coordinates are partly reduced and stand for the affine point q. */
  ghost predicate Standing(c: Curve, x: int, y: int, z: int, q: Point)
    requires c.prime > 0
  {
    var p := c.prime;
    && q.At? && OnCurve(c, q)
    && 0 <= x < 2 * p && 0 <= y < 2 * p && 0 <= z < 2 * p
    && !Cong(z, 0, p) && Over(x, y, z, q.x, q.y, p).Holds?
  }

  // ------------------------------------------------------------ congruences

  /** b / z^2 from x1 z^2 with a partly reduced z^2 */
  lemma Scaled(v: int, x: int, w: int, z: int, p: int)
    requires p > 0 && Cong(v, x * w, p) && Cong(w, z, p)
    ensures Cong(v, x * z, p)
  {
    CongMul(x, x, w, z, p);
  }

  lemma SumDifference(v: int, u: int, x: int, y: int, z: int, p: int)
    requires p > 0 && Cong(v, x * z, p) && Cong(u, y * z, p)
    ensures Cong(v + u, (x + y) * z, p) && Cong(v - u, (x - y) * z, p)
  {
    CongAdd(v, x * z, u, y * z, p);
    Distrib(z, x, y);
  }

  /** h^2 s z^2 over the denominator w = h z. */
  lemma SquareOver(v: int, sx: int, s: int, hh: int, h: int, z: int, w: int, p: int)
    requires p > 0 && Cong(sx, s * (z * z), p) && Cong(hh, h * h, p)
    requires Cong(v, sx * hh, p) && Cong(w, h * z, p)
    ensures Cong(v, s * (w * w), p)
  {
    CongMul(sx, s * (z * z), hh, h * h, p);
    Assoc(s, z * z, h * h);
    SquareProduct(z, h);
    var m := h * z;
    CongMul(w, m, w, m, p);
    CongMul(s, s, w * w, m * m, p);
  }

  lemma SquareProduct(z: int, h: int)
    ensures (z * z) * (h * h) == (h * z) * (h * z)
  {}

  lemma CubeProduct(z: int, h: int)
    ensures (z * z * z) * (h * h * h) == (h * z) * (h * z) * (h * z)
  {
    var zz, hh := z * z, h * h;
    assert (zz * z) * (hh * h) == (zz * hh) * (z * h) by {
      Assoc(zz, z, hh * h);
      Assoc(z, hh, h);
      Assoc(hh, z, h);
      Assoc(zz, hh, z * h);
    }
    SquareProduct(z, h);
  }

  lemma CubeOver(v: int, sy: int, t: int, hhh: int, hh: int, h: int, z: int, w: int, p: int)
    requires p > 0 && Cong(sy, t * (z * z * z), p) && Cong(hh, h * h, p) && Cong(hhh, hh * h, p)
    requires Cong(v, sy * hhh, p) && Cong(w, h * z, p)
    ensures Cong(v, t * (w * w * w), p)
  {
    CongMul(hh, h * h, h, h, p);
    CongMul(sy, t * (z * z * z), hhh, h * h * h, p);
    Assoc(t, z * z * z, h * h * h);
    CubeProduct(z, h);
    var m := h * z;
    CongMul(w, m, w, m, p);
    CongMul(w * w, m * m, w, m, p);
    CongMul(t, t, w * w * w, m * m * m, p);
  }

  /** r = l w for distinct x: r = (y1 - y2) z^3, h = (x1 - x2) z^2. */
  lemma ChordNumerator(r: int, h: int, w: int, l: int, dx: int, dy: int, z: int, p: int)
    requires p > 0 && Cong(r, dy * (z * z * z), p) && Cong(h, dx * (z * z), p)
    requires Cong(w, h * z, p) && Cong(l * dx, dy, p)
    ensures Cong(r, l * w, p)
  {
    CongMul(h, dx * (z * z), z, z, p);
    Assoc(dx, z * z, z);
    CongMul(l, l, w, dx * (z * z * z), p);
    Assoc(l, dx, z * z * z);
    CongMul(l * dx, dy, z * z * z, z * z * z, p);
  }

  /** r = l w for a doubling: r = (3 x^2 + a) z^4, h = 2 y z^3. */
  lemma TangentNumerator(r: int, h: int, w: int, l: int, n: int, d: int, z: int, p: int)
    requires p > 0 && Cong(r, n * ((z * z) * (z * z)), p) && Cong(h, d * (z * z * z), p)
    requires Cong(w, h * z, p) && Cong(l * d, n, p)
    ensures Cong(r, l * w, p)
  {
    var zzz, z4 := z * z * z, (z * z) * (z * z);
    CongMul(h, d * zzz, z, z, p);
    Assoc(d, zzz, z);
    Assoc(z * z, z, z);
    assert zzz * z == z4;
    CongMul(l, l, w, d * z4, p);
    Assoc(l, d, z4);
    CongMul(l * d, n, z4, z4, p);
  }

  /** 3 x^2 + a z^4 over z^4 */
  lemma TangentOver(r: int, x: int, xx: int, xx3: int, az: int, ax: int, a: int, z: int, p: int)
    requires p > 0 && Cong(x, ax * (z * z), p) && Cong(xx, x * x, p) && Cong(xx3, 3 * xx, p)
    requires Cong(az, -a * ((z * z) * (z * z)), p) && Cong(r, xx3 - az, p)
    ensures Cong(r, (3 * (ax * ax) + a) * ((z * z) * (z * z)), p)
  {
    var zz, z4 := z * z, (z * z) * (z * z);
    CongMul(x, ax * zz, x, ax * zz, p);
    assert (ax * zz) * (ax * zz) == (ax * ax) * z4;
    CongMul(3, 3, xx, (ax * ax) * z4, p);
    CongAdd(xx3, 3 * ((ax * ax) * z4), az, -a * z4, p);
    Distrib(z4, 3 * (ax * ax), a);
    Assoc(3, ax * ax, z4);
    assert -a * z4 == -(a * z4);
  }

  lemma Fourth(az: int, z2: int, z: int, k: int, m: int, p: int)
    requires p > 0 && Cong(z2, z * z, p) && Cong(az, z2 * z2, p) && Cong(m, k * az, p)
    ensures Cong(m, k * ((z * z) * (z * z)), p)
  {
    CongMul(z2, z * z, z2, z * z, p);
    CongMul(k, k, az, (z * z) * (z * z), p);
  }

  /** A product with a square or a cube of a unit vanishes only with its other factor. */
  lemma UnitSquare(z: int, p: int)
    requires IsPrime(p) && !Cong(z, 0, p)
    ensures !Cong(z * z, 0, p) && !Cong(z * z * z, 0, p)
  {
    if Cong(z * z, 0, p) { EuclidLemma(z, z, p); assert false; }
    if Cong((z * z) * z, 0, p) { EuclidLemma(z * z, z, p); assert false; }
  }

  lemma UnitProduct(v: int, x: int, w: int, p: int)
    requires IsPrime(p) && !Cong(w, 0, p) && Cong(v, x * w, p)
    ensures Cong(v, 0, p) <==> Cong(x, 0, p)
  {
    if Cong(v, 0, p) {
      assert x * w == w * x;
      EuclidLemma(w, x, p);
    }
    if Cong(x, 0, p) { CongMul(x, 0, w, w, p); }
  }

  /** Points with the same x are equal or opposite. */
  lemma SameX(c: Curve, q: Point, r: Point)
    requires Valid(c) && q.At? && r.At? && OnCurve(c, q) && OnCurve(c, r) && q.x == r.x
    ensures Opposite(q, r) <==> Cong(q.y + r.y, 0, c.prime)
    ensures !Opposite(q, r) ==> q == r
  {
    var p := c.prime;
    if q.y != r.y {
      OppositeY(q.x, q.y, r.y, c);
    } else if q.y != 0 && Cong(2 * q.y, 0, p) {
      OddPrime(p);
      assert Pow2(1) == 2;
      CancelPow2(q.y, 1, p);
      SmallZero(q.y, p);
      assert false;
    }
  }

  // ------------------------------------------------------------ addition

  /** The values over the common denominator from which the sum is formed. */
  datatype Terms = Terms(sx: int, sy: int, h: int, r: int, tangent: int, doubling: bool)

  /** What the first half of the addition has computed for q and the point r over z. */
  ghost predicate TermsOf(t: Terms, c: Curve, z: int, q: Point, r: Point)
    requires c.prime > 0 && q.At? && r.At?
  {
    var p, zz, zzz := c.prime, z * z, z * z * z;
    && 0 <= t.sx < 4 * p && Cong(t.sx, (q.x + r.x) * zz, p)
    && 0 <= t.sy < 4 * p && Cong(t.sy, (q.y + r.y) * zzz, p)
    && 0 <= t.h < 2 * p && Cong(t.h, (q.x - r.x) * zz, p)
    && 0 <= t.r < 4 * p && Cong(t.r, (q.y - r.y) * zzz, p)
    && 0 <= t.tangent < 4 * p && Cong(t.tangent, (3 * (r.x * r.x) + c.a) * (zz * zz), p)
    && (t.doubling <==> q.x == r.x)
  }

  /** The test for a doubling is exact. */
  lemma DoublingTest(c: Curve, z: int, q: Point, r: Point, v: int)
    requires Valid(c) && q.At? && r.At? && OnCurve(c, q) && OnCurve(c, r) && !Cong(z, 0, c.prime)
    requires Cong(v, (q.x - r.x) * (z * z), c.prime)
    ensures Cong(v, 0, c.prime) <==> q.x == r.x
  {
    var p := c.prime;
    UnitSquare(z, p);
    UnitProduct(v, q.x - r.x, z * z, p);
    SmallZero(q.x - r.x, p);
  }

  /** -a z^4 */
  method FourthPower(z2: int, z: int, a: int, p: int) returns (az: int)
    requires InRange(p) && -3 <= a <= 0 && 0 <= z2 < 2 * p && Cong(z2, z * z, p)
    ensures 0 <= az < 2 * p && Cong(az, -a * ((z * z) * (z * z)), p)
  {
    var t := Multiply(z2, z2, p);
    az := MultiplyK(t, -a, p);
    Fourth(t, z2, z, -a, az, p);
  }

  /** 3 x2^2 + a z^4 */
  method TangentTerm(x: int, az: int, c: Curve, z: int, ghost ax: int) returns (r2: int)
    requires Valid(c) && 0 <= x < 2 * c.prime && 0 <= az < 2 * c.prime
    requires Cong(x, ax * (z * z), c.prime)
    requires c.a != 0 ==> Cong(az, -c.a * ((z * z) * (z * z)), c.prime)
    ensures 0 <= r2 < 4 * c.prime
    ensures Cong(r2, (3 * (ax * ax) + c.a) * ((z * z) * (z * z)), c.prime)
  {
    var p := c.prime;
    var xx := Multiply(x, x, p);
    r2 := MultiplyK(xx, 3, p);
    if c.a != 0 {
      var xx3 := r2;
      r2 := SubtractMod(r2, az, p);
      TangentOver(r2, x, xx, xx3, az, ax, c.a, z, p);
    } else {
      TangentOver(r2, x, xx, r2, 0, ax, 0, z, p);
    }
  }

  method CommonDenominator(c: Curve, x1: int, y1: int, x2: int, y2: int, z: int, ghost q: Point, ghost r: Point)
    returns (t: Terms)
    requires Valid(c) && q == At(x1, y1) && OnCurve(c, q) && Standing(c, x2, y2, z, r)
    ensures TermsOf(t, c, z, q, r)
  {
    var p := c.prime;
    OverMeans(x2, y2, z, r.x, r.y, p);
    var z2 := Multiply(z, z, p);
    var z3 := Multiply(z2, z, p);
    CongMul(z2, z * z, z, z, p);
    var az := 0;
    if c.a != 0 {
      az := FourthPower(z2, z, c.a, p);
    }
    var xz := Multiply(x1, z2, p);
    Scaled(xz, x1, z2, z * z, p);
    SumDifference(xz, x2, x1, r.x, z * z, p);
    var d := SubtractMod(xz, x2, p);
    var h := FastReduce(d, p);
    DoublingTest(c, z, q, r, d);
    var doubling := h == p;
    var yz := Multiply(y1, z3, p);
    Scaled(yz, y1, z3, z * z * z, p);
    SumDifference(yz, y2, y1, r.y, z * z * z, p);
    var rr := SubtractMod(yz, y2, p);
    var r2 := TangentTerm(x2, az, c, z, r.x);
    t := Terms(xz + x2, yz + y2, h, rr, r2, doubling);
  }

  /** h^2 (x1 + x2), h^3 (y1 + y2) and the denominator h z. */
  method OverDenominator(h: int, sx: int, sy: int, z: int, p: int, ghost s: int, ghost t: int)
    returns (hsqx: int, hcby: int, z3: int)
    requires InRange(p) && 0 <= z < 2 * p && 0 <= h < 4 * p && 0 <= sx < 4 * p && 0 <= sy < 4 * p
    requires Cong(sx, s * (z * z), p) && Cong(sy, t * (z * z * z), p)
    ensures 0 <= hsqx < 2 * p && 0 <= hcby < 2 * p && 0 <= z3 < 2 * p
    ensures Cong(z3, h * z, p)
    ensures Cong(hsqx, s * (z3 * z3), p) && Cong(hcby, t * (z3 * z3 * z3), p)
  {
    var hh := Multiply(h, h, p);
    var hhh := Multiply(hh, h, p);
    hsqx := Multiply(sx, hh, p);
    hcby := Multiply(sy, hhh, p);
    z3 := Multiply(h, z, p);
    SquareOver(hsqx, sx, s, hh, h, z, z3, p);
    CubeOver(hcby, sy, t, hhh, hh, h, z, z3, p);
  }

  /** r^2 - hsqx */
  method XFrom(r: int, hsqx: int, p: int) returns (x3: int)
    requires InRange(p) && 0 <= r < 4 * p && 0 <= hsqx < 2 * p
    ensures 0 <= x3 < 2 * p && Cong(x3, r * r - hsqx, p)
  {
    var rr := Multiply(r, r, p);
    CongAdd(rr, r * r, hsqx, hsqx, p);
    var d := SubtractMod(rr, hsqx, p);
    x3 := FastReduce(d, p);
  }

  /** 1/2 (r (hsqx - 2 x3) - hcby) */
  method YFrom(r: int, hsqx: int, hcby: int, x3: int, p: int) returns (y3: int)
    requires InRange(p) && p % 2 == 1
    requires 0 <= r < 4 * p && 0 <= hsqx < 2 * p && 0 <= hcby < 2 * p && 0 <= x3 < 2 * p
    ensures 0 <= y3 < 2 * p && Cong(2 * y3, r * (hsqx - 2 * x3) - hcby, p)
  {
    var d := SubtractMod(hsqx, x3, p);
    var e := SubtractMod(d, x3, p);
    CongAdd(d, hsqx - x3, x3, x3, p);
    var f := Multiply(r, e, p);
    CongMul(r, r, e, hsqx - 2 * x3, p);
    var g := SubtractMod(f, hcby, p);
    CongAdd(f, r * (hsqx - 2 * x3), hcby, hcby, p);
    var half := Half(g, p);
    y3 := FastReduce(half, p);
    CongMul(2, 2, y3, half, p);
  }

  /** r / w is the slope, in both cases of the addition. */
  lemma Numerator(c: Curve, q: Point, s: Point, t: Terms, z: int, h: int, r: int, w: int, l: int)
    requires Valid(c) && q.At? && s.At? && TermsOf(t, c, z, q, s)
    requires h == (if t.doubling then t.sy else t.h) && r == (if t.doubling then t.tangent else t.r)
    requires Cong(w, h * z, c.prime)
    requires q.x == s.x ==> q.y == s.y && Cong(l * (2 * q.y), 3 * (q.x * q.x) + c.a, c.prime)
    requires Cong(l * (q.x - s.x), q.y - s.y, c.prime)
    ensures Cong(r, l * w, c.prime)
  {
    if t.doubling {
      TangentNumerator(r, h, w, l, 3 * (q.x * q.x) + c.a, 2 * q.y, z, c.prime);
    } else {
      ChordNumerator(r, h, w, l, q.x - s.x, q.y - s.y, z, c.prime);
    }
  }

  /** The denominator vanishes exactly when the points are opposite. */
  lemma Denominator(c: Curve, q: Point, s: Point, t: Terms, z: int, h: int, w: int)
    requires Valid(c) && q.At? && s.At? && OnCurve(c, q) && OnCurve(c, s) && TermsOf(t, c, z, q, s)
    requires h == (if t.doubling then t.sy else t.h)
    requires Cong(w, h * z, c.prime) && !Cong(z, 0, c.prime)
    ensures Cong(w, 0, c.prime) <==> Opposite(q, s)
  {
    var p := c.prime;
    UnitSquare(z, p);
    UnitProduct(w, h, z, p);
    if t.doubling {
      SameX(c, q, s);
      UnitProduct(h, q.y + s.y, z * z * z, p);
    } else {
      DoublingTest(c, z, q, s, h);
    }
  }

  /** The sum stands for the affine sum. */
  lemma SumStands(c: Curve, q: Point, s: Point, l: int, r: int, hsqx: int, hcby: int, x3: int, y3: int, w: int)
    requires Valid(c) && q.At? && s.At? && OnCurve(c, q) && OnCurve(c, s)
    requires 0 <= x3 < 2 * c.prime && 0 <= y3 < 2 * c.prime && 0 <= w < 2 * c.prime && !Cong(w, 0, c.prime)
    requires Cong(r, l * w, c.prime)
    requires Cong(hsqx, (q.x + s.x) * (w * w), c.prime) && Cong(hcby, (q.y + s.y) * (w * w * w), c.prime)
    requires Cong(x3, r * r - hsqx, c.prime) && Cong(2 * y3, r * (hsqx - 2 * x3) - hcby, c.prime)
    requires Add(c, q, s).At? && Cong(Add(c, q, s).x, l * l - (q.x + s.x), c.prime)
    requires Cong(Add(c, q, s).y, l * (q.x - Add(c, q, s).x) - q.y, c.prime)
    requires Cong(l * (q.x - s.x), q.y - s.y, c.prime)
    ensures Standing(c, x3, y3, w, Add(c, q, s))
  {
    var a := Add(c, q, s);
    OddPrime(c.prime);
    AddOnCurve(c, q, s);
    SumX(l, w, r, hsqx, q.x + s.x, x3, a.x, c.prime);
    SumY(l, w, r, hsqx, hcby, q.x, s.x, q.y, s.y, x3, y3, a.x, a.y, c.prime);
    OverMeans(x3, y3, w, a.x, a.y, c.prime);
  }

  /**
   p2 := p1 + p2 for an affine p1 and a projective p2, also when they are equal.  For
   opposite points, and only for those, the result has denominator 0.
   */
  method PointJacobianAdd(p1: CurvePoint, p2: JacobianPoint, c: Curve, ghost s: Point)
    requires Valid(c) && OnCurve(c, p1.View()) && p1.View().At? && p2.Represents(c, s)
    modifies p2
    ensures s.At? && OnCurve(c, s) && (Opposite(p1.View(), s) <==> Cong(p2.z, 0, c.prime))
    ensures !Opposite(p1.View(), s) ==> p2.Represents(c, Add(c, p1.View(), s))
  {
    ghost var q, z := p1.View(), p2.z;
    OddPrime(c.prime);
    var t := CommonDenominator(c, p1.x, p1.y, p2.x, p2.y, p2.z, q, s);
    var r := if t.doubling then t.tangent else t.r;
    var h := if t.doubling then t.sy else t.h;
    var hsqx, hcby, z3 := OverDenominator(h, t.sx, t.sy, p2.z, c.prime, q.x + s.x, q.y + s.y);
    var x3 := XFrom(r, hsqx, c.prime);
    var y3 := YFrom(r, hsqx, hcby, x3, c.prime);
    Denominator(c, q, s, t, z, h, z3);
    p2.x, p2.y, p2.z := x3, y3, z3;
    if !Opposite(q, s) {
      ghost var l := SumEquations(c, q, s);
      Numerator(c, q, s, t, z, h, r, z3, l);
      SumStands(c, q, s, l, r, hsqx, hcby, x3, y3, z3);
    }
  }

  // ------------------------------------------------------------ doubling

  /** m / w is the slope of the tangent. */
  lemma HalfNumerator(m: int, n2: int, n: int, y: int, sy: int, z: int, w: int, l: int, p: int)
    requires p > 0 && p % 2 == 1 && Cong(2 * m, n2, p) && Cong(n2, n * ((z * z) * (z * z)), p)
    requires Cong(y, sy * (z * z * z), p) && Cong(w, y * z, p) && Cong(l * (2 * sy), n, p)
    ensures Cong(m, l * w, p)
  {
    CongMul(y, sy * (z * z * z), 2, 2, p);
    TwiceProduct(sy, z * z * z);
    CongMul(w, y * z, 2, 2, p);
    TwiceProduct(y, z);
    TangentNumerator(n2, y * 2, w * 2, l, n, 2 * sy, z, p);
    TwiceProduct(l, w);
    TwoUnit(m, l * w, p);
  }

  lemma TwiceProduct(a: int, b: int)
    ensures (a * b) * 2 == (2 * a) * b == (a * 2) * b && a * (b * 2) == 2 * (a * b)
  {}

  lemma FourthPowerOver(y4: int, ysq: int, y: int, sy: int, z: int, w: int, p: int)
    requires p > 0 && Cong(ysq, y * y, p) && Cong(y4, ysq * ysq, p)
    requires Cong(y, sy * (z * z * z), p) && Cong(w, y * z, p)
    ensures Cong(y4, sy * (w * w * w), p)
  {
    CongMul(ysq, ysq, ysq, y * y, p);
    assert ysq * (y * y) == y * (ysq * y) by { Assoc(ysq, y, y); }
    CubeOver(y4, y, sy, ysq * y, ysq, y, z, w, p);
  }

  /** m = (3 x^2 + a z^4) / 2 */
  method TangentHalf(c: Curve, x: int, z: int, ghost s: Point) returns (m: int, ghost n2: int)
    requires Valid(c) && c.prime % 2 == 1 && s.At? && 0 <= x < 2 * c.prime && 0 <= z < 2 * c.prime
    requires Cong(x, s.x * (z * z), c.prime)
    ensures 0 <= m && 2 * m < 5 * c.prime && Cong(2 * m, n2, c.prime)
    ensures Cong(n2, (3 * (s.x * s.x) + c.a) * ((z * z) * (z * z)), c.prime)
  {
    var p := c.prime;
    var xx := Multiply(x, x, p);
    var xx3 := MultiplyK(xx, 3, p);
    var z2 := Multiply(z, z, p);
    var az4 := FourthPower(z2, z, c.a, p);
    var d := SubtractMod(xx3, az4, p);
    TangentOver(d, x, xx, xx3, az4, s.x, c.a, z, p);
    n2 := d;
    m := Half(d, p);
  }

  /** m^2 - 2 x y^2 */
  method DoubleX(m: int, xysq: int, p: int) returns (x3: int, ghost twice: int)
    requires InRange(p) && 0 <= m && 2 * m < 5 * p && 0 <= xysq < 2 * p
    ensures 0 <= x3 < 2 * p && Cong(twice, 2 * xysq, p) && Cong(x3, m * m - twice, p)
  {
    var msq := Multiply(m, m, p);
    var t := FastReduce(2 * xysq, p);
    twice := t;
    CongAdd(msq, m * m, t, t, p);
    var d := SubtractMod(msq, t, p);
    x3 := FastReduce(d, p);
  }

  /** m (x y^2 - x3) - y^4 */
  method DoubleY(m: int, xysq: int, x3: int, y4: int, p: int) returns (y3: int)
    requires InRange(p) && 0 <= m && 2 * m < 5 * p && 0 <= xysq < 2 * p && 0 <= x3 < 2 * p && 0 <= y4 < 2 * p
    ensures 0 <= y3 < 2 * p && Cong(y3, m * (xysq - x3) - y4, p)
  {
    var d := SubtractMod(xysq, x3, p);
    var e := Multiply(m, d, p);
    CongMul(m, m, d, xysq - x3, p);
    CongAdd(e, m * (xysq - x3), y4, y4, p);
    var f := SubtractMod(e, y4, p);
    y3 := FastReduce(f, p);
  }

  lemma DoubleStands(c: Curve, s: Point, l: int, m: int, twice: int, xysq: int, y4: int, x3: int, y3: int, w: int)
    requires Valid(c) && s.At? && OnCurve(c, s) && !Opposite(s, s)
    requires 0 <= x3 < 2 * c.prime && 0 <= y3 < 2 * c.prime && 0 <= w < 2 * c.prime && !Cong(w, 0, c.prime)
    requires Cong(m, l * w, c.prime) && Cong(xysq, s.x * (w * w), c.prime) && Cong(y4, s.y * (w * w * w), c.prime)
    requires Cong(twice, 2 * xysq, c.prime) && Cong(x3, m * m - twice, c.prime)
    requires Cong(y3, m * (xysq - x3) - y4, c.prime)
    requires Add(c, s, s).At? && Cong(Add(c, s, s).x, l * l - (s.x + s.x), c.prime)
    requires Cong(Add(c, s, s).y, l * (s.x - Add(c, s, s).x) - s.y, c.prime)
    ensures Standing(c, x3, y3, w, Add(c, s, s))
  {
    var a, p := Add(c, s, s), c.prime;
    AddOnCurve(c, s, s);
    CongMul(2, 2, xysq, s.x * (w * w), p);
    Assoc(2, s.x, w * w);
    SumX(l, w, m, twice, s.x + s.x, x3, a.x, p);
    DoubledY(l, w, m, xysq, y4, s.x, s.y, x3, y3, a.x, a.y, p);
    OverMeans(x3, y3, w, a.x, a.y, p);
  }

  /** p := p + p; a point with y = 0 gives denominator 0. */
  method PointJacobianDouble(jp: JacobianPoint, c: Curve, ghost s: Point)
    requires Valid(c) && jp.Represents(c, s)
    modifies jp
    ensures s.At? && (s.y == 0 <==> Cong(jp.z, 0, c.prime))
    ensures OnCurve(c, s) && (s.y != 0 ==> jp.Represents(c, Add(c, s, s)))
  {
    var p := c.prime;
    OddPrime(p);
    ghost var y, z := jp.y, jp.z;
    OverMeans(jp.x, jp.y, jp.z, s.x, s.y, p);
    var m, n2 := TangentHalf(c, jp.x, jp.z, s);
    var ysq := Multiply(jp.y, jp.y, p);
    var xysq := Multiply(ysq, jp.x, p);
    assert ysq * jp.x == jp.x * ysq;
    jp.z := Multiply(jp.y, jp.z, p);
    SquareOver(xysq, jp.x, s.x, ysq, y, z, jp.z, p);
    var x3, twice := DoubleX(m, xysq, p);
    jp.x := x3;
    var y4 := Multiply(ysq, ysq, p);
    FourthPowerOver(y4, ysq, y, s.y, z, jp.z, p);
    jp.y := DoubleY(m, xysq, jp.x, y4, p);
    TangentVertical(s.y, y, z, jp.z, p);
    if s.y != 0 {
      ghost var l := SumEquations(c, s, s);
      HalfNumerator(m, n2, 3 * (s.x * s.x) + c.a, y, s.y, z, jp.z, l, p);
      DoubleStands(c, s, l, m, twice, xysq, y4, jp.x, jp.y, jp.z);
    }
  }

  lemma TangentVertical(sy: int, y: int, z: int, w: int, p: int)
    requires IsPrime(p) && 0 <= sy < p && !Cong(z, 0, p) && Cong(y, sy * (z * z * z), p) && Cong(w, y * z, p)
    ensures sy == 0 <==> Cong(w, 0, p)
  {
    UnitSquare(z, p);
    UnitProduct(w, y, z, p);
    UnitProduct(y, sy, z * z * z, p);
    SmallZero(sy, p);
  }

  // ------------------------------------------------------------ sign and conversion

  lemma NegatedOver(x: int, y: int, z: int, n: int, ax: int, ay: int, m: int, p: int)
    requires p > 0 && Over(x, y, z, ax, ay, p).Holds? && Cong(n, -z, p) && Cong(m, -ay, p)
    ensures Over(x, y, n, ax, m, p).Holds?
  {
    var zz, zzz := z * z, z * z * z;
    OverMeans(x, y, z, ax, ay, p);
    OverMeans(x, y, n, ax, m, p);
    CongMul(n, -z, n, -z, p);
    NegatedProduct(z, z);
    CongMul(ax, ax, zz, n * n, p);
    CongMul(n * n, zz, n, -z, p);
    NegatedProduct(zz, z);
    CongMul(m, -ay, n * n * n, -zzz, p);
    NegatedProduct(ay, zzz);
  }

  lemma NegatedProduct(a: int, b: int)
    ensures -a * -b == a * b && a * -b == -(a * b)
  {}

  lemma NegOnCurve(c: Curve, s: Point)
    requires Valid(c) && OnCurve(c, s)
    ensures OnCurve(c, Neg(c, s))
    ensures s.At? ==> Cong(Neg(c, s).y, -s.y, c.prime)
  {
    if s.At? {
      var p, y' := c.prime, Neg(c, s).y;
      CongByMultiple(y', -s.y, p, if s.y == 0 then 0 else 1);
      CongMul(y', -s.y, y', -s.y, p);
      NegatedProduct(s.y, s.y);
      EquationMeans(c, s.x, s.y);
      EquationMeans(c, s.x, y');
    }
  }

  /** Negating z negates the point. */
  lemma NegatedZ(c: Curve, x: int, y: int, z: int, s: Point)
    requires Valid(c) && Standing(c, x, y, z, s)
    ensures Standing(c, x, y, 2 * c.prime - z, Neg(c, s))
  {
    var p, n := c.prime, 2 * c.prime - z;
    CongByMultiple(n, -z, p, 2);
    NegOnCurve(c, s);
    NegatedOver(x, y, z, n, s.x, s.y, Neg(c, s).y, p);
    if Cong(n, 0, p) { CongAdd(0, 0, -z, 0, p); assert false; }
  }

  method NegateIf(cond: bool, jp: JacobianPoint, c: Curve, ghost s: Point)
    requires Valid(c) && jp.Represents(c, s)
    modifies jp
    ensures jp.Represents(c, if cond then Neg(c, s) else s)
  {
    NegatedZ(c, jp.x, jp.y, jp.z, s);
    jp.z := ConditionalNegate(cond, jp.z, c.prime);
  }

  /** A point gets a random denominator z, any number in [1, prime). */
  method CurveToJacobian(p: CurvePoint, jp: JacobianPoint, z: int, c: Curve)
    requires Valid(c) && OnCurve(c, p.View()) && p.View().At? && 0 < z < c.prime
    modifies jp
    ensures jp.Represents(c, p.View())
  {
    SmallNotZero(z, c.prime);
    jp.z := z;
    jp.x := Multiply(z, z, c.prime);
    jp.y := Multiply(z, jp.x, c.prime);
    assert z * (z * z) == z * z * z;
    CongMul(z, z, jp.x, z * z, c.prime);
    ghost var x2, y3 := jp.x, jp.y;
    jp.x := Multiply(p.x, jp.x, c.prime);
    Scaled(jp.x, p.x, x2, z * z, c.prime);
    jp.y := Multiply(p.y, jp.y, c.prime);
    Scaled(jp.y, p.y, y3, z * z * z, c.prime);
    OverMeans(jp.x, jp.y, jp.z, p.x, p.y, c.prime);
  }

  lemma DivideOut(v: int, a: int, zn: int, inv: int, p: int)
    requires p > 0 && Cong(v, a * zn, p) && Cong(zn * inv, 1, p)
    ensures Cong(v * inv, a, p)
  {
    CongMul(v, a * zn, inv, inv, p);
    Assoc(a, zn, inv);
    CongMul(a, a, zn * inv, 1, p);
  }

  lemma InversePowers(z: int, i: int, i2: int, i3: int, p: int)
    requires p > 0 && Cong(z * i, 1, p) && Cong(i2, i * i, p) && Cong(i3, i2 * i, p)
    ensures Cong((z * z) * i2, 1, p) && Cong((z * z * z) * i3, 1, p)
  {
    CongMul(z * i, 1, z * i, 1, p);
    CongMul(z * z, z * z, i2, i * i, p);
    SquareProduct(z, i);
    TwiceProduct(i, z);
    CongMul((z * z) * i2, 1, z * i, 1, p);
    Interchange(z * z, i2, z, i);
    CongMul(z * z * z, z * z * z, i3, i2 * i, p);
  }

  method JacobianToCurve(jp: JacobianPoint, p: CurvePoint, c: Curve, ghost s: Point)
    requires Valid(c) && jp.Represents(c, s)
    modifies p
    ensures p.View() == s
  {
    var prime := c.prime;
    OverMeans(jp.x, jp.y, jp.z, s.x, s.y, prime);
    p.y := Invert(jp.z, prime);
    ghost var i := p.y;
    p.x := Multiply(p.y, p.y, prime);
    ghost var i2 := p.x;
    p.y := Multiply(p.x, p.y, prime);
    InversePowers(jp.z, i, i2, p.y, prime);
    DivideOut(jp.x, s.x, jp.z * jp.z, i2, prime);
    DivideOut(jp.y, s.y, jp.z * jp.z * jp.z, p.y, prime);
    p.x := Multiply(jp.x, p.x, prime);
    p.y := Multiply(jp.y, p.y, prime);
    p.x := FullReduce(p.x, prime);
    p.y := FullReduce(p.y, prime);
    CongSmall(p.x, s.x, prime);
    CongSmall(p.y, s.y, prime);
    OriginNotOnCurve(c);
  }
}
