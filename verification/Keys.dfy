/** Reading public keys: point decompression and validation. */
module Keys {
  import opened Arith
  import opened Modular
  import opened Words
  import opened Wrappers
  import opened Primes
  import opened BignumSpec
  import opened FieldOps
  import opened CurveSpec
  import opened CurvePoints
  import opened Fermat
  import opened BnSqrt

  /** A public key as its first byte announces it; coordinates are any 32-byte numbers. */
  datatype PubKey = Uncompressed(x: int, y: int) | Compressed(odd: bool, x: int) | Malformed

  predicate Bytes32(v: int) {
    0 <= v < TWO256
  }

  /** The point with the given x whose y has the given parity. */
  ghost predicate WithParity(c: Curve, x: int, odd: bool, q: Point) {
    q.At? && OnCurve(c, q) && q.x == x && (q.y % 2 == 1 <==> odd)
  }

  lemma OddSum(a: int, b: int, p: int)
    requires a + b == p && p % 2 == 1
    ensures a % 2 != b % 2
  {}

  lemma ParityUnique(c: Curve, x: int, odd: bool, q: Point, r: Point)
    requires Valid(c) && WithParity(c, x, odd, q) && WithParity(c, x, odd, r)
    ensures q == r
  {
    if q.y != r.y {
      OddPrime(c.prime);
      OppositeY(x, q.y, r.y, c);
      SumOfTwo(q.y, r.y, c.prime);
      OddSum(q.y, r.y, c.prime);
      assert false;
    }
  }

  lemma CubicValue(v: int, x2: int, t: int, u: int, x: int, c: Curve)
    requires c.prime > 0 && Cong(x2, x * x, c.prime) && Cong(t, x2 + c.a, c.prime)
    requires Cong(u, x * t, c.prime) && Cong(v, u + c.b, c.prime)
    ensures Cong(v, Cubic(x, c.a, c.b), c.prime)
  {
    CongAdd(x2, x * x, c.a, c.a, c.prime);
    CongMul(t, x * x + c.a, x, x, c.prime);
    CongAdd(u, (x * x + c.a) * x, c.b, c.b, c.prime);
  }

  /** x^3 + a x, partly reduced. */
  method CubicPart(c: Curve, x: int) returns (u: int, ghost x2: int, ghost t: int)
    requires Valid(c) && Bytes32(x)
    ensures 0 <= u < 2 * c.prime && Cong(x2, x * x, c.prime)
    ensures Cong(t, x2 + c.a, c.prime) && Cong(u, x * t, c.prime)
  {
    var p := c.prime;
    var sq := Multiply(x, x, p);
    var d := SubtractI(sq, -c.a, p);
    u := Multiply(x, d, p);
    x2, t := sq, d;
  }

  lemma RootOfSquare(y: int, v: int, w: int, r: int, p: int)
    requires IsPrime(p) && p % 4 == 3 && Cong(y * y, w, p) && Cong(v, w, p)
    requires Cong(r, Power(v, (p + 1) / 4), p)
    ensures Cong(r * r, w, p)
  {
    SquareHasRoot(r, v, p, y);
  }

  lemma SameSquare(y: int, r: int, w: int, p: int)
    requires p > 0 && (y == r || y == p - r) && Cong(r * r, w, p)
    ensures Cong(y * y, w, p)
  {
    if y == r {
      CongMul(y, r, y, r, p);
    } else {
      CongByMultiple(y, -r, p, 1);
      CongMul(y, -r, y, -r, p);
      assert -r * -r == r * r;
    }
  }

  /** The y of the requested parity, if x is the abscissa of a point. */
  method UncompressCoords(c: Curve, odd: bool, x: int) returns (y: int)
    requires Valid(c) && Bytes32(x)
    ensures 0 <= y <= c.prime && (y % 2 == 1 <==> odd)
    ensures c.prime % 4 == 3 && (exists q :: WithParity(c, x, odd, q)) ==> WithParity(c, x, odd, At(x, y))
  {
    var p := c.prime;
    OddPrime(p);
    var u, x2, t := CubicPart(c, x);
    CubicValue(u + c.b, x2, t, u, x, c);
    var r := Sqrt(u + c.b, p);
    y := r;
    if odd != (r % 2 == 1) {
      OddSum(r, p - r, p);
      y := p - r;
    }
    if p % 4 == 3 && exists q :: WithParity(c, x, odd, q) {
      ghost var q :| WithParity(c, x, odd, q);
      RootFound(c, q, odd, u + c.b, r, y);
    }
  }

  /** The square root of the right parity is the point's y. */
  lemma RootFound(c: Curve, q: Point, odd: bool, v: int, r: int, y: int)
    requires Valid(c) && c.prime % 4 == 3 && q.At? && WithParity(c, q.x, odd, q)
    requires Cong(v, Cubic(q.x, c.a, c.b), c.prime) && Cong(r, Power(v, (c.prime + 1) / 4), c.prime)
    requires 0 <= r < c.prime && (y == r || y == c.prime - r) && (y % 2 == 1 <==> odd)
    ensures WithParity(c, q.x, odd, At(q.x, y))
  {
    EquationMeans(c, q.x, q.y);
    EquationMeans(c, q.x, y);
    RootOfSquare(q.y, v, Cubic(q.x, c.a, c.b), r, c.prime);
    SameSquare(y, r, Cubic(q.x, c.a, c.b), c.prime);
    OddPrime(c.prime);
    SmallRoot(c, q, r, y, odd);
  }

  /** A square root of the right parity is below the prime. */
  lemma SmallRoot(c: Curve, q: Point, r: int, y: int, odd: bool)
    requires Valid(c) && q.At? && OnCurve(c, q) && 0 <= r < c.prime && 0 <= y <= c.prime && c.prime % 2 == 1
    requires WithParity(c, q.x, odd, q) && (y % 2 == 1 <==> odd)
    requires y == r || y == c.prime - r
    requires Cong(r * r, Cubic(q.x, c.a, c.b), c.prime) && Cong(y * y, Cubic(q.x, c.a, c.b), c.prime)
    ensures y < c.prime
  {
    if y == c.prime {
      // r = 0, so q.y^2 = 0
      EquationMeans(c, q.x, q.y);
      assert r == 0;
      if !Cong(q.y, 0, c.prime) {
        EuclidLemma(q.y, q.y, c.prime);
      }
      CongSmall(q.y, 0, c.prime);
      assert false;
    }
  }

  /** Accepts exactly the points of the curve other than infinity. */
  method ValidatePubkey(c: Curve, x: int, y: int) returns (ok: bool)
    requires Valid(c) && Bytes32(x) && Bytes32(y)
    ensures ok <==> OnCurve(c, At(x, y))
  {
    OriginNotOnCurve(c);
    if x == 0 && y == 0 {
      return false;
    }
    if !(x < c.prime) || !(y < c.prime) {
      return false;
    }
    var p := c.prime;
    var y2 := Multiply(y, y, p);
    y2 := FullReduce(y2, p);
    var u, sq, t := CubicPart(c, x);
    var v := AddReduced(u, c.b, p);
    CubicValue(v, sq, t, u, x, c);
    v := FullReduce(v, p);
    EquationMeans(c, x, y);
    if Cong(v, y2, p) { CongSmall(v, y2, p); }
    return v == y2;
  }

  /** What a key stands for. */
  ghost predicate Reads(c: Curve, key: PubKey, q: Point) {
    match key
    case Uncompressed(x, y) => q == At(x, y) && OnCurve(c, q)
    case Compressed(odd, x) => WithParity(c, x, odd, q)
    case Malformed => false
  }

  /** Section 2.3.4 of SEC 1, in numbers: the point is on the curve, and y has the key's parity. */
  lemma ReadsMeans(c: Curve, odd: bool, x: int, y: int, q: Point)
    requires Valid(c)
    ensures Reads(c, Compressed(odd, x), q) <==>
            && q.At? && q.x == x && 0 <= x < c.prime && 0 <= q.y < c.prime
            && Cong(q.y * q.y, (x * x + c.a) * x + c.b, c.prime) && q.y % 2 == (if odd then 1 else 0)
    ensures Reads(c, Uncompressed(x, y), q) <==>
            && q == At(x, y) && 0 <= x < c.prime && 0 <= y < c.prime
            && Cong(y * y, (x * x + c.a) * x + c.b, c.prime)
    ensures !Reads(c, Malformed, q)
  {
    EquationMeans(c, x, y);
    if q.At? { EquationMeans(c, q.x, q.y); }
  }

  predicate Encoded(key: PubKey) {
    match key
    case Uncompressed(x, y) => Bytes32(x) && Bytes32(y)
    case Compressed(_, x) => Bytes32(x)
    case Malformed => true
  }

  /**
   The key's point, if it has one.  A compressed key is only certain to be read when the
   square root exponent (p + 1) / 4 is one, that is, for p = 3 mod 4.
   */
  method ReadPubkey(c: Curve, key: PubKey) returns (pub: Option<Point>)
    requires Valid(c) && Encoded(key)
    ensures pub.Some? ==> Reads(c, key, pub.value)
    ensures pub.None? && (key.Compressed? ==> c.prime % 4 == 3) ==> forall q :: !Reads(c, key, q)
  {
    match key
    case Uncompressed(x, y) =>
      var ok := ValidatePubkey(c, x, y);
      return if ok then Some(At(x, y)) else None;
    case Compressed(odd, x) =>
      var y := UncompressCoords(c, odd, x);
      var ok := ValidatePubkey(c, x, y);
      return if ok then Some(At(x, y)) else None;
    case Malformed =>
      return None;
  }
}
