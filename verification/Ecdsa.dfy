/** Signing, verifying and recovering keys. */
module Ecdsa {
  import opened Arith
  import opened Modular
  import opened Words
  import opened Wrappers
  import opened Primes
  import opened BignumSpec
  import opened FieldOps
  import opened CurveSpec
  import opened CurveClosure
  import opened CurveGroup
  import opened CurvePoints
  import opened BnSqrt
  import opened Keys
  import opened EcdsaSpec
  import opened ScalarMultiply

  /** point_multiply for a scalar read from its bytes; mask is the random denominator. */
  method PointTimes(c: Curve, k: int, p: CurvePoint, res: CurvePoint, mask: int)
    requires IsGroup(c) && 0 <= k < c.order && OnCurve(c, p.View()) && p.View().At? && 0 < mask < c.prime
    modifies res
    ensures res.View() == Multiple(c, k, old(p.View()))
  {
    var limbs := ToLimbs(k);
    var order := ToLimbs(c.order);
    PointMultiply(c, limbs, order, p, res, mask);
  }

  /** scalar_multiply without a precomputed table. */
  method ScalarTimes(c: Curve, k: int, res: CurvePoint, mask: int)
    requires Setting(c) && 0 <= k < c.order && 0 < mask < c.prime
    modifies res
    ensures res.View() == Multiple(c, k, Base(c))
  {
    OriginNotOnCurve(c);
    var g := new CurvePoint(c.gx, c.gy);
    PointTimes(c, k, g, res, mask);
  }

  // ------------------------------------------------------------ signing

  /** s = k^-1 (r priv + z), computed without inverting k itself. */
  method BlindedResponse(c: Curve, priv: int, z: int, k: int, r: int, blind: int) returns (s: int)
    requires Setting(c) && Bytes32(priv) && Bytes32(z) && 0 < k < c.order && 0 < r < c.order && 0 < blind < c.order
    ensures !Cong(k, 0, c.order) && s == Response(c, priv, z, k, r)
  {
    var n := c.order;
    SmallNotZero(k, n);
    SmallNotZero(blind, n);
    var kr := Multiply(blind, k, n);
    if Cong(kr, 0, n) { EuclidLemma(blind, k, n); assert false; }
    var inv := Invert(kr, n);
    s := Multiply(r, priv, n);
    ghost var rd := s;
    s := s + z;
    ghost var e := s;
    CongAdd(rd, r * priv, z, z, n);
    s := Multiply(inv, s, n);
    ghost var t := s;
    s := Multiply(blind, s, n);
    ghost var u := s;
    s := FullReduce(s, n);
    Unblinded(kr, blind, k, inv, e, t, u, n);
    CongMul(k, k, u, s, n);
    ResponseUnique(c, priv, z, k, r, s, e);
  }

  /** k (b (b k)^-1 e) = e */
  lemma Unblinded(kr: int, b: int, k: int, inv: int, e: int, t: int, u: int, n: int)
    requires n > 0 && Cong(kr, b * k, n) && Cong(kr * inv, 1, n) && Cong(t, inv * e, n) && Cong(u, b * t, n)
    ensures Cong(k * u, e, n)
  {
    CongMul(k, k, u, b * t, n);
    assert k * (b * t) == (b * k) * t by { Assoc(k, b, t); }
    CongMul(b * k, kr, t, inv * e, n);
    Assoc(kr, inv, e);
    CongMul(kr * inv, 1, e, e, n);
  }

  lemma ResponseUnique(c: Curve, d: int, z: int, k: int, r: int, s: int, e: int)
    requires IsPrime(c.order) && !Cong(k, 0, c.order) && 0 <= s < c.order
    requires Cong(k * s, e, c.order) && Cong(e, r * d + z, c.order)
    ensures s == Response(c, d, z, k, r)
  {
    ResponseEquation(c, d, z, k, r);
    var s' := Response(c, d, z, k, r);
    assert s' * k == k * s';
    CancelFactor(k, s, s', c.order);
    CongSmall(s, s', c.order);
  }

  method SignOnce(c: Curve, priv: int, z: int, k: int, blind: int, mask: int) returns (sig: Option<Signature>)
    requires Setting(c) && Bytes32(priv) && Bytes32(z)
    requires 0 < k < c.order && 0 < blind < c.order && 0 < mask < c.prime
    ensures sig == Sign(c, priv, z, k)
  {
    NonceIsPoint(c, k);
    var point := new CurvePoint(0, 0);
    ScalarTimes(c, k, point, mask);
    var odd, high, r := point.y % 2 == 1, false, point.x;
    if !(point.x < c.order) {
      r := point.x - c.order;
      high := true;
    }
    if r == 0 {
      return None;
    }
    var s := BlindedResponse(c, priv, z, k, r, blind);
    if s == 0 {
      return None;
    }
    if c.order / 2 < s {
      s := c.order - s;
      odd := !odd;
    }
    return Some(Signature(r, s, odd, high));
  }

  /** The nonce is in range and gives a signature that the caller's test accepts. */
  ghost predicate Accepted(c: Curve, priv: int, z: int, k: int, canonical: Signature -> bool)
    requires Setting(c)
  {
    0 < k < c.order && Sign(c, priv, z, k).Some? && canonical(Sign(c, priv, z, k).value)
  }

  ghost predicate NoneAccepted(c: Curve, priv: int, z: int, nonce: nat -> int, canonical: Signature -> bool, n: nat)
    requires Setting(c)
  {
    forall i :: 0 <= i < n ==> !Accepted(c, priv, z, nonce(i), canonical)
  }

  lemma NoneAcceptedMeans(c: Curve, priv: int, z: int, nonce: nat -> int, canonical: Signature -> bool, n: nat)
    requires Setting(c)
    ensures NoneAccepted(c, priv, z, nonce, canonical, n) <==>
            forall i :: 0 <= i < n && 0 < nonce(i) < c.order && Sign(c, priv, z, nonce(i)).Some? ==>
              !canonical(Sign(c, priv, z, nonce(i)).value)
  {
    if NoneAccepted(c, priv, z, nonce, canonical, n) {
      forall i | 0 <= i < n && 0 < nonce(i) < c.order && Sign(c, priv, z, nonce(i)).Some?
        ensures !canonical(Sign(c, priv, z, nonce(i)).value)
      {
        assert !Accepted(c, priv, z, nonce(i), canonical);
      }
    }
  }

  /** The signature of the first accepted nonce of at most 10000. */
  method SignDigest(c: Curve, priv: int, z: int, nonce: nat -> int, blind: nat -> int, mask: nat -> int,
                    canonical: Signature -> bool) returns (sig: Option<Signature>)
    requires Setting(c) && Bytes32(priv) && Bytes32(z)
    requires forall i :: Bytes32(nonce(i)) && 0 < blind(i) < c.order && 0 < mask(i) < c.prime
    ensures sig.None? ==> forall i :: 0 <= i < 10000 && 0 < nonce(i) < c.order && Sign(c, priv, z, nonce(i)).Some? ==>
                            !canonical(Sign(c, priv, z, nonce(i)).value)
    ensures sig.Some? ==> exists i :: && 0 <= i < 10000 && 0 < nonce(i) < c.order && sig == Sign(c, priv, z, nonce(i))
                            && canonical(sig.value) && NoneAccepted(c, priv, z, nonce, canonical, i)
  {
    var i := 0;
    while i < 10000
      invariant 0 <= i <= 10000
      invariant NoneAccepted(c, priv, z, nonce, canonical, i)
    {
      var k := nonce(i);
      if !(k == 0 || !(k < c.order)) {
        sig := SignOnce(c, priv, z, k, blind(i), mask(i));
        if sig.Some? && canonical(sig.value) {
          return;
        }
      }
      i := i + 1;
    }
    NoneAcceptedMeans(c, priv, z, nonce, canonical, 10000);
    sig := None;
  }

  // ------------------------------------------------------------ verifying

  /** z s^-1 G + r s^-1 Q */
  method VerifySum(c: Curve, q: Point, z: int, r: int, s: int, mask1: int, mask2: int) returns (zero: bool, x: int)
    requires Setting(c) && q.At? && OnCurve(c, q) && Bytes32(z) && 0 < r < c.order && 0 < s < c.order
    requires 0 < mask1 < c.prime && 0 < mask2 < c.prime
    ensures zero <==> Cong(z, 0, c.order)
    ensures !zero ==> 0 <= x < c.prime && var v := VerifyPoint(c, q, z, r, s); x == if v.At? then v.x else 0
  {
    var n := c.order;
    SmallNotZero(s, n);
    ghost var w := Inv(s, n);
    var inv := Invert(s, n);
    InverseUnique(s, inv, n);
    var u1 := Multiply(inv, z, n);
    u1 := FullReduce(u1, n);
    var u2 := Multiply(r, inv, n);
    u2 := FullReduce(u2, n);
    assert inv * z == z * w;
    ZeroScalar(s, z, w, u1, n);
    if u1 == 0 {
      return true, 0;
    }
    OriginNotOnCurve(c);
    var res := new CurvePoint(0, 0);
    var pub := new CurvePoint(q.x, q.y);
    ScalarTimes(c, u1, res, mask1);
    PointTimes(c, u2, pub, pub, mask2);
    MulCong(c, u1, z * w, Base(c));
    MulCong(c, u2, r * w, q);
    MulOn(c, z * w, Base(c));
    MulOn(c, r * w, q);
    PointAdd(c, pub, res);
    AddOnCurve(c, Multiple(c, r * w, q), Multiple(c, z * w, Base(c)));
    return false, res.x;
  }

  lemma InverseUnique(s: int, inv: int, n: int)
    requires IsPrime(n) && !Cong(s, 0, n) && IsInverse(s, inv, n)
    ensures inv == Inv(s, n)
  {
    CancelFactor(s, inv, Inv(s, n), n);
    CongSmall(inv, Inv(s, n), n);
  }

  lemma ZeroScalar(s: int, z: int, w: int, u: int, n: int)
    requires IsPrime(n) && 0 <= u < n && Cong(u, z * w, n) && Cong(s * w, 1, n) && !Cong(s, 0, n)
    ensures u == 0 <==> Cong(z, 0, n)
  {
    if u == 0 {
      CongMul(z * w, 0, s, s, n);
      assert (z * w) * s == z * (s * w) by { Assoc(z, w, s); }
      CongMul(z, z, s * w, 1, n);
    }
    if Cong(z, 0, n) {
      CongMul(z, 0, w, w, n);
      CongSmall(u, 0, n);
    }
  }

  /** Whether the reduced abscissa is r; infinity, with abscissa 0, never matches. */
  method Matches(c: Curve, x: int, r: int, ghost v: Point) returns (ok: bool)
    requires Setting(c) && 0 <= x < c.prime && 0 < r < c.order && x == if v.At? then v.x else 0
    ensures ok <==> v.At? && v.x % c.order == r
  {
    var t := FullReduce(x, c.order);
    CongMod(x, c.order);
    CongSmall(t, x % c.order, c.order);
    if !v.At? { DivModUnique(0, 0, 0, c.order); }
    return t == r;
  }

  /** The verification once the key is read. */
  method VerifyWith(c: Curve, q: Point, r: int, s: int, z: int, mask1: int, mask2: int) returns (code: int)
    requires Setting(c) && q.At? && OnCurve(c, q) && Bytes32(r) && Bytes32(s) && Bytes32(z)
    requires 0 < mask1 < c.prime && 0 < mask2 < c.prime
    ensures code == 2 <==> !(0 < r < c.order && 0 < s < c.order)
    ensures code == 3 <==> 0 < r < c.order && 0 < s < c.order && Cong(z, 0, c.order)
    ensures code == 0 <==> !Cong(z, 0, c.order) && Verifies(c, q, z, r, s)
    ensures code in {0, 2, 3, 5}
  {
    if r == 0 || s == 0 || !(r < c.order) || !(s < c.order) {
      return 2;
    }
    var zero, x := VerifySum(c, q, z, r, s, mask1, mask2);
    if zero {
      return 3;
    }
    var ok := Matches(c, x, r, VerifyPoint(c, q, z, r, s));
    return if ok then 0 else 5;
  }

  /**
   0 exactly when the key is read, the digest is not 0 modulo the order and the signature
   verifies; 3 for a digest that is 0 modulo the order, whatever the signature.
   */
  method VerifyDigest(c: Curve, key: PubKey, r: int, s: int, z: int, mask1: int, mask2: int)
    returns (code: int, pub: Option<Point>)
    requires Setting(c) && Encoded(key) && Bytes32(r) && Bytes32(s) && Bytes32(z)
    requires 0 < mask1 < c.prime && 0 < mask2 < c.prime
    ensures pub.Some? ==> Reads(c, key, pub.value) && OnCurve(c, pub.value)
    ensures pub.None? && (key.Compressed? ==> c.prime % 4 == 3) ==> forall q :: !Reads(c, key, q)
    ensures code == 1 <==> pub.None?
    ensures code == 2 <==> pub.Some? && !(0 < r < c.order && 0 < s < c.order)
    ensures code == 3 <==> pub.Some? && 0 < r < c.order && 0 < s < c.order && Cong(z, 0, c.order)
    ensures code == 0 <==> pub.Some? && !Cong(z, 0, c.order) && Verifies(c, pub.value, z, r, s)
    ensures code in {0, 1, 2, 3, 5}
  {
    pub := ReadPubkey(c, key);
    if pub.None? {
      return 1, pub;
    }
    code := VerifyWith(c, pub.value, r, s, z, mask1, mask2);
  }

  // ------------------------------------------------------------ recovering the key

  /** e = -digest, fully reduced. */
  method NegatedDigest(z: int, n: int) returns (e: int)
    requires InRange(n) && Bytes32(z)
    ensures 0 <= e < n && Cong(e, -z, n)
  {
    e := SubtractMod(n, z, n);
    CongByMultiple(n - z, -z, n, 1);
    e := FastReduce(e, n);
    e := FullReduce(e, n);
  }

  /** The point with abscissa r (or r + order) and the parity the recovery byte asks for. */
  method NonceFrom(c: Curve, r: int, odd: bool, high: bool) returns (point: Option<Point>)
    requires Setting(c) && 0 < r < c.order
    ensures point.Some? ==> NoncePoint(c, r, odd, high, point.value)
    ensures point.None? && c.prime % 4 == 3 ==> forall q :: !NoncePoint(c, r, odd, high, q)
  {
    var x := r;
    if high {
      x := r + c.order;
      if !(x < c.prime) {
        return None;
      }
    }
    var y := UncompressCoords(c, odd, x);
    var ok := ValidatePubkey(c, x, y);
    return if ok then Some(At(x, y)) else None;
  }

  /** cp := r^-1 (s cp - z G), when the sum is not infinity. */
  method RecoverWith(c: Curve, r: int, s: int, z: int, cp: CurvePoint, mask1: int, mask2: int, mask3: int)
    returns (defined: bool)
    requires Setting(c) && 0 < r < c.order && 0 < s < c.order && Bytes32(z)
    requires 0 < mask1 < c.prime && 0 < mask2 < c.prime && 0 < mask3 < c.prime
    requires cp.View().At? && OnCurve(c, cp.View())
    modifies cp
    ensures defined <==> old(RecoverSum(c, s, z, cp.View())).At?
    ensures defined ==> cp.View() == old(RecoveredKey(c, r, s, z, cp.View()))
  {
    var n := c.order;
    var e := NegatedDigest(z, n);
    SmallNotZero(r, n);
    var inv := Invert(r, n);
    InverseUnique(r, inv, n);
    SumFor(c, s, z, e, cp, mask1, mask2);
    if cp.x == 0 && cp.y == 0 {
      // the multiplication of infinity ends in an inversion of 0
      return false;
    }
    PointTimes(c, inv, cp, cp, mask3);
    return true;
  }

  /** cp := s cp + e G, with e = -z modulo the order. */
  method SumFor(c: Curve, s: int, ghost z: int, e: int, cp: CurvePoint, mask1: int, mask2: int)
    requires Setting(c) && 0 < s < c.order && 0 <= e < c.order && Cong(e, -z, c.order)
    requires 0 < mask1 < c.prime && 0 < mask2 < c.prime && cp.View().At? && OnCurve(c, cp.View())
    modifies cp
    ensures OnCurve(c, cp.View()) && cp.View() == old(RecoverSum(c, s, z, cp.View()))
  {
    ghost var q := cp.View();
    PointTimes(c, s, cp, cp, mask1);
    var cp2 := new CurvePoint(0, 0);
    ScalarTimes(c, e, cp2, mask2);
    MulCong(c, e, -z, Base(c));
    MulOn(c, -z, Base(c));
    MulOn(c, s, q);
    AddOnCurve(c, Multiple(c, -z, Base(c)), Multiple(c, s, q));
    PointAdd(c, cp2, cp);
  }

  /** Status 1, status 0 with the key, or no status: the source does not get to its end. */
  datatype Recovery = Rejected | Key(x: int, y: int) | Undefined

  /**
   The public key of a signature and its recovery byte, for every input.  The source does
   not test whether s R - z G is infinity; its last multiplication is then undefined.
   */
  method RecoverPub(c: Curve, r: int, s: int, z: int, odd: bool, high: bool, mask1: int, mask2: int, mask3: int)
    returns (result: Recovery)
    requires Setting(c) && Bytes32(r) && Bytes32(s) && Bytes32(z)
    requires 0 < mask1 < c.prime && 0 < mask2 < c.prime && 0 < mask3 < c.prime
    ensures !result.Rejected? ==> 0 < r < c.order && 0 < s < c.order
    ensures !result.Rejected? ==>
              exists q :: && NoncePoint(c, r, odd, high, q)
                          && (result.Undefined? <==> Multiple(c, s, q) == Multiple(c, z, Base(c)))
                          && (result.Key? ==> RecoveredKey(c, r, s, z, q) == if result.x == 0 && result.y == 0 then Infinity else At(result.x, result.y))
    ensures result.Rejected? && 0 < r < c.order && 0 < s < c.order && c.prime % 4 == 3 ==> forall q :: !NoncePoint(c, r, odd, high, q)
  {
    if !(r < c.order) || r == 0 {
      return Rejected;
    }
    if !(s < c.order) || s == 0 {
      return Rejected;
    }
    var point := NonceFrom(c, r, odd, high);
    if point.None? {
      return Rejected;
    }
    OriginNotOnCurve(c);
    RecoverSumZero(c, s, z, point.value);
    var cp := new CurvePoint(point.value.x, point.value.y);
    var defined := RecoverWith(c, r, s, z, cp, mask1, mask2, mask3);
    result := if defined then Key(cp.x, cp.y) else Undefined;
    assert NoncePoint(c, r, odd, high, point.value);
  }
}
