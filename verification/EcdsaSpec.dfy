/** What an ECDSA signature is: sections 4.1.3, 4.1.4 and 4.1.6 of SEC 1. */
module EcdsaSpec {
  import opened Arith
  import opened Modular
  import opened Words
  import opened Wrappers
  import opened Primes
  import opened BignumSpec
  import opened CurveSpec
  import opened CurveClosure
  import opened CurveGroup
  import opened Keys

  /** (r, s) and the recovery byte: bit 0 is `odd`, bit 1 is `high`. */
  datatype Signature = Signature(r: int, s: int, odd: bool, high: bool)

  ghost predicate Setting(c: Curve) {
    IsGroup(c) && OnCurve(c, Base(c))
  }

  function Base(c: Curve): Point {
    At(c.gx, c.gy)
  }

  /** k^-1 (r d + z) modulo the order */
  ghost function Response(c: Curve, d: int, z: int, k: int, r: int): int
    requires IsPrime(c.order) && !Cong(k, 0, c.order)
  {
    (Inv(k, c.order) * (r * d + z)) % c.order
  }

  /** The signature for nonce k, with the smaller of s and -s; none if r or s is 0. */
  ghost function Sign(c: Curve, d: int, z: int, k: int): Option<Signature>
    requires Setting(c) && 0 < k < c.order
  {
    var n, q := c.order, Multiple(c, k, Base(c));
    NonceIsPoint(c, k);
    var high := q.x >= n;
    var r := if high then q.x - n else q.x;
    if r == 0 then None
    else
      var s := Response(c, d, z, k, r);
      if s == 0 then None
      else if s > n / 2 then Some(Signature(r, n - s, q.y % 2 == 0, high))
      else Some(Signature(r, s, q.y % 2 == 1, high))
  }

  lemma NonceIsPoint(c: Curve, k: int)
    requires Setting(c) && 0 < k < c.order
    ensures !Cong(k, 0, c.order)
    ensures Multiple(c, k, Base(c)).At? && OnCurve(c, Multiple(c, k, Base(c))) && Multiple(c, k, Base(c)).y != 0
  {
    SmallNotZero(k, c.order);
    MulZero(c, k, Base(c));
    MulOn(c, k, Base(c));
    TwiceNotZero(c, k);
    MulZero(c, 2 * k, Base(c));
    MulAdd(c, k, k, Base(c));
  }

  lemma TwiceNotZero(c: Curve, k: int)
    requires Setting(c) && !Cong(k, 0, c.order)
    ensures !Cong(2 * k, 0, c.order)
  {
    OddPrime(c.order);
    assert Pow2(1) == 2;
    if Cong(2 * k, 0, c.order) { CancelPow2(k, 1, c.order); assert false; }
  }

  /** sig is a signature of z under the private key d, made with the nonce k. */
  ghost predicate SignedBy(c: Curve, d: int, z: int, sig: Signature, k: int)
    requires Setting(c)
  {
    && 0 < sig.r < c.order && 0 < sig.s <= c.order / 2 && !Cong(k, 0, c.order)
    && NoncePoint(c, sig.r, sig.odd, sig.high, Multiple(c, k, Base(c)))
    && Cong(sig.s * k, sig.r * d + z, c.order)
  }

  /** The recovery byte tells the nonce's point from r. */
  ghost predicate NoncePoint(c: Curve, r: int, odd: bool, high: bool, q: Point) {
    WithParity(c, if high then r + c.order else r, odd, q)
  }

  /** It is the point that a compressed key with r, or with r + order, stands for. */
  lemma NoncePointReads(c: Curve, r: int, odd: bool, high: bool, q: Point)
    ensures NoncePoint(c, r, odd, high, q) <==> Reads(c, Compressed(odd, if high then r + c.order else r), q)
  {}

  lemma ResponseEquation(c: Curve, d: int, z: int, k: int, r: int)
    requires IsPrime(c.order) && !Cong(k, 0, c.order)
    ensures 0 <= Response(c, d, z, k, r) < c.order
    ensures Cong(Response(c, d, z, k, r) * k, r * d + z, c.order)
  {
    var n, i, e := c.order, Inv(k, c.order), r * d + z;
    CongMod(i * e, n);
    CongMul(Response(c, d, z, k, r), i * e, k, k, n);
    assert (i * e) * k == (k * i) * e by { Assoc(k, i, e); }
    CongMul(k * i, 1, e, e, n);
  }

  /** Negating s answers for the negated nonce. */
  lemma NegatedResponse(s: int, k: int, e: int, n: int)
    requires n > 0 && Cong(s * k, e, n)
    ensures Cong((n - s) * -k, e, n)
  {
    CongByMultiple(n - s, -s, n, 1);
    CongMul(n - s, -s, -k, -k, n);
    assert -s * -k == s * k;
  }

  lemma NegatedNonce(c: Curve, k: int)
    requires Setting(c) && 0 < k < c.order
    ensures !Cong(-k, 0, c.order)
    ensures var q := Multiple(c, k, Base(c));
            q.At? && Multiple(c, -k, Base(c)) == At(q.x, c.prime - q.y) && OnCurve(c, At(q.x, c.prime - q.y))
  {
    NonceIsPoint(c, k);
    MulNeg(c, k, Base(c));
    MulOn(c, -k, Base(c));
    if Cong(-k, 0, c.order) { CongAdd(0, 0, -k, 0, c.order); assert false; }
  }

  /** Every signature made is a signature, for the nonce or its negative. */
  lemma SignatureMade(c: Curve, d: int, z: int, k: int)
    requires Setting(c) && 0 < k < c.order && Sign(c, d, z, k).Some?
    ensures var sig := Sign(c, d, z, k).value;
            SignedBy(c, d, z, sig, k) || SignedBy(c, d, z, sig, -k)
  {
    var n, q := c.order, Multiple(c, k, Base(c));
    NonceIsPoint(c, k);
    NegatedNonce(c, k);
    var r := if q.x >= n then q.x - n else q.x;
    var s := Response(c, d, z, k, r);
    ResponseEquation(c, d, z, k, r);
    if s > n / 2 {
      NegatedResponse(s, k, r * d + z, n);
      OddPrime(c.prime);
      OddSum(q.y, c.prime - q.y, c.prime);
    }
  }

  /** s is 0 exactly when r d + z is. */
  lemma ResponseZero(c: Curve, d: int, z: int, k: int, r: int)
    requires IsPrime(c.order) && !Cong(k, 0, c.order)
    ensures Response(c, d, z, k, r) == 0 <==> Cong(r * d + z, 0, c.order)
  {
    var n, s, e := c.order, Response(c, d, z, k, r), r * d + z;
    ResponseEquation(c, d, z, k, r);
    if Cong(e, 0, n) {
      CongTrans(s * k, e, 0, n);
      if !Cong(s, 0, n) { EuclidLemma(s, k, n); assert false; }
      CongSmall(s, 0, n);
    }
  }

  /**
   Every nonce signs, but for those that make r or s 0; the signature is that of section
   4.1.3, with s negated, and the parity with it, if it is above half the order.
   */
  lemma SignExactly(c: Curve, d: int, z: int, k: int)
    requires Setting(c) && 0 < k < c.order
    ensures Multiple(c, k, Base(c)).At?
    ensures var q := Multiple(c, k, Base(c)); var r := q.x % c.order; var sig := Sign(c, d, z, k);
      && (sig.None? <==> r == 0 || Cong(r * d + z, 0, c.order))
      && (sig.Some? ==>
            && sig.value.r == r && (sig.value.high <==> q.x >= c.order) && 0 < sig.value.s <= c.order / 2
            && ((Cong(sig.value.s * k, r * d + z, c.order) && (sig.value.odd <==> q.y % 2 == 1))
                || (Cong(sig.value.s * k, -(r * d + z), c.order) && (sig.value.odd <==> q.y % 2 == 0))))
  {
    var n, q := c.order, Multiple(c, k, Base(c));
    NonceIsPoint(c, k);
    var r := if q.x >= n then q.x - n else q.x;
    DivModUnique(q.x, if q.x >= n then 1 else 0, r, n);
    var s := Response(c, d, z, k, r);
    ResponseEquation(c, d, z, k, r);
    ResponseZero(c, d, z, k, r);
    NegatedEquation(s, k, r * d + z, n);
  }

  lemma NegatedEquation(s: int, k: int, e: int, n: int)
    requires n > 0 && Cong(s * k, e, n)
    ensures Cong((n - s) * k, -e, n)
  {
    CongByMultiple(n - s, -s, n, 1);
    CongMul(n - s, -s, k, k, n);
    assert -s * k == -(s * k);
    CongAdd(0, 0, s * k, e, n);
  }

  /** Section 4.1.4: the point z s^-1 G + r s^-1 Q has abscissa r modulo the order. */
  ghost predicate Verifies(c: Curve, q: Point, z: int, r: int, s: int)
    requires Setting(c) && OnCurve(c, q)
  {
    && 0 < r < c.order && 0 < s < c.order
    && var x := VerifyPoint(c, q, z, r, s); x.At? && x.x % c.order == r
  }

  ghost function VerifyPoint(c: Curve, q: Point, z: int, r: int, s: int): Point
    requires Setting(c) && OnCurve(c, q) && 0 < s < c.order
  {
    SmallNotZero(s, c.order);
    var w := Inv(s, c.order);
    MulOn(c, z * w, Base(c));
    MulOn(c, r * w, q);
    Add(c, Multiple(c, r * w, q), Multiple(c, z * w, Base(c)))
  }

  /** r w d + z w = k, when s k = r d + z and w = s^-1. */
  lemma NonceBack(r: int, d: int, z: int, s: int, k: int, w: int, n: int)
    requires n > 0 && Cong(s * k, r * d + z, n) && Cong(s * w, 1, n)
    ensures Cong((r * w) * d + z * w, k, n)
  {
    CongMul(s * k, r * d + z, w, w, n);
    Rotate(s, k, w);
    CongMul(s * w, 1, k, k, n);
    FactorOut(r, d, z, w);
  }

  lemma FactorOut(r: int, d: int, z: int, w: int)
    ensures (r * w) * d + z * w == (r * d + z) * w
  {
    Rotate(r, d, w);
    Distrib(w, r * d, z);
  }

  /** Every signature verifies under the signer's public key. */
  lemma SignatureVerifies(c: Curve, d: int, z: int, sig: Signature, k: int)
    requires Setting(c) && SignedBy(c, d, z, sig, k)
    ensures OnCurve(c, Multiple(c, d, Base(c)))
    ensures Verifies(c, Multiple(c, d, Base(c)), z, sig.r, sig.s)
  {
    var n, g, r, s := c.order, Base(c), sig.r, sig.s;
    SmallNotZero(s, n);
    var w := Inv(s, n);
    MulOn(c, d, g);
    MulMul(c, r * w, d, (r * w) * d, g);
    MulAdd(c, (r * w) * d, z * w, g);
    NonceBack(r, d, z, s, k, w, n);
    MulCong(c, (r * w) * d + z * w, k, g);
    var x := Multiple(c, k, g).x;
    DivModUnique(x, if sig.high then 1 else 0, r, n);
  }

  /** s ((r w) d + z w) = r d + z, when w = s^-1. */
  lemma NonceOfResponse(r: int, d: int, z: int, s: int, w: int, e: int, n: int)
    requires n > 0 && Cong(s * w, 1, n) && e == (r * w) * d + z * w
    ensures Cong(s * e, r * d + z, n)
  {
    FactorOut(r, d, z, w);
    var m := r * d + z;
    assert s * (m * w) == (s * w) * m by { Rotate(s, w, m); Assoc(s, m, w); Assoc(s, w, m); }
    CongMul(s * w, 1, m, m, n);
  }

  /** The point that verification looks at, as a multiple of G. */
  lemma VerifyMultiple(c: Curve, d: int, z: int, r: int, s: int, w: int, e: int)
    requires Setting(c) && 0 < s < c.order && !Cong(s, 0, c.order)
    requires w == Inv(s, c.order) && e == (r * w) * d + z * w
    ensures OnCurve(c, Multiple(c, d, Base(c)))
    ensures VerifyPoint(c, Multiple(c, d, Base(c)), z, r, s) == Multiple(c, e, Base(c))
  {
    var g := Base(c);
    MulOn(c, d, g);
    MulMul(c, r * w, d, (r * w) * d, g);
    MulAdd(c, (r * w) * d, z * w, g);
  }

  lemma VerifiesHasNonce(c: Curve, d: int, z: int, r: int, s: int) returns (k: int)
    requires Setting(c) && OnCurve(c, Multiple(c, d, Base(c))) && Verifies(c, Multiple(c, d, Base(c)), z, r, s)
    ensures !Cong(k, 0, c.order) && Cong(s * k, r * d + z, c.order)
    ensures Multiple(c, k, Base(c)).At? && Multiple(c, k, Base(c)).x % c.order == r
  {
    SmallNotZero(s, c.order);
    var w := Inv(s, c.order);
    k := (r * w) * d + z * w;
    VerifyMultiple(c, d, z, r, s, w, k);
    NonceOfResponse(r, d, z, s, w, k, c.order);
    MulZero(c, k, Base(c));
  }

  lemma NonceVerifies(c: Curve, d: int, z: int, r: int, s: int, k: int)
    requires Setting(c) && 0 < r < c.order && 0 < s < c.order && OnCurve(c, Multiple(c, d, Base(c)))
    requires Cong(s * k, r * d + z, c.order)
    requires Multiple(c, k, Base(c)).At? && Multiple(c, k, Base(c)).x % c.order == r
    ensures Verifies(c, Multiple(c, d, Base(c)), z, r, s)
  {
    SmallNotZero(s, c.order);
    var w := Inv(s, c.order);
    var e := (r * w) * d + z * w;
    VerifyMultiple(c, d, z, r, s, w, e);
    NonceBack(r, d, z, s, k, w, c.order);
    MulCong(c, e, k, Base(c));
  }

  /** What verifies under d G is exactly what has a nonce: nothing else is accepted. */
  lemma VerifiesExactly(c: Curve, d: int, z: int, r: int, s: int)
    requires Setting(c)
    ensures OnCurve(c, Multiple(c, d, Base(c)))
    ensures Verifies(c, Multiple(c, d, Base(c)), z, r, s) <==>
            && 0 < r < c.order && 0 < s < c.order
            && exists k :: !Cong(k, 0, c.order) && Cong(s * k, r * d + z, c.order)
                           && Multiple(c, k, Base(c)).At? && Multiple(c, k, Base(c)).x % c.order == r
  {
    MulOn(c, d, Base(c));
    if Verifies(c, Multiple(c, d, Base(c)), z, r, s) {
      var k := VerifiesHasNonce(c, d, z, r, s);
      assert !Cong(k, 0, c.order) && Cong(s * k, r * d + z, c.order);
    } else if 0 < r < c.order && 0 < s < c.order {
      forall k | Cong(s * k, r * d + z, c.order) && Multiple(c, k, Base(c)).At? && Multiple(c, k, Base(c)).x % c.order == r
        ensures false
      {
        NonceVerifies(c, d, z, r, s, k);
      }
    }
  }

  /** r^-1 (s R - z G) */
  ghost function RecoveredKey(c: Curve, r: int, s: int, z: int, nonce: Point): Point
    requires Setting(c) && 0 < r < c.order && OnCurve(c, nonce)
  {
    SmallNotZero(r, c.order);
    MulOn(c, s, nonce);
    MulOn(c, -z, Base(c));
    Multiple(c, Inv(r, c.order), Add(c, Multiple(c, -z, Base(c)), Multiple(c, s, nonce)))
  }

  /** The recovered key is the one point that r takes to s R - z G. */
  lemma RecoveredExactly(c: Curve, r: int, s: int, z: int, nonce: Point, q: Point)
    requires Setting(c) && 0 < r < c.order && OnCurve(c, nonce) && OnCurve(c, q)
    ensures OnCurve(c, Multiple(c, s, nonce)) && OnCurve(c, Multiple(c, -z, Base(c)))
    ensures q == RecoveredKey(c, r, s, z, nonce) <==>
            Multiple(c, r, q) == Add(c, Multiple(c, -z, Base(c)), Multiple(c, s, nonce))
  {
    var n := c.order;
    SmallNotZero(r, n);
    MulOn(c, s, nonce);
    MulOn(c, -z, Base(c));
    var t, i := Add(c, Multiple(c, -z, Base(c)), Multiple(c, s, nonce)), Inv(r, n);
    AddOnCurve(c, Multiple(c, -z, Base(c)), Multiple(c, s, nonce));
    CancelMultiple(c, r, i, t);
    assert i * r == r * i;
    CancelMultiple(c, i, r, q);
  }

  /** a (b q) = q when a b = 1 modulo the order. */
  lemma CancelMultiple(c: Curve, a: int, b: int, q: Point)
    requires Setting(c) && OnCurve(c, q) && Cong(a * b, 1, c.order)
    ensures Multiple(c, a, Multiple(c, b, q)) == q
  {
    MulMul(c, a, b, a * b, q);
    MulCong(c, a * b, 1, q);
    MulOne(c, q);
  }

  lemma KeyBack(r: int, d: int, z: int, sk: int, i: int, n: int)
    requires n > 0 && Cong(sk, r * d + z, n) && Cong(r * i, 1, n)
    ensures Cong(i * (-z + sk), d, n)
  {
    CongAdd(sk, r * d + z, z, z, n);
    CongMul(i, i, -z + sk, r * d, n);
    assert i * (r * d) == (r * i) * d by { Assoc(i, r, d); }
    CongMul(r * i, 1, d, d, n);
  }

  /** The recovery byte and the signature give back the signer's public key. */
  lemma KeyRecovered(c: Curve, d: int, z: int, sig: Signature, k: int, nonce: Point)
    requires Setting(c) && SignedBy(c, d, z, sig, k) && NoncePoint(c, sig.r, sig.odd, sig.high, nonce)
    ensures RecoveredKey(c, sig.r, sig.s, z, nonce) == Multiple(c, d, Base(c))
    ensures !Cong(d, 0, c.order) ==> RecoverSum(c, sig.s, z, nonce).At?
  {
    var n, g, r, s := c.order, Base(c), sig.r, sig.s;
    ParityUnique(c, if sig.high then r + n else r, sig.odd, nonce, Multiple(c, k, g));
    SmallNotZero(r, n);
    var i := Inv(r, n);
    MulMul(c, s, k, s * k, g);
    MulAdd(c, -z, s * k, g);
    var e := -z + s * k;
    MulMul(c, i, e, i * e, g);
    KeyBack(r, d, z, s * k, i, n);
    MulCong(c, i * e, d, g);
    if !Cong(d, 0, n) {
      if Cong(e, 0, n) { CongMul(i, i, e, 0, n); assert false; }
      MulZero(c, e, g);
    }
  }

  ghost function RecoverSum(c: Curve, s: int, z: int, nonce: Point): Point
    requires Setting(c) && OnCurve(c, nonce)
  {
    MulOn(c, s, nonce);
    MulOn(c, -z, Base(c));
    Add(c, Multiple(c, -z, Base(c)), Multiple(c, s, nonce))
  }

  /** The sum that recovery multiplies by r^-1 is infinity exactly when s R = z G. */
  lemma RecoverSumZero(c: Curve, s: int, z: int, nonce: Point)
    requires Setting(c) && OnCurve(c, nonce)
    ensures RecoverSum(c, s, z, nonce) == Infinity <==> Multiple(c, s, nonce) == Multiple(c, z, Base(c))
  {
    var g := Base(c);
    MulOn(c, s, nonce);
    MulOn(c, -z, g);
    MulNeg(c, -z, g);
    SumInfinity(c, Multiple(c, -z, g), Multiple(c, s, nonce));
  }

  /**
   It happens: with the base point as the nonce's point and s = z the signature is in range
   and its recovery byte finds the point, but the sum is infinity.
   */
  lemma RecoverSumOfBase(c: Curve, z: int)
    requires Setting(c) && z % c.order != 0 && c.gx != 0 && c.gx != c.order
    ensures var high := c.gx >= c.order; var r := if high then c.gx - c.order else c.gx; var s := z % c.order;
      && 0 < r < c.order && 0 < s < c.order && NoncePoint(c, r, c.gy % 2 == 1, high, Base(c))
      && RecoverSum(c, s, z, Base(c)) == Infinity
  {
    CongMod(z, c.order);
    MulCong(c, z % c.order, z, Base(c));
    RecoverSumZero(c, z % c.order, z, Base(c));
  }

  /**
   A signature made with the private key d has the smaller s, verifies under the public
   key d G, and gives that key back: its recovery byte determines the nonce's point.
   */
  lemma SignVerifyRecover(c: Curve, d: int, z: int, k: int)
    requires Setting(c) && 0 < d < c.order && 0 < k < c.order && Sign(c, d, z, k).Some?
    ensures var sig, q := Sign(c, d, z, k).value, Multiple(c, d, Base(c));
      && q.At? && OnCurve(c, q) && 0 < sig.s <= c.order / 2 && Verifies(c, q, z, sig.r, sig.s)
      && (exists r :: NoncePoint(c, sig.r, sig.odd, sig.high, r))
      && (forall r :: NoncePoint(c, sig.r, sig.odd, sig.high, r) ==>
            RecoverSum(c, sig.s, z, r).At? && RecoveredKey(c, sig.r, sig.s, z, r) == q)
  {
    var sig := Sign(c, d, z, k).value;
    SignatureMade(c, d, z, k);
    var k' := if SignedBy(c, d, z, sig, k) then k else -k;
    NonceIsPoint(c, d);
    SignatureVerifies(c, d, z, sig, k');
    assert NoncePoint(c, sig.r, sig.odd, sig.high, Multiple(c, k', Base(c)));
    forall r | NoncePoint(c, sig.r, sig.odd, sig.high, r)
      ensures RecoverSum(c, sig.s, z, r).At? && RecoveredKey(c, sig.r, sig.s, z, r) == Multiple(c, d, Base(c))
    {
      KeyRecovered(c, d, z, sig, k', r);
    }
  }
}
