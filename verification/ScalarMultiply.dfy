/** res := k p, by 64 signed odd digits and a table of odd multiples. */
module ScalarMultiply {
  import opened Arith
  import opened Modular
  import opened Words
  import opened Primes
  import opened BignumSpec
  import opened CurveSpec
  import opened CurveClosure
  import opened CurveGroup
  import opened CurvePoints
  import opened JacobianPoints
  import opened ScalarDigits
  import opened ScalarLimbs
  import B = Bignum

  // ------------------------------------------------------------ the table

  ghost predicate Distinct(s: seq<CurvePoint>) {
    forall i, j :: 0 <= i < j < |s| ==> s[i] != s[j]
  }

  method NewPoints(n: nat) returns (s: seq<CurvePoint>)
    ensures |s| == n && Distinct(s) && forall i :: 0 <= i < n ==> fresh(s[i])
  {
    s := [];
    while |s| < n
      invariant |s| <= n && Distinct(s) && forall i :: 0 <= i < |s| ==> fresh(s[i])
    {
      var t := new CurvePoint(0, 0);
      s := s + [t];
    }
  }

  lemma NextOdd(c: Curve, i: int, p: Point)
    requires IsGroup(c) && OnCurve(c, p) && i > 0
    ensures OnCurve(c, Multiple(c, 2 * i - 1, p)) && OnCurve(c, Multiple(c, 2, p))
    ensures Add(c, Multiple(c, 2 * i - 1, p), Multiple(c, 2, p)) == Multiple(c, 2 * i + 1, p)
  {
    MulAdd(c, 2 * i - 1, 2, p);
  }

  lemma TwiceOnce(c: Curve, p: Point)
    requires IsGroup(c) && OnCurve(c, p)
    ensures Add(c, p, p) == Multiple(c, 2, p) && Multiple(c, 1, p) == p
  {
    MulOne(c, p);
    MulAdd(c, 1, 1, p);
  }

  /** next := previous + twice; next may be twice. */
  method NextOddMultiple(c: Curve, previous: CurvePoint, twice: CurvePoint, next: CurvePoint, ghost i: int, ghost q: Point)
    requires IsGroup(c) && OnCurve(c, q) && i > 0 && previous != next
    requires previous.View() == Multiple(c, 2 * (i - 1) + 1, q) && twice.View() == Multiple(c, 2, q)
    modifies next
    ensures next.View() == Multiple(c, 2 * i + 1, q)
  {
    NextOdd(c, i, q);
    assert 2 * (i - 1) + 1 == 2 * i - 1;
    next.Copy(twice);
    PointAdd(c, previous, next);
  }

  /** pmult[i] = (2 i + 1) p */
  ghost predicate Entry(pmult: seq<CurvePoint>, i: nat, c: Curve, p: Point)
    requires c.order > 0 && i < |pmult|
    reads pmult
  {
    pmult[i].View() == Multiple(c, 2 * i + 1, p)
  }

  ghost function Table(pmult: seq<CurvePoint>, c: Curve, p: Point): Verdict
    requires c.order > 0
    reads pmult
  {
    if |pmult| == 8 && forall i :: 0 <= i < 8 ==> Entry(pmult, i, c, p) then Holds else Fails
  }

  /** pmult[i] = (2 i + 1) p; its last entry holds 2 p until it is overwritten. */
  method OddMultiples(c: Curve, p: CurvePoint) returns (pmult: seq<CurvePoint>)
    requires IsGroup(c) && OnCurve(c, p.View())
    ensures (forall q :: q in pmult ==> fresh(q)) && Table(pmult, c, p.View()).Holds?
  {
    ghost var q := p.View();
    TwiceOnce(c, q);
    pmult := NewPoints(8);
    pmult[7].Copy(p);
    PointDouble(c, pmult[7]);
    pmult[0].Copy(p);
    var i := 1;
    while i < 8
      invariant 1 <= i <= 8 && p.View() == q
      invariant forall j :: 0 <= j < i ==> pmult[j].View() == Multiple(c, 2 * j + 1, q)
      invariant i < 8 ==> pmult[7].View() == Multiple(c, 2, q)
    {
      assert pmult[i - 1].View() == Multiple(c, 2 * (i - 1) + 1, q);
      NextOddMultiple(c, pmult[i - 1], pmult[7], pmult[i], i, q);
      i := i + 1;
    }
    assert forall j :: 0 <= j < 8 ==> Entry(pmult, j, c, q);
  }

  // ------------------------------------------------------------ one digit

  /** A multiple that is not infinity doubles to one that is not, on a proper tangent. */
  lemma DoubleMultiple(c: Curve, m: int, m2: int, p: Point)
    requires IsGroup(c) && OnCurve(c, p) && p.At? && Multiple(c, m, p).At? && m2 == 2 * m
    ensures Multiple(c, m, p).y != 0 && OnCurve(c, Multiple(c, m, p))
    ensures Add(c, Multiple(c, m, p), Multiple(c, m, p)) == Multiple(c, m2, p)
  {
    OddPrime(c.order);
    assert Pow2(1) == 2;
    if Cong(2 * m, 0, c.order) { CancelPow2(m, 1, c.order); }
    MulZero(c, m, p);
    MulZero(c, m2, p);
    MulAdd(c, m, m, p);
  }

  method DoubleOnce(jres: JacobianPoint, c: Curve, ghost m: int, ghost m2: int, ghost p: Point)
    requires IsGroup(c) && OnCurve(c, p) && p.At? && m2 == 2 * m
    requires jres.Represents(c, Multiple(c, m, p))
    modifies jres
    ensures jres.Represents(c, Multiple(c, m2, p))
  {
    DoubleMultiple(c, m, m2, p);
    PointJacobianDouble(jres, c, Multiple(c, m, p));
  }

  method DoubleFourTimes(jres: JacobianPoint, c: Curve, ghost m: int, ghost p: Point)
    requires IsGroup(c) && OnCurve(c, p) && p.At?
    requires jres.Represents(c, Multiple(c, m, p))
    modifies jres
    ensures jres.Represents(c, Multiple(c, 16 * m, p))
  {
    ghost var m2, m4, m8 := 2 * m, 4 * m, 8 * m;
    DoubleOnce(jres, c, m, m2, p);
    DoubleOnce(jres, c, m2, m4, p);
    DoubleOnce(jres, c, m4, m8, p);
    DoubleOnce(jres, c, m8, 16 * m, p);
  }

  function Signed(negative: bool, m: int): int {
    if negative then -m else m
  }

  method Negate(cond: bool, jres: JacobianPoint, c: Curve, ghost m: int, ghost p: Point)
    requires IsGroup(c) && OnCurve(c, p) && jres.Represents(c, Multiple(c, m, p))
    modifies jres
    ensures jres.Represents(c, Multiple(c, Signed(cond, m), p))
  {
    MulNeg(c, m, p);
    NegateIf(cond, jres, c, Multiple(c, m, p));
  }

  method AddMultiple(q: CurvePoint, jres: JacobianPoint, c: Curve, ghost d: int, ghost m: int, ghost s: int, ghost p: Point)
    requires IsGroup(c) && OnCurve(c, p) && p.At?
    requires jres.Represents(c, Multiple(c, m, p)) && q.View() == Multiple(c, d, p)
    requires s == m + d && Multiple(c, d, p).At? && Multiple(c, s, p).At?
    modifies jres
    ensures jres.Represents(c, Multiple(c, s, p))
  {
    MulOn(c, m, p);
    MulAdd(c, d, m, p);
    PointJacobianAdd(q, jres, c, Multiple(c, m, p));
  }

  lemma MadeOddRange(k: int, n: int)
    requires InRange(n) && 0 < k < n && n % 2 == 1
    ensures 0 < MadeOdd(k, n) < 2 * TWO256 && MadeOdd(k, n) % 2 == 1
  {}

  lemma NonzeroBelow(d: int, n: int)
    requires n > 0 && -n < d < n && d != 0
    ensures !Cong(d, 0, n)
  {
    if d > 0 { SmallNotZero(d, n); } else { CongByMultiple(d + n, d, n, 1); SmallNotZero(d + n, n); }
  }

  /** All digits together are the scalar modulo the order. */
  lemma WholeSum(a: nat, k: int, n: int)
    requires InRange(n) && 0 < k < n && a == MadeOdd(k, n) && n % 2 == 1
    ensures Cong(DigitsFrom(a, 0), k, n) && !Cong(DigitsFrom(a, 0), 0, n)
  {
    MadeOddRange(k, n);
    Recoding(a);
    CongByMultiple(a - TWO256, k, n, if k % 2 == 0 then -1 else 0);
    SmallNotZero(k, n);
  }

  /** The partial sums are odd and small, or the scalar itself: never 0 modulo the order. */
  lemma PartialNotZero(a: nat, i: nat, k: int, n: int)
    requires InRange(n) && 0 < k < n && a == MadeOdd(k, n) && n % 2 == 1 && i < 64
    ensures !Cong(DigitsFrom(a, i), 0, n)
  {
    if i == 0 {
      WholeSum(a, k, n);
    } else {
      MadeOddRange(k, n);
      PartialOdd(a, i);
      PartialBound(a, i);
      NonzeroBelow(DigitsFrom(a, i), n);
    }
  }

  lemma TopDigit(a: nat)
    ensures DigitsFrom(a, 63) == Digit(a, 63)
  {
    assert DigitsFrom(a, 64) == 0;
  }

  lemma SmallDigit(d: int, n: int)
    requires InRange(n) && 0 < d < 16
    ensures !Cong(d, 0, n)
  {
    SmallNotZero(d, n);
  }

  /**
   One round: jres goes from the digits above a position, m, to the digits from there on,
   16 m + digit, up to the sign of the digit added last.
   */
  method Round(jres: JacobianPoint, pmult: seq<CurvePoint>, bits: u32, negative: bool, c: Curve,
               ghost m: int, ghost m': int, ghost p: Point) returns (negative': bool)
    requires IsGroup(c) && OnCurve(c, p) && p.At? && Table(pmult, c, p).Holds?
    requires bits < 32 && m' == 16 * m + DigitOf(bits) && Multiple(c, m', p).At?
    requires jres.Represents(c, Multiple(c, Signed(negative, m), p))
    modifies jres
    ensures jres.Represents(c, Multiple(c, Signed(negative', m'), p))
  {
    DoubleFourTimes(jres, c, Signed(negative, m), p);
    negative' := AddDigit(jres, pmult, bits, negative, c, 16 * Signed(negative, m), m', p);
  }

  /** The digit's table entry is added once jres has the digit's sign. */
  method AddDigit(jres: JacobianPoint, pmult: seq<CurvePoint>, bits: u32, negative: bool, c: Curve,
                  ghost m: int, ghost m': int, ghost p: Point) returns (negative': bool)
    requires IsGroup(c) && OnCurve(c, p) && p.At? && Table(pmult, c, p).Holds?
    requires bits < 32 && m' == Signed(negative, m) + DigitOf(bits) && Multiple(c, m', p).At?
    requires jres.Represents(c, Multiple(c, m, p))
    modifies jres
    ensures jres.Represents(c, Multiple(c, Signed(negative', m'), p))
  {
    var sign: u32, index: nat := Recode(bits);
    negative' := sign != 0;
    EntryPoint(c, index, p);
    assert Entry(pmult, index, c, p);
    SignedPoint(c, negative', m', p);
    SignedSum(negative, negative', m, m', 2 * index + 1);
    AddSigned(negative != negative', pmult[index], jres, c, 2 * index + 1, m, Signed(negative', m'), p);
  }

  /** Adding a digit's magnitude to the accordingly signed multiple. */
  lemma SignedSum(negative: bool, negative': bool, m: int, m': int, d: int)
    requires m' == Signed(negative, m) + Signed(negative', d)
    ensures Signed(negative', m') == Signed(negative != negative', m) + d
  {}

  lemma SignedPoint(c: Curve, negative: bool, m: int, p: Point)
    requires IsGroup(c) && OnCurve(c, p) && Multiple(c, m, p).At?
    ensures Multiple(c, Signed(negative, m), p).At?
  {
    MulNeg(c, m, p);
  }

  lemma EntryPoint(c: Curve, index: nat, p: Point)
    requires IsGroup(c) && OnCurve(c, p) && p.At? && index < 8
    ensures Multiple(c, 2 * index + 1, p).At? && OnCurve(c, Multiple(c, 2 * index + 1, p))
  {
    SmallDigit(2 * index + 1, c.order);
    MulZero(c, 2 * index + 1, p);
    MulOn(c, 2 * index + 1, p);
  }

  /** jres := (-1)^cond jres + q */
  method AddSigned(cond: bool, q: CurvePoint, jres: JacobianPoint, c: Curve,
                   ghost d: int, ghost m: int, ghost s: int, ghost p: Point)
    requires IsGroup(c) && OnCurve(c, p) && p.At?
    requires jres.Represents(c, Multiple(c, m, p)) && q.View() == Multiple(c, d, p)
    requires s == Signed(cond, m) + d && Multiple(c, d, p).At? && Multiple(c, s, p).At?
    modifies jres
    ensures jres.Represents(c, Multiple(c, s, p))
  {
    Negate(cond, jres, c, m, p);
    AddMultiple(q, jres, c, d, Signed(cond, m), s, p);
  }

  /** The sum of the digits from position i on is not 0 modulo the order. */
  lemma PartialPoint(c: Curve, a: nat, i: nat, k: int, p: Point)
    requires IsGroup(c) && OnCurve(c, p) && p.At? && 0 < k < c.order && a == MadeOdd(k, c.order) && i < 64
    ensures Multiple(c, DigitsFrom(a, i), p).At?
  {
    OddPrime(c.order);
    PartialNotZero(a, i, k, c.order);
    MulZero(c, DigitsFrom(a, i), p);
  }

  /**
   res := k p for 0 <= k < order; z is the random denominator of curve_to_jacobian.  The
   exceptional cases of the projective addition are never reached.
   */
  method PointMultiply(c: Curve, k: array<u32>, order: array<u32>, p: CurvePoint, res: CurvePoint, z: int)
    requires IsGroup(c) && B.Bn(k) && B.Bn(order) && Num(order[..]) == c.order && Num(k[..]) < c.order
    requires OnCurve(c, p.View()) && p.View().At? && 0 < z < c.prime
    modifies res
    ensures res.View() == Multiple(c, Num(k[..]), old(p.View()))
  {
    ghost var q, kv := p.View(), Num(k[..]);
    var a := new u32[9](_ => 0);
    OddPrime(c.order);
    var nonZero := OddScalar(k, order, a);
    if !nonZero {
      MulOne(c, q);
      res.SetInfinity();
      return;
    }
    Limbs.ValNonNegative(k[..], WORD30);
    MultiplyOdd(c, a, MadeOdd(kv, c.order), kv, p, res, z);
  }

  /** res := k p for a nonzero k, from the limbs of a = k + 2^256 (- order). */
  method MultiplyOdd(c: Curve, limbs: array<u32>, ghost a: nat, ghost k: int, p: CurvePoint, res: CurvePoint, z: int)
    requires IsGroup(c) && B.Bn(limbs) && 0 < k < c.order && Num(limbs[..]) == a == MadeOdd(k, c.order)
    requires OnCurve(c, p.View()) && p.View().At? && 0 < z < c.prime
    modifies res
    ensures res.View() == Multiple(c, k, old(p.View()))
  {
    ghost var q := p.View();
    OddPrime(c.order);
    var pmult := OddMultiples(c, p);
    var jres := new JacobianPoint(0, 0, 0);
    var negative := Sum(c, limbs, pmult, jres, z, a, k, q);
    WholeSum(a, k, c.order);
    PartialMeans(a, 0);
    Negate(negative, jres, c, Signed(negative, Partial(a, 0)), q);
    MulCong(c, Partial(a, 0), k, q);
    JacobianToCurve(jres, res, c, Multiple(c, k, q));
  }

  ghost function PartialIn(depth: nat, a: nat, i: nat): int
    requires i <= 64
  {
    if depth > 0 then PartialIn(depth - 1, a, i) else DigitsFrom(a, i)
  }

  /** The number that the digits from position i on make; folded (see Arith), PartialMeans unfolds it. */
  ghost function Partial(a: nat, i: nat): int
    requires i <= 64
  {
    PartialIn(FOLDS, a, i)
  }

  lemma {:induction false} PartialInMeans(depth: nat, a: nat, i: nat)
    requires i <= 64
    ensures PartialIn(depth, a, i) == DigitsFrom(a, i)
  {
    if depth > 0 { PartialInMeans(depth - 1, a, i); }
  }

  lemma PartialMeans(a: nat, i: nat)
    requires i <= 64
    ensures Partial(a, i) == DigitsFrom(a, i)
  {
    PartialInMeans(FOLDS, a, i);
  }

  /**
   Down to position i, the digits have been added: jres is their multiple of p up to the
   sign of the digit added last, and the reader stands at position i.
   */
  ghost function Reached(i: nat, c: Curve, limbs: array<u32>, pmult: seq<CurvePoint>, jres: JacobianPoint,
                         aptr: nat, abits: u32, ashift: int, negative: bool, a: nat, k: int, p: Point): Verdict
    reads limbs, pmult, jres
  {
    if && IsGroup(c) && OnCurve(c, p) && p.At? && 0 < k < c.order && Table(pmult, c, p).Holds?
       && B.Bn(limbs) && Num(limbs[..]) == a == MadeOdd(k, c.order)
       && Position(limbs, i, aptr, abits, ashift) && jres.Represents(c, Multiple(c, Signed(negative, Partial(a, i)), p))
    then Holds else Fails
  }

  /** jres := the sum of all digits times p, up to the sign of the lowest digit. */
  method Sum(c: Curve, limbs: array<u32>, pmult: seq<CurvePoint>, jres: JacobianPoint, z: int,
             ghost a: nat, ghost k: int, ghost p: Point) returns (negative: bool)
    requires IsGroup(c) && B.Bn(limbs) && OnCurve(c, p) && p.At? && 0 < z < c.prime
    requires 0 < k < c.order && Num(limbs[..]) == a == MadeOdd(k, c.order)
    requires Table(pmult, c, p).Holds?
    modifies jres
    ensures jres.Represents(c, Multiple(c, Signed(negative, Partial(a, 0)), p))
  {
    var abits: u32, aptr: nat, ashift: int;
    aptr, abits, ashift, negative := First(c, limbs, pmult, jres, z, a, k, p);
    var i := 62;
    while i >= 0
      invariant -1 <= i <= 62
      invariant Reached(i + 1, c, limbs, pmult, jres, aptr, abits, ashift, negative, a, k, p).Holds?
    {
      aptr, abits, ashift, negative :=
        NextDigit(c, limbs, pmult, jres, i, aptr, abits, ashift, negative, a, k, p);
      i := i - 1;
    }
  }

  /** The digit at position i: its bits, and its round. */
  method NextDigit(c: Curve, limbs: array<u32>, pmult: seq<CurvePoint>, jres: JacobianPoint, i: nat,
                   aptr: nat, abits: u32, ashift: int, negative: bool,
                   ghost a: nat, ghost k: int, ghost p: Point)
    returns (aptr': nat, abits': u32, ashift': int, negative': bool)
    requires i < 63 && Reached(i + 1, c, limbs, pmult, jres, aptr, abits, ashift, negative, a, k, p).Holds?
    modifies jres
    ensures Reached(i, c, limbs, pmult, jres, aptr', abits', ashift', negative', a, k, p).Holds?
  {
    var bits: u32;
    bits, aptr', abits', ashift' := NextBits(limbs, i, aptr, abits, ashift);
    RecodedDigit(a, i, bits);
    PartialMeans(a, i);
    PartialMeans(a, i + 1);
    PartialPoint(c, a, i, k, p);
    negative' := Round(jres, pmult, bits, negative, c, Partial(a, i + 1), Partial(a, i), p);
  }

  /** The highest digit. */
  method First(c: Curve, limbs: array<u32>, pmult: seq<CurvePoint>, jres: JacobianPoint, z: int,
               ghost a: nat, ghost k: int, ghost p: Point)
    returns (aptr: nat, abits: u32, ashift: int, negative: bool)
    requires IsGroup(c) && B.Bn(limbs) && OnCurve(c, p) && p.At? && 0 < z < c.prime
    requires 0 < k < c.order && Num(limbs[..]) == a == MadeOdd(k, c.order)
    requires Table(pmult, c, p).Holds?
    modifies jres
    ensures Reached(63, c, limbs, pmult, jres, aptr, abits, ashift, negative, a, k, p).Holds?
  {
    abits, aptr, ashift := limbs[8], 8, 12;
    OddPrime(c.order);
    MadeOddRange(k, c.order);
    var bits: u32 := FirstBits(limbs);
    var sign: u32, index: nat := Recode(bits);
    RecodedDigit(a, 63, bits);
    TopDigit(a);
    PartialMeans(a, 63);
    negative := sign != 0;
    EntryPoint(c, index, p);
    assert Entry(pmult, index, c, p);
    CurveToJacobian(pmult[index], jres, z, c);
  }
}
