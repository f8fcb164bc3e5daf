/**
 res := k G from a table of multiples of the base point: the form of scalar_multiply
 that USE_PRECOMPUTED_CP selects.  It adds the same 64 signed digits from the lowest up,
 without doublings, negating y where the form above it negates z.
 */
module ScalarTable {
  import opened Arith
  import opened Modular
  import opened Words
  import opened Primes
  import opened Limbs
  import opened Powers
  import opened BignumSpec
  import opened CurveSpec
  import opened CurveClosure
  import opened CurveGroup
  import opened CurvePoints
  import opened Jacobian
  import opened JacobianPoints
  import opened FieldOps
  import opened ScalarDigits
  import opened ScalarLimbs
  import opened ScalarMultiply
  import B = Bignum

  // ------------------------------------------------------------ the digits from below

  /** The digits below position i, as one number. */
  ghost function Below(a: nat, i: nat): int {
    a - Two(4 * i) * Odd(Window(a, i))
  }

  lemma Weight(i: nat)
    ensures Two(4 * (i + 1)) == 16 * Two(4 * i)
  {
    TwoDouble(4 * i);
    TwoDouble(4 * i + 1);
    TwoDouble(4 * i + 2);
    TwoDouble(4 * i + 3);
  }

  /** A digit counts with the weight of its position. */
  lemma BelowStep(a: nat, i: nat)
    ensures Below(a, i + 1) == Below(a, i) + Two(4 * i) * Digit(a, i)
  {
    Weight(i);
    WindowStep(a, i);
    DigitStep(Window(a, i + 1), Window(a, i) % 16);
    var w, v := Two(4 * i), Odd(Window(a, i + 1));
    Distrib(w, 16 * v, Digit(a, i));
    Assoc(w, 16, v);
  }

  lemma BelowFirst(a: nat, i: nat)
    requires a % 2 == 1 && i == 0
    ensures Below(a, i + 1) == Digit(a, i) && Two(4 * i) == 1
  {
    assert Two(4 * i) == 1 by { TwoMeans(4 * i); }
    assert Below(a, i) == 0 by { WindowZero(a); BelowZero(a, i, Two(4 * i)); }
    BelowStep(a, i);
    MulEq(Digit(a, i), Two(4 * i), 1);
  }

  lemma BelowZero(a: nat, i: nat, w: int)
    requires a % 2 == 1 && w == Two(4 * i) == 1 && Window(a, i) == a
    ensures Below(a, i) == 0
  {}

  lemma BelowAll(a: nat, n: nat)
    requires a < 2 * TWO256 && n == 64
    ensures Below(a, n) == a - TWO256
  {
    TopWindow(a, n);
    Pow252(4 * n - 4);
    TwoMeans(4 * n);
  }

  /** All digits together are the scalar modulo the order. */
  lemma BelowWhole(a: nat, n: nat, k: int, order: int)
    requires InRange(order) && 0 < k < order && a == MadeOdd(k, order) && order % 2 == 1 && n == 64
    ensures Cong(Below(a, n), k, order)
  {
    MadeOddRange(k, order);
    BelowAll(a, n);
    Recoding(a);
    WholeSum(a, k, order);
  }

  /** The digits below a position other than 0 make an odd number below 16^i in size. */
  lemma BelowBound(a: nat, i: nat)
    requires i > 0 && a % 2 == 1
    ensures 0 < Below(a, i) + Two(4 * i) && Below(a, i) < Two(4 * i) && Below(a, i) % 2 == 1
  {
    var w, q := Two(4 * i), Window(a, i);
    TwoMeans(4 * i);
    DivMod(a, w);
    Weight(i - 1);
    OddRest(a, w, q, a % w, Two(4 * (i - 1)), Below(a, i));
  }

  /** What is left of an odd number below a position, less the weight when the window is even. */
  lemma OddRest(a: int, w: int, q: int, r: int, v: int, s: int)
    requires a % 2 == 1 && w == 16 * v && a == w * q + r && 0 <= r < w && s == a - w * Odd(q)
    ensures 0 < s + w && s < w && s % 2 == 1
  {
    EvenProduct(w, v, q);
    EvenProduct(w, v, q + 1);
    Distrib(w, q, 1);
    OddOf(q);
    assert s == r || s == r - w;
  }

  lemma OddOf(q: int)
    ensures Odd(q) == q || Odd(q) == q + 1
  {}

  lemma EvenProduct(w: int, v: int, d: int)
    requires w == 16 * v
    ensures (w * d) % 2 == 0
  {
    Assoc(16, v, d);
    DivModUnique(w * d, 8 * (v * d), 0, 2);
  }

  lemma Below252(i: nat, n: nat)
    requires i <= 63 && n == 252
    ensures Two(4 * i) <= TWO256 / 16
  {
    TwoMeans(4 * i);
    Pow252(n);
    Pow2Monotone(4 * i, n);
  }

  /** No partial sum is 0 modulo the order. */
  lemma BelowNotZero(a: nat, i: nat, k: int, n: int)
    requires InRange(n) && 0 < k < n && a == MadeOdd(k, n) && n % 2 == 1 && 0 < i <= 64
    ensures !Cong(Below(a, i), 0, n)
  {
    MadeOddRange(k, n);
    if i == 64 {
      BelowAll(a, i);
      Recoding(a);
      WholeSum(a, k, n);
    } else {
      BelowBound(a, i);
      Below252(i, 252);
      NonzeroBelow(Below(a, i), n);
    }
  }

  lemma BelowPoint(c: Curve, a: nat, i: nat, k: int, g: Point)
    requires IsGroup(c) && OnCurve(c, g) && g.At? && 0 < k < c.order && a == MadeOdd(k, c.order) && 0 < i <= 64
    ensures Multiple(c, Below(a, i), g).At?
  {
    OddPrime(c.order);
    BelowNotZero(a, i, k, c.order);
    MulZero(c, Below(a, i), g);
  }

  // ------------------------------------------------------------ the table

  /** cp[i][j] = (2 j + 1) 16^i G */
  ghost predicate CpEntry(q: CurvePoint, i: nat, j: nat, c: Curve, g: Point)
    requires c.order > 0
    reads q
  {
    q.View() == Multiple(c, Two(4 * i) * (2 * j + 1), g)
  }

  ghost function CpTable(cp: seq<seq<CurvePoint>>, c: Curve, g: Point): Verdict
    requires c.order > 0
    reads set i, j | 0 <= i < |cp| && 0 <= j < |cp[i]| :: cp[i][j]
  {
    if && |cp| == 64 && (forall i :: 0 <= i < 64 ==> |cp[i]| == 8)
       && forall i, j :: 0 <= i < 64 && 0 <= j < 8 ==> CpEntry(cp[i][j], i, j, c, g)
    then Holds else Fails
  }

  /** Entry j of row i is (2 j + 1) 16^i G. */
  lemma TableMeans(cp: seq<seq<CurvePoint>>, c: Curve, g: Point, i: nat, j: nat)
    requires c.order > 0 && CpTable(cp, c, g).Holds? && i < 64 && j < 8
    ensures |cp| == 64 && |cp[i]| == 8 && cp[i][j].View() == Multiple(c, Pow2(4 * i) * (2 * j + 1), g)
  {
    TwoMeans(4 * i);
    assert CpEntry(cp[i][j], i, j, c, g);
  }

  lemma EntryAt(c: Curve, i: nat, j: nat, g: Point)
    requires IsGroup(c) && OnCurve(c, g) && g.At? && j < 8
    ensures Multiple(c, Two(4 * i) * (2 * j + 1), g).At?
    ensures OnCurve(c, Multiple(c, Two(4 * i) * (2 * j + 1), g))
  {
    var d := 2 * j + 1;
    OddPrime(c.order);
    SmallDigit(d, c.order);
    TwoMeans(4 * i);
    if Cong(Two(4 * i) * d, 0, c.order) { CancelPow2(d, 4 * i, c.order); }
    MulZero(c, Two(4 * i) * d, g);
    MulOn(c, Two(4 * i) * d, g);
  }

  // ------------------------------------------------------------ shifting the scalar

  /** One limb of a / 16. */
  function Quarter(s: seq<u32>, j: nat): u32
    requires j < |s| && Normalized(s, WORD30)
  {
    s[j] / 16 + (if j + 1 < |s| then 0x400_0000 * (s[j + 1] % 16) else 0)
  }

  function Quarters(s: seq<u32>): (t: seq<u32>)
    requires Normalized(s, WORD30)
    ensures |t| == |s| && forall j :: 0 <= j < |s| ==> t[j] == Quarter(s, j)
  {
    seq(|s|, j requires 0 <= j < |s| && Normalized(s, WORD30) => Quarter(s, j))
  }

  /** Moving every limb down by four bits divides the number by 16. */
  lemma {:induction false} QuartersValue(s: seq<u32>)
    requires |s| > 0 && Normalized(s, WORD30)
    ensures 16 * Num(Quarters(s)) + s[0] % 16 == Num(s)
  {
    var t := Quarters(s);
    DivMod(s[0], 16);
    if |s| == 1 {
      assert Val(t[1..], WORD30) == 0 && Val(s[1..], WORD30) == 0;
    } else {
      assert t[1..] == Quarters(s[1..]);
      QuartersValue(s[1..]);
      DivMod(s[1], 16);
    }
  }

  method ShiftLimb(x: u32, y: u32) returns (r: u32)
    requires x < WORD30 && y < WORD30
    ensures r == x / 16 + 0x400_0000 * (y % 16) && r < WORD30
  {
    var four, top := 4, 26;
    Low4(y);
    assert Pow2(4) == 16;
    Shr32Value(x, four);
    Shl32Value(y % 16, top);
    Pow26(top, 6);
    DivModUnique(y % 16, 0, y % 16, 64);
    OrDisjoint(x / 16, y % 16, top);
    r := Or(Shr32(x, four), Shl32(And(y, 0xF), top));
  }

  lemma Pow26(n: nat, m: nat)
    requires n == 26 && m == 6
    ensures Pow2(n) == 0x400_0000 && Pow2(32 - n) == 64 && Pow2(m) == 64
  {
    assert Pow2(m) == 64;
    Pow2Literals();
    Pow2Add(m, n);
  }

  /** a := a / 16 */
  method ShiftScalar(a: array<u32>)
    requires B.Bn(a)
    modifies a
    ensures B.Bn(a) && 16 * Num(a[..]) + old(a[0]) % 16 == old(Num(a[..]))
  {
    ghost var x := a[..];
    var j := 0;
    while j < 8
      invariant 0 <= j <= 8
      invariant forall k :: 0 <= k < j ==> a[k] == Quarter(x, k) && a[k] < WORD30
      invariant forall k :: j <= k < 9 ==> a[k] == x[k]
    {
      a[j] := ShiftLimb(a[j], a[j + 1]);
      j := j + 1;
    }
    a[8] := a[8] / 16;
    assert a[..] == Quarters(x);
    QuartersValue(x);
  }

  method FlipNegative(bits: u32) returns (low: u32)
    requires bits < 32
    ensures low == if bits < 16 then 15 - bits % 16 else bits % 16
  {
    Flip(bits, 0xFFFF_FFFF);
    assert bits / 16 == if bits < 16 then 0 else 1;
    var mask: u32 := (bits / 16 + 0xFFFF_FFFF) % WORD32;
    low := And(Xor(bits, mask), 15);
  }

  lemma Mod32(limb: nat)
    ensures limb % 32 % 16 == limb % 16
  {}

  /** The lowest five bits, flipped when the digit is negative. */
  method FoldedBits(limb: u32) returns (low: u32)
    ensures low == if limb % 32 < 16 then 15 - limb % 16 else limb % 16
  {
    Low5(limb);
    Mod32(limb);
    low := FlipNegative(And(limb, 31));
  }

  // ------------------------------------------------------------ one digit

  lemma LowestLimb(s: seq<u32>)
    requires |s| > 0 && Normalized(s, WORD30)
    ensures Num(s) >= 0 && Num(s) % 32 == s[0] % 32
  {
    ValNonNegative(s, WORD30);
    Congruent(Num(s), s[0], 0x200_0000 * Val(s[1..], WORD30));
  }

  /** The five bits at a position: the digit's index and sign, and whether the sign changes. */
  lemma FoldedDigit(a: nat, i: nat, limb: u32, low: u32)
    requires Window(a, i) % 32 == limb % 32
    requires low == if limb % 32 < 16 then 15 - limb % 16 else limb % 16
    ensures low / 2 < 8 && Digit(a, i) == Signed(Window(a, i + 1) % 2 == 0, 2 * (low / 2) + 1)
    ensures low % 2 == 0 <==> (Window(a, i) % 2 == 0) != (Window(a, i + 1) % 2 == 0)
    ensures (limb / 16) % 2 == 0 <==> Window(a, i + 1) % 2 == 0
  {
    var bits := limb % 32;
    Mod32(limb);
    RecodedDigit(a, i, bits);
    WindowStep(a, i);
    FiveBits(Window(a, i + 1), Window(a, i) % 16, bits);
    FoldedSign(limb, bits, low);
    SameParity(Window(a, i), limb);
  }

  lemma FoldedSign(limb: nat, bits: nat, low: nat)
    requires bits == limb % 32 && low == if bits < 16 then 15 - bits % 16 else bits % 16
    ensures low / 2 == IndexOf(bits) && ((limb / 16) % 2 == 0 <==> bits < 16)
    ensures low % 2 == 0 <==> (limb % 2 == 0) != (bits < 16)
  {
    var q, h := limb / 32, bits / 16;
    DivMod(limb, 32);
    DivModUnique(limb, 2 * q + h, bits % 16, 16);
    DivModUnique(2 * q + h, q, h, 2);
    SameParity(bits, limb);
    LowParity(bits, low);
  }

  lemma LowParity(bits: nat, low: nat)
    requires bits < 32 && low == if bits < 16 then 15 - bits % 16 else bits % 16
    ensures low / 2 == IndexOf(bits) && (low % 2 == 0 <==> (bits % 2 == 0) != (bits < 16))
  {}

  lemma SameParity(w: nat, limb: nat)
    requires w % 32 == limb % 32
    ensures w % 2 == limb % 2
  {
    var b := w % 32;
    DivMod(w, 32);
    DivMod(limb, 32);
    DivModUnique(w, 16 * (w / 32) + b / 2, b % 2, 2);
    DivModUnique(limb, 16 * (limb / 32) + b / 2, b % 2, 2);
  }

  lemma NegatedOverY(x: int, y: int, z: int, n: int, ax: int, ay: int, m: int, p: int)
    requires p > 0 && Over(x, y, z, ax, ay, p).Holds? && Cong(n, -y, p) && Cong(m, -ay, p)
    ensures Over(x, n, z, ax, m, p).Holds?
  {
    var zzz := z * z * z;
    OverMeans(x, y, z, ax, ay, p);
    OverMeans(x, n, z, ax, m, p);
    CongAdd(0, 0, y, ay * zzz, p);
    CongMul(m, -ay, zzz, zzz, p);
    NegatedProduct(zzz, ay);
  }

  lemma ZeroY(x: int, y: int, z: int, ax: int, ay: int, p: int)
    requires IsPrime(p) && 0 <= ay < p && !Cong(z, 0, p) && Over(x, y, z, ax, ay, p).Holds? && ay != 0
    ensures y != 0
  {
    OverMeans(x, y, z, ax, ay, p);
    if y == 0 { TangentVertical(ay, y, z, y * z, p); }
  }

  /** Negating y negates a point that is not its own negative. */
  lemma NegatedY(c: Curve, x: int, y: int, z: int, s: Point)
    requires Valid(c) && Standing(c, x, y, z, s) && s.y != 0
    ensures Standing(c, x, 2 * c.prime - y, z, Neg(c, s))
  {
    var p := c.prime;
    NegOnCurve(c, s);
    ZeroY(x, y, z, s.x, s.y, p);
    CongByMultiple(2 * p - y, -y, p, 2);
    NegatedOverY(x, y, z, 2 * p - y, s.x, s.y, Neg(c, s).y, p);
  }

  /** Multiples of a point of odd order may be negated through y: none but infinity is its own negative. */
  lemma Moved(c: Curve, x: int, y: int, z: int, y': int, m: int, g: Point, cond: bool)
    requires IsGroup(c) && OnCurve(c, g) && g.At? && Stands(c, x, y, z, Multiple(c, m, g)).Holds?
    requires y' == if cond then 2 * c.prime - y else y
    ensures Stands(c, x, y', z, Multiple(c, Signed(cond, m), g)).Holds?
  {
    DoubleMultiple(c, m, 2 * m, g);
    MulNeg(c, m, g);
    if cond { NegatedY(c, x, y, z, Multiple(c, m, g)); }
  }

  method NegateYIf(cond: bool, jres: JacobianPoint, c: Curve, ghost m: int, ghost g: Point)
    requires IsGroup(c) && OnCurve(c, g) && g.At? && jres.Represents(c, Multiple(c, m, g))
    modifies jres
    ensures jres.Represents(c, Multiple(c, Signed(cond, m), g))
  {
    ghost var y := jres.y;
    jres.y := ConditionalNegate(cond, jres.y, c.prime);
    Moved(c, jres.x, y, jres.z, jres.y, m, g, cond);
  }

  /** The digits below position i have been added, up to the sign of the last of them. */
  ghost function Summed(i: nat, c: Curve, cp: seq<seq<CurvePoint>>, limbs: array<u32>, jres: JacobianPoint,
                        a: nat, k: int, g: Point): Verdict
    reads limbs, jres, set i, j | 0 <= i < |cp| && 0 <= j < |cp[i]| :: cp[i][j]
  {
    if && IsGroup(c) && OnCurve(c, g) && g.At? && CpTable(cp, c, g).Holds?
       && 0 < k < c.order && a == MadeOdd(k, c.order) && 0 < i <= 64
       && B.Bn(limbs) && Num(limbs[..]) == Window(a, i - 1)
       && jres.Represents(c, Multiple(c, Signed(Window(a, i) % 2 == 0, Below(a, i)), g))
    then Holds else Fails
  }

  /** jres := (-1)^cond jres + q, from the digits below position i to those below the next. */
  method AddEntry(cond: bool, q: CurvePoint, jres: JacobianPoint, c: Curve, ghost i: nat, ghost index: nat,
                  ghost a: nat, ghost k: int, ghost g: Point)
    requires IsGroup(c) && OnCurve(c, g) && g.At? && 0 < k < c.order && a == MadeOdd(k, c.order) && 0 < i < 64
    requires index < 8 && Digit(a, i) == Signed(Window(a, i + 1) % 2 == 0, 2 * index + 1)
    requires cond <==> (Window(a, i) % 2 == 0) != (Window(a, i + 1) % 2 == 0)
    requires CpEntry(q, i, index, c, g)
    requires jres.Represents(c, Multiple(c, Signed(Window(a, i) % 2 == 0, Below(a, i)), g))
    modifies jres
    ensures jres.Represents(c, Multiple(c, Signed(Window(a, i + 1) % 2 == 0, Below(a, i + 1)), g))
  {
    ghost var n0, n1 := Window(a, i) % 2 == 0, Window(a, i + 1) % 2 == 0;
    ghost var d, m, m' := Two(4 * i) * (2 * index + 1), Below(a, i), Below(a, i + 1);
    BelowStep(a, i);
    NegatedProduct(Two(4 * i), 2 * index + 1);
    BelowPoint(c, a, i + 1, k, g);
    SignedPoint(c, n1, m', g);
    EntryAt(c, i, index, g);
    NegateYIf(cond, jres, c, Signed(n0, m), g);
    AddMultiple(q, jres, c, d, Signed(cond, Signed(n0, m)), Signed(n1, m'), g);
  }

  /** Position i: the scalar moves down four bits, and the entry for its lowest five is added. */
  method NextEntry(c: Curve, cp: seq<seq<CurvePoint>>, limbs: array<u32>, jres: JacobianPoint, i: nat,
                   ghost a: nat, ghost k: int, ghost g: Point)
    requires i < 64 && Summed(i, c, cp, limbs, jres, a, k, g).Holds?
    modifies limbs, jres
    ensures Summed(i + 1, c, cp, limbs, jres, a, k, g).Holds?
  {
    ghost var w := Window(a, i - 1);
    WindowStep(a, i - 1);
    ghost var d := limbs[0] % 16;
    ShiftScalar(limbs);
    LowestLimb(limbs[..]);
    assert Num(limbs[..]) == Window(a, i) by { DivModUnique(w, Num(limbs[..]), d, 16); }
    var low := FoldedBits(limbs[0]);
    FoldedDigit(a, i, limbs[0], low);
    AddEntry(low % 2 == 0, cp[i][low / 2], jres, c, i, low / 2, a, k, g);
  }

  lemma FirstSum(a: nat, i: nat, index: nat)
    requires a % 2 == 1 && i == 0
    requires Digit(a, i) == Signed(Window(a, i + 1) % 2 == 0, 2 * index + 1)
    ensures Two(4 * i) * (2 * index + 1) == Signed(Window(a, i + 1) % 2 == 0, Below(a, i + 1))
  {
    BelowFirst(a, i);
    MulEq(2 * index + 1, Two(4 * i), 1);
  }

  /** Position 0. */
  method FirstEntry(c: Curve, cp: seq<seq<CurvePoint>>, limbs: array<u32>, jres: JacobianPoint, z: int,
                    ghost a: nat, ghost k: int, ghost g: Point)
    requires IsGroup(c) && OnCurve(c, g) && g.At? && 0 < z < c.prime && CpTable(cp, c, g).Holds?
    requires 0 < k < c.order && B.Bn(limbs) && Num(limbs[..]) == a == MadeOdd(k, c.order)
    modifies jres
    ensures Summed(1, c, cp, limbs, jres, a, k, g).Holds?
  {
    ghost var zero: nat := 0;
    LowestLimb(limbs[..]);
    WindowZero(a);
    var low := FoldedBits(limbs[0]);
    FoldedDigit(a, zero, limbs[0], low);
    EntryAt(c, zero, low / 2, g);
    assert CpEntry(cp[0][low / 2], zero, low / 2, c, g);
    assert a % 2 == 1 by { OddPrime(c.order); MadeOddRange(k, c.order); }
    FirstSum(a, zero, low / 2);
    CurveToJacobian(cp[0][low / 2], jres, z, c);
  }

  /**
   res := k G for 0 <= k < order, where cp[i][j] = (2 j + 1) 16^i G; z is the random
   denominator of curve_to_jacobian.
   */
  method ScalarMultiplyBase(c: Curve, cp: seq<seq<CurvePoint>>, k: array<u32>, order: array<u32>, res: CurvePoint, z: int,
                            ghost g: Point)
    requires IsGroup(c) && B.Bn(k) && B.Bn(order) && Num(order[..]) == c.order && Num(k[..]) < c.order
    requires OnCurve(c, g) && g.At? && CpTable(cp, c, g).Holds? && 0 < z < c.prime
    modifies res
    ensures res.View() == Multiple(c, Num(k[..]), g)
  {
    ghost var kv := Num(k[..]);
    var a := new u32[9](_ => 0);
    OddPrime(c.order);
    var nonZero := OddScalar(k, order, a);
    if !nonZero {
      MulOne(c, g);
      res.SetInfinity();
      return;
    }
    ValNonNegative(k[..], WORD30);
    var jres := new JacobianPoint(0, 0, 0);
    AddEntries(c, cp, a, jres, z, MadeOdd(kv, c.order), kv, g);
    JacobianToCurve(jres, res, c, Multiple(c, kv, g));
  }

  /** jres := the sum of all digits times G */
  method AddEntries(c: Curve, cp: seq<seq<CurvePoint>>, limbs: array<u32>, jres: JacobianPoint, z: int,
                    ghost a: nat, ghost k: int, ghost g: Point)
    requires IsGroup(c) && OnCurve(c, g) && g.At? && 0 < z < c.prime && CpTable(cp, c, g).Holds?
    requires 0 < k < c.order && B.Bn(limbs) && Num(limbs[..]) == a == MadeOdd(k, c.order)
    modifies limbs, jres
    ensures jres.Represents(c, Multiple(c, k, g))
  {
    FirstEntry(c, cp, limbs, jres, z, a, k, g);
    var i := 1;
    while i < 64
      invariant 1 <= i <= 64 && Summed(i, c, cp, limbs, jres, a, k, g).Holds?
    {
      NextEntry(c, cp, limbs, jres, i, a, k, g);
      i := i + 1;
    }
    LastSign(c, cp, limbs, jres, i, a, k, g);
  }

  /** The sign of the highest digit. */
  method LastSign(c: Curve, cp: seq<seq<CurvePoint>>, limbs: array<u32>, jres: JacobianPoint, ghost n: nat,
                  ghost a: nat, ghost k: int, ghost g: Point)
    requires n == 64 && Summed(n, c, cp, limbs, jres, a, k, g).Holds?
    modifies jres
    ensures jres.Represents(c, Multiple(c, k, g))
  {
    LowestLimb(limbs[..]);
    ghost var low := if limbs[0] % 32 < 16 then 15 - limbs[0] % 16 else limbs[0] % 16;
    FoldedDigit(a, n - 1, limbs[0], low);
    NegateYIf((limbs[0] / 16) % 2 == 0, jres, c, Signed(Window(a, n) % 2 == 0, Below(a, n)), g);
    assert Cong(Below(a, n), k, c.order) by { OddPrime(c.order); BelowWhole(a, n, k, c.order); }
    MulCong(c, Below(a, n), k, g);
  }
}
