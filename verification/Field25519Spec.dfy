/**
 The field of 2^255 - 19 on ten limbs of alternately 26 and 25 bits: what the unrolled
 columns of a product add up to.
 */
module Field25519Spec {
  import opened Arith
  import opened Modular
  import opened Words

  /** 2^255 - 19 */
  const P25519: int := 0x7fff_ffff_ffff_ffff_ffff_ffff_ffff_ffff_ffff_ffff_ffff_ffff_ffff_ffff_ffff_ffed

  const Y1: int := 0x400_0000
  const Y2: int := 0x8_0000_0000_0000
  const Y3: int := 0x2000_0000_0000_0000_0000
  const Y4: int := 0x40_0000_0000_0000_0000_0000_0000
  const Y5: int := 0x1_0000_0000_0000_0000_0000_0000_0000_0000
  const Y6: int := 0x200_0000_0000_0000_0000_0000_0000_0000_0000_0000
  const Y7: int := 0x8_0000_0000_0000_0000_0000_0000_0000_0000_0000_0000_0000
  const Y8: int := 0x1000_0000_0000_0000_0000_0000_0000_0000_0000_0000_0000_0000_0000
  const Y9: int := 0x40_0000_0000_0000_0000_0000_0000_0000_0000_0000_0000_0000_0000_0000_0000
  const Y10: int := 0x8000_0000_0000_0000_0000_0000_0000_0000_0000_0000_0000_0000_0000_0000_0000_0000

  /** bignum25519 */
  datatype Ten<+T> = Ten(x0: T, x1: T, x2: T, x3: T, x4: T, x5: T, x6: T, x7: T, x8: T, x9: T)

  lemma PrimeMeans(n: nat)
    requires n == 255
    ensures P25519 == Pow2(n) - 19 && Y10 == Pow2(n)
  {
    TwoTo252(n - 3);
    assert Pow2(n - 2) == 2 * Pow2(n - 3);
    assert Pow2(n - 1) == 2 * Pow2(n - 2);
  }

  function Limbs(a: Ten<int>): int {
    a.x0 + Y1 * a.x1 + Y2 * a.x2 + Y3 * a.x3 + Y4 * a.x4 + Y5 * a.x5 + Y6 * a.x6 + Y7 * a.x7 + Y8 * a.x8 + Y9 * a.x9
  }

  ghost function ValueIn(depth: nat, a: Ten<int>): int {
    if depth > 0 then ValueIn(depth - 1, a) else Limbs(a)
  }

  /** The number that the limbs make; folded (see Arith), ValueMeans unfolds it. */
  ghost function Value(a: Ten<int>): int {
    ValueIn(FOLDS, a)
  }

  lemma {:induction false} ValueInMeans(depth: nat, a: Ten<int>)
    ensures ValueIn(depth, a) == Limbs(a)
  {
    if depth > 0 { ValueInMeans(depth - 1, a); }
  }

  lemma ValueMeans(a: Ten<int>)
    ensures Value(a) == Limbs(a)
  {
    ValueInMeans(FOLDS, a);
  }

  // ------------------------------------------------------------ the product

  function Times(a: Ten<int>, k: int): Ten<int> {
    Ten(a.x0 * k, a.x1 * k, a.x2 * k, a.x3 * k, a.x4 * k, a.x5 * k, a.x6 * k, a.x7 * k, a.x8 * k, a.x9 * k)
  }

  lemma TimesValue(a: Ten<int>, k: int)
    ensures Value(Times(a, k)) == Value(a) * k
  {
    ValueMeans(a);
    ValueMeans(Times(a, k));
    Distrib(k, a.x0 + Y1 * a.x1 + Y2 * a.x2 + Y3 * a.x3 + Y4 * a.x4,
            Y5 * a.x5 + Y6 * a.x6 + Y7 * a.x7 + Y8 * a.x8 + Y9 * a.x9);
  }

  function Sum(a: Ten<int>, b: Ten<int>): Ten<int> {
    Ten(a.x0 + b.x0, a.x1 + b.x1, a.x2 + b.x2, a.x3 + b.x3, a.x4 + b.x4,
        a.x5 + b.x5, a.x6 + b.x6, a.x7 + b.x7, a.x8 + b.x8, a.x9 + b.x9)
  }

  lemma SumValue(a: Ten<int>, b: Ten<int>)
    ensures Value(Sum(a, b)) == Value(a) + Value(b)
  {
    ValueMeans(a);
    ValueMeans(b);
    ValueMeans(Sum(a, b));
  }

  /** Multiplication by 2^26: a limb of 25 bits that moves to a place of 26 is doubled. */
  function ByOne(a: Ten<int>): Ten<int> {
    Ten(38 * a.x9, a.x0, 2 * a.x1, a.x2, 2 * a.x3, a.x4, 2 * a.x5, a.x6, 2 * a.x7, a.x8)
  }

  lemma ByOneValue(a: Ten<int>)
    ensures Y1 * Value(a) == Value(ByOne(a)) + P25519 * (2 * a.x9)
  {
    ValueMeans(a);
    ValueMeans(ByOne(a));
  }

  /** Multiplication by 2^51: what leaves at the top comes back 19 times at the bottom. */
  function ByTwo(a: Ten<int>): Ten<int> {
    Ten(19 * a.x8, 19 * a.x9, a.x0, a.x1, a.x2, a.x3, a.x4, a.x5, a.x6, a.x7)
  }

  lemma ByTwoValue(a: Ten<int>)
    ensures Y2 * Value(a) == Value(ByTwo(a)) + P25519 * (a.x8 + Y1 * a.x9)
  {
    ValueMeans(a);
    ValueMeans(ByTwo(a));
  }

  /** a (k + 2^26 l) */
  function Pair(a: Ten<int>, k: int, l: int): Ten<int> {
    Sum(Times(a, k), Times(ByOne(a), l))
  }

  lemma PairValue(a: Ten<int>, k: int, l: int)
    ensures Value(Pair(a, k, l)) == Value(a) * (k + Y1 * l) - P25519 * (2 * a.x9 * l)
  {
    TimesValue(a, k);
    TimesValue(ByOne(a), l);
    ByOneValue(a);
    SumValue(Times(a, k), Times(ByOne(a), l));
    PairSum(Value(a), Value(ByOne(a)), k, l, 2 * a.x9);
  }

  lemma PairSum(w: int, v: int, k: int, l: int, q: int)
    requires Y1 * w == v + P25519 * q
    ensures w * k + v * l == w * (k + Y1 * l) - P25519 * (q * l)
  {
    MulEq(l, Y1 * w, v + P25519 * q);
    Distrib(w, k, Y1 * l);
    Distrib(l, v, P25519 * q);
  }

  /** The columns of a with the upper six limbs of b. */
  function Upper(a: Ten<int>, b: Ten<int>): Ten<int> {
    var e4 := Pair(a, b.x8, b.x9);
    var e3 := Sum(Pair(a, b.x6, b.x7), ByTwo(e4));
    Sum(Pair(a, b.x4, b.x5), ByTwo(e3))
  }

  /** The columns of a b, reduced by moving limbs around the top. */
  function Moved(a: Ten<int>, b: Ten<int>): Ten<int> {
    var e1 := Sum(Pair(a, b.x2, b.x3), ByTwo(Upper(a, b)));
    Sum(Pair(a, b.x0, b.x1), ByTwo(e1))
  }

  /** Two more limbs of the multiplier. */
  lemma ColumnStep(a: Ten<int>, k: int, l: int, e: Ten<int>, v: int)
    requires Cong(Value(e), v, P25519)
    ensures Cong(Value(Sum(Pair(a, k, l), ByTwo(e))), Value(a) * (k + Y1 * l) + Y2 * v, P25519)
  {
    var w := Value(a) * (k + Y1 * l);
    PairValue(a, k, l);
    CongByMultiple(Value(Pair(a, k, l)), w, P25519, -(2 * a.x9 * l));
    ByTwoValue(e);
    CongByMultiple(Value(ByTwo(e)), Y2 * Value(e), P25519, -(e.x8 + Y1 * e.x9));
    CongMul(Y2, Y2, Value(e), v, P25519);
    SumValue(Pair(a, k, l), ByTwo(e));
    CongAdd(Value(Pair(a, k, l)), w, Value(ByTwo(e)), Y2 * v, P25519);
  }

  lemma UpperValue(a: Ten<int>, b: Ten<int>, v4: int, v3: int)
    requires v4 == Value(a) * (b.x8 + Y1 * b.x9) && v3 == Value(a) * (b.x6 + Y1 * b.x7) + Y2 * v4
    ensures Cong(Value(Upper(a, b)), Value(a) * (b.x4 + Y1 * b.x5) + Y2 * v3, P25519)
  {
    var e4 := Pair(a, b.x8, b.x9);
    PairValue(a, b.x8, b.x9);
    CongByMultiple(Value(e4), v4, P25519, -(2 * a.x9 * b.x9));
    var e3 := Sum(Pair(a, b.x6, b.x7), ByTwo(e4));
    ColumnStep(a, b.x6, b.x7, e4, v4);
    ColumnStep(a, b.x4, b.x5, e3, v3);
  }

  lemma MovedValue(a: Ten<int>, b: Ten<int>)
    ensures Cong(Value(Moved(a, b)), Value(a) * Value(b), P25519)
  {
    var w, e2 := Value(a), Upper(a, b);
    var v4 := w * (b.x8 + Y1 * b.x9);
    var v3 := w * (b.x6 + Y1 * b.x7) + Y2 * v4;
    var v2 := w * (b.x4 + Y1 * b.x5) + Y2 * v3;
    var v1 := w * (b.x2 + Y1 * b.x3) + Y2 * v2;
    UpperValue(a, b, v4, v3);
    ColumnStep(a, b.x2, b.x3, e2, v2);
    ColumnStep(a, b.x0, b.x1, Sum(Pair(a, b.x2, b.x3), ByTwo(e2)), v1);
    Horner(w, b, v1, v2, v3, v4);
  }

  lemma Horner(w: int, b: Ten<int>, v1: int, v2: int, v3: int, v4: int)
    requires v4 == w * (b.x8 + Y1 * b.x9) && v3 == w * (b.x6 + Y1 * b.x7) + Y2 * v4
    requires v2 == w * (b.x4 + Y1 * b.x5) + Y2 * v3 && v1 == w * (b.x2 + Y1 * b.x3) + Y2 * v2
    ensures w * (b.x0 + Y1 * b.x1) + Y2 * v1 == w * Value(b)
  {
    TimesValue(b, w);
    ValueMeans(b);
    ValueMeans(Times(b, w));
    Distrib(w, b.x8, Y1 * b.x9);
    Distrib(w, b.x6, Y1 * b.x7);
    Distrib(w, b.x4, Y1 * b.x5);
    Distrib(w, b.x2, Y1 * b.x3);
    Distrib(w, b.x0, Y1 * b.x1);
  }

  // ------------------------------------------------------------ the columns of the source

  function Dot(a: Ten<int>, t: Ten<int>): int {
    t.x0 * a.x0 + t.x1 * a.x1 + t.x2 * a.x2 + t.x3 * a.x3 + t.x4 * a.x4
    + t.x5 * a.x5 + t.x6 * a.x6 + t.x7 * a.x7 + t.x8 * a.x8 + t.x9 * a.x9
  }

  /**
   The columns: products of limbs whose weights meet, doubled where both have 25 bits and
   times 19 where they meet beyond 2^255.
   */
  function Columns(a: Ten<int>, b: Ten<int>): Ten<int> {
    Ten(Dot(a, Ten(b.x0, 38 * b.x9, 19 * b.x8, 38 * b.x7, 19 * b.x6, 38 * b.x5, 19 * b.x4, 38 * b.x3, 19 * b.x2, 38 * b.x1)),
        Dot(a, Ten(b.x1, b.x0, 19 * b.x9, 19 * b.x8, 19 * b.x7, 19 * b.x6, 19 * b.x5, 19 * b.x4, 19 * b.x3, 19 * b.x2)),
        Dot(a, Ten(b.x2, 2 * b.x1, b.x0, 38 * b.x9, 19 * b.x8, 38 * b.x7, 19 * b.x6, 38 * b.x5, 19 * b.x4, 38 * b.x3)),
        Dot(a, Ten(b.x3, b.x2, b.x1, b.x0, 19 * b.x9, 19 * b.x8, 19 * b.x7, 19 * b.x6, 19 * b.x5, 19 * b.x4)),
        Dot(a, Ten(b.x4, 2 * b.x3, b.x2, 2 * b.x1, b.x0, 38 * b.x9, 19 * b.x8, 38 * b.x7, 19 * b.x6, 38 * b.x5)),
        Dot(a, Ten(b.x5, b.x4, b.x3, b.x2, b.x1, b.x0, 19 * b.x9, 19 * b.x8, 19 * b.x7, 19 * b.x6)),
        Dot(a, Ten(b.x6, 2 * b.x5, b.x4, 2 * b.x3, b.x2, 2 * b.x1, b.x0, 38 * b.x9, 19 * b.x8, 38 * b.x7)),
        Dot(a, Ten(b.x7, b.x6, b.x5, b.x4, b.x3, b.x2, b.x1, b.x0, 19 * b.x9, 19 * b.x8)),
        Dot(a, Ten(b.x8, 2 * b.x7, b.x6, 2 * b.x5, b.x4, 2 * b.x3, b.x2, 2 * b.x1, b.x0, 38 * b.x9)),
        Dot(a, Ten(b.x9, b.x8, b.x7, b.x6, b.x5, b.x4, b.x3, b.x2, b.x1, b.x0)))
  }

  /** The factors that the source puts on either limb. */
  lemma Factors(x: int, y: int)
    ensures (19 * y) * x == 19 * (x * y) && (38 * y) * x == 38 * (x * y) && (2 * y) * x == 2 * (x * y)
    ensures (38 * x) * y == 38 * (x * y) && (2 * x) * y == 2 * (x * y)
  {}

  lemma Column0(a: Ten<int>, b: Ten<int>)
    ensures Columns(a, b).x0 == Moved(a, b).x0
  {
    Factors(a.x1, b.x9);
    Factors(a.x2, b.x8);
    Factors(a.x3, b.x7);
    Factors(a.x4, b.x6);
    Factors(a.x5, b.x5);
    Factors(a.x6, b.x4);
    Factors(a.x7, b.x3);
    Factors(a.x8, b.x2);
    Factors(a.x9, b.x1);
  }

  lemma Column1(a: Ten<int>, b: Ten<int>)
    ensures Columns(a, b).x1 == Moved(a, b).x1
  {
    Factors(a.x2, b.x9);
    Factors(a.x3, b.x8);
    Factors(a.x4, b.x7);
    Factors(a.x5, b.x6);
    Factors(a.x6, b.x5);
    Factors(a.x7, b.x4);
    Factors(a.x8, b.x3);
    Factors(a.x9, b.x2);
  }

  lemma Column2(a: Ten<int>, b: Ten<int>)
    ensures Columns(a, b).x2 == Moved(a, b).x2
  {
    Factors(a.x1, b.x1);
    Factors(a.x3, b.x9);
    Factors(a.x4, b.x8);
    Factors(a.x5, b.x7);
    Factors(a.x6, b.x6);
    Factors(a.x7, b.x5);
    Factors(a.x8, b.x4);
    Factors(a.x9, b.x3);
  }

  lemma Column3(a: Ten<int>, b: Ten<int>)
    ensures Columns(a, b).x3 == Moved(a, b).x3
  {
    Factors(a.x4, b.x9);
    Factors(a.x5, b.x8);
    Factors(a.x6, b.x7);
    Factors(a.x7, b.x6);
    Factors(a.x8, b.x5);
    Factors(a.x9, b.x4);
  }

  lemma Column4(a: Ten<int>, b: Ten<int>)
    ensures Columns(a, b).x4 == Moved(a, b).x4
  {
    Factors(a.x1, b.x3);
    Factors(a.x3, b.x1);
    Factors(a.x5, b.x9);
    Factors(a.x6, b.x8);
    Factors(a.x7, b.x7);
    Factors(a.x8, b.x6);
    Factors(a.x9, b.x5);
  }

  lemma Column5(a: Ten<int>, b: Ten<int>)
    ensures Columns(a, b).x5 == Moved(a, b).x5
  {
    Factors(a.x6, b.x9);
    Factors(a.x7, b.x8);
    Factors(a.x8, b.x7);
    Factors(a.x9, b.x6);
  }

  lemma Column6(a: Ten<int>, b: Ten<int>)
    ensures Columns(a, b).x6 == Moved(a, b).x6
  {
    Factors(a.x1, b.x5);
    Factors(a.x3, b.x3);
    Factors(a.x5, b.x1);
    Factors(a.x7, b.x9);
    Factors(a.x8, b.x8);
    Factors(a.x9, b.x7);
  }

  lemma Column7(a: Ten<int>, b: Ten<int>)
    ensures Columns(a, b).x7 == Moved(a, b).x7
  {
    Factors(a.x8, b.x9);
    Factors(a.x9, b.x8);
  }

  lemma Column8(a: Ten<int>, b: Ten<int>)
    ensures Columns(a, b).x8 == Moved(a, b).x8
  {
    Factors(a.x1, b.x7);
    Factors(a.x3, b.x5);
    Factors(a.x5, b.x3);
    Factors(a.x7, b.x1);
    Factors(a.x9, b.x9);
  }

  lemma Column9(a: Ten<int>, b: Ten<int>)
    ensures Columns(a, b).x9 == Moved(a, b).x9
  {}

  /** The columns are the product modulo 2^255 - 19. */
  lemma ColumnsValue(a: Ten<int>, b: Ten<int>)
    ensures Cong(Value(Columns(a, b)), Value(a) * Value(b), P25519)
  {
    Column0(a, b);
    Column1(a, b);
    Column2(a, b);
    Column3(a, b);
    Column4(a, b);
    Column5(a, b);
    Column6(a, b);
    Column7(a, b);
    Column8(a, b);
    Column9(a, b);
    MovedValue(a, b);
  }
}
