/** The arithmetic of Poly1305 modulo 2^130 - 5, on five limbs of 26 bits. */
module Poly1305Limbs {
  import opened Arith
  import opened Modular
  import opened Words
  import opened Limbs
  import opened Poly1305Spec
  import B = Bignum

  const X1: int := 0x400_0000
  const X2: int := 0x10_0000_0000_0000
  const X3: int := 0x4000_0000_0000_0000_0000
  const X4: int := 0x100_0000_0000_0000_0000_0000_0000
  const X5: int := 0x4_0000_0000_0000_0000_0000_0000_0000_0000

  /** The variables x0 to x4 of the source. */
  datatype Five<+T> = Five(x0: T, x1: T, x2: T, x3: T, x4: T)

  function Value(a: Five<int>): int {
    a.x0 + X1 * a.x1 + X2 * a.x2 + X3 * a.x3 + X4 * a.x4
  }

  // ------------------------------------------------------------ the product

  function Times(a: Five<int>, k: int): Five<int> {
    Five(a.x0 * k, a.x1 * k, a.x2 * k, a.x3 * k, a.x4 * k)
  }

  lemma TimesValue(a: Five<int>, k: int)
    ensures Value(Times(a, k)) == Value(a) * k
  {
    Distrib(k, a.x0, X1 * a.x1 + X2 * a.x2 + X3 * a.x3 + X4 * a.x4);
  }

  /** Multiplication by 2^26: what leaves at the top comes back five times at the bottom. */
  function Rotated(a: Five<int>): Five<int> {
    Five(5 * a.x4, a.x0, a.x1, a.x2, a.x3)
  }

  lemma RotatedValue(a: Five<int>)
    ensures X1 * Value(a) == Value(Rotated(a)) + P1305 * a.x4
  {}

  function Sum(a: Five<int>, b: Five<int>): Five<int> {
    Five(a.x0 + b.x0, a.x1 + b.x1, a.x2 + b.x2, a.x3 + b.x3, a.x4 + b.x4)
  }

  lemma SumValue(a: Five<int>, b: Five<int>)
    ensures Value(Sum(a, b)) == Value(a) + Value(b)
  {}

  /** The columns of h r from the multiplier's limb j on, reduced by rotation. */
  function Columns(h: Five<int>, r: Five<int>): Five<int> {
    var e3 := Sum(Times(h, r.x3), Rotated(Times(h, r.x4)));
    var e2 := Sum(Times(h, r.x2), Rotated(e3));
    var e1 := Sum(Times(h, r.x1), Rotated(e2));
    Sum(Times(h, r.x0), Rotated(e1))
  }

  /** One more limb of the multiplier. */
  lemma ColumnStep(h: Five<int>, k: int, e: Five<int>, v: int, q: int)
    requires Value(e) == v - P1305 * q
    ensures Value(Sum(Times(h, k), Rotated(e))) == Value(h) * k + X1 * v - P1305 * (X1 * q + e.x4)
  {
    TimesValue(h, k);
    RotatedValue(e);
    SumValue(Times(h, k), Rotated(e));
  }

  /** The columns are the product modulo 2^130 - 5. */
  lemma ColumnsValue(h: Five<int>, r: Five<int>)
    ensures Cong(Value(Columns(h, r)), Value(h) * Value(r), P1305)
  {
    var w := Value(h);
    var e4 := Times(h, r.x4);
    TimesValue(h, r.x4);
    var e3 := Sum(Times(h, r.x3), Rotated(e4));
    ColumnStep(h, r.x3, e4, w * r.x4, 0);
    var e2 := Sum(Times(h, r.x2), Rotated(e3));
    var v3, q3 := w * r.x3 + X1 * (w * r.x4), e4.x4;
    ColumnStep(h, r.x2, e3, v3, q3);
    var e1 := Sum(Times(h, r.x1), Rotated(e2));
    var v2, q2 := w * r.x2 + X1 * v3, X1 * q3 + e3.x4;
    ColumnStep(h, r.x1, e2, v2, q2);
    var v1, q1 := w * r.x1 + X1 * v2, X1 * q2 + e2.x4;
    ColumnStep(h, r.x0, e1, v1, q1);
    Horner(w, r, v1, v2, v3);
    CongByMultiple(Value(Columns(h, r)), w * Value(r), P1305, -(X1 * q1 + e1.x4));
  }

  lemma Horner(w: int, r: Five<int>, v1: int, v2: int, v3: int)
    requires v3 == w * r.x3 + X1 * (w * r.x4) && v2 == w * r.x2 + X1 * v3 && v1 == w * r.x1 + X1 * v2
    ensures w * r.x0 + X1 * v1 == w * Value(r)
  {
    TimesValue(r, w);
  }

  // ------------------------------------------------------------ one column

  /** The largest limb before a multiplication. */
  const TOP: int := 0x800_0040

  lemma ProductBound(h: int, r: int, n: int)
    requires 0 <= h <= TOP && 0 <= r <= n
    ensures 0 <= h * r <= TOP * n
  {
    MulLe2(h, r, TOP, n);
    MulNonNegative(h, r);
  }

  /** h0 r0 + h1 r1 + h2 r2 + h3 r3 + h4 r4, where the factors are at most n. */
  method Column(h: Five<u32>, r0: u32, r1: u32, r2: u32, r3: u32, r4: u32, ghost n: int) returns (d: u64)
    requires h.x0 <= TOP && h.x1 <= TOP && h.x2 <= TOP && h.x3 <= TOP && h.x4 <= TOP
    requires r0 <= n && r1 <= n && r2 <= n && r3 <= n && r4 <= n && n <= 0x1400_0000
    ensures d == h.x0 * r0 + h.x1 * r1 + h.x2 * r2 + h.x3 * r3 + h.x4 * r4
    ensures d <= 5 * (TOP * n)
  {
    ProductBound(h.x0, r0, n);
    ProductBound(h.x1, r1, n);
    ProductBound(h.x2, r2, n);
    ProductBound(h.x3, r3, n);
    ProductBound(h.x4, r4, n);
    MulLe(TOP, n, 0x1400_0000);
    var a: u64, b: u64, c: u64 := (h.x0 as u64) * (r0 as u64), (h.x1 as u64) * (r1 as u64), (h.x2 as u64) * (r2 as u64);
    var e: u64, f: u64 := (h.x3 as u64) * (r3 as u64), (h.x4 as u64) * (r4 as u64);
    d := a + b + c + e + f;
  }

  // ------------------------------------------------------------ the carries

  /** d += c; c = d >> 26; h = d & 0x3ffffff */
  method Carry(d: u64, c: u32, ghost n: int) returns (h: u32, c': u32)
    requires d + c < X1 * n && n <= 0x1_0000_0000
    ensures d + c == h + X1 * c' && h < X1 && c' < n
  {
    var t: u64 := d + c;
    DivMod(t, X1);
    DivBounds(t, X1, n);
    h, c' := t % X1, t / X1;
  }

  /** The carries move multiples of 2^26 up, and of 2^130 down to the bottom five times. */
  lemma Carried(d: Five<int>, h: Five<int>, c0: int, c1: int, c2: int, c3: int, c4: int, g: int, e: int)
    requires d.x0 == h.x0 + X1 * c0 && d.x1 + c0 == h.x1 + X1 * c1 && d.x2 + c1 == h.x2 + X1 * c2
    requires d.x3 + c2 == h.x3 + X1 * c3 && d.x4 + c3 == h.x4 + X1 * c4 && h.x0 + 5 * c4 == g + X1 * e
    ensures Value(Five(g, h.x1 + e, h.x2, h.x3, h.x4)) == Value(d) - P1305 * c4
  {}

  /** Between two blocks: all limbs but the second are below 2^26, and that one not far above. */
  predicate Partly(h: Five<u32>) {
    h.x0 < X1 && h.x1 < X1 + 0x40 && h.x2 < X1 && h.x3 < X1 && h.x4 < X1
  }

  predicate Small(r: Five<u32>) {
    r.x0 < X1 && r.x1 < X1 && r.x2 < X1 && r.x3 < X1 && r.x4 < X1
  }

  /** h := h r modulo 2^130 - 5, partly reduced. */
  method Multiply(h: Five<u32>, r: Five<u32>, s1: u32, s2: u32, s3: u32, s4: u32) returns (h': Five<u32>)
    requires h.x0 <= TOP && h.x1 <= TOP && h.x2 <= TOP && h.x3 <= TOP && h.x4 <= TOP && Small(r)
    requires s1 == 5 * r.x1 && s2 == 5 * r.x2 && s3 == 5 * r.x3 && s4 == 5 * r.x4
    ensures Partly(h') && Cong(Value(h'), Value(h) * Value(r), P1305)
  {
    var d0 := Column(h, r.x0, s4, s3, s2, s1, 0x1400_0000);
    var d1 := Column(h, r.x1, r.x0, s4, s3, s2, 0x1400_0000);
    var d2 := Column(h, r.x2, r.x1, r.x0, s4, s3, 0x1400_0000);
    var d3 := Column(h, r.x3, r.x2, r.x1, r.x0, s4, 0x1400_0000);
    var d4 := Column(h, r.x4, r.x3, r.x2, r.x1, r.x0, X1);
    SameColumns(h, r, s1, s2, s3, s4, Five(d0, d1, d2, d3, d4));
    ColumnsValue(h, r);
    h' := Reduce(d0, d1, d2, d3, d4);
  }

  /** The columns of the source, with five times the multiplier's limbs. */
  lemma SameColumns(h: Five<int>, r: Five<int>, s1: int, s2: int, s3: int, s4: int, d: Five<int>)
    requires s1 == 5 * r.x1 && s2 == 5 * r.x2 && s3 == 5 * r.x3 && s4 == 5 * r.x4
    requires d.x0 == h.x0 * r.x0 + h.x1 * s4 + h.x2 * s3 + h.x3 * s2 + h.x4 * s1
    requires d.x1 == h.x0 * r.x1 + h.x1 * r.x0 + h.x2 * s4 + h.x3 * s3 + h.x4 * s2
    requires d.x2 == h.x0 * r.x2 + h.x1 * r.x1 + h.x2 * r.x0 + h.x3 * s4 + h.x4 * s3
    requires d.x3 == h.x0 * r.x3 + h.x1 * r.x2 + h.x2 * r.x1 + h.x3 * r.x0 + h.x4 * s4
    requires d.x4 == h.x0 * r.x4 + h.x1 * r.x3 + h.x2 * r.x2 + h.x3 * r.x1 + h.x4 * r.x0
    ensures d == Columns(h, r)
  {
    FiveTimes(h.x1, s4, r.x4);
    FiveTimes(h.x2, s3, r.x3);
    FiveTimes(h.x3, s2, r.x2);
    FiveTimes(h.x4, s1, r.x1);
    FiveTimes(h.x2, s4, r.x4);
    FiveTimes(h.x3, s3, r.x3);
    FiveTimes(h.x4, s2, r.x2);
    FiveTimes(h.x3, s4, r.x4);
    FiveTimes(h.x4, s3, r.x3);
    FiveTimes(h.x4, s4, r.x4);
  }

  lemma FiveTimes(a: int, s: int, r: int)
    requires s == 5 * r
    ensures a * s == 5 * (a * r)
  {}

  /** The carries after the columns. */
  method Reduce(d0: u64, d1: u64, d2: u64, d3: u64, d4: u64) returns (h: Five<u32>)
    requires d0 <= 5 * (TOP * 0x1400_0000) && d1 <= 5 * (TOP * 0x1400_0000) && d2 <= 5 * (TOP * 0x1400_0000)
    requires d3 <= 5 * (TOP * 0x1400_0000) && d4 <= 5 * (TOP * X1)
    ensures Partly(h) && Cong(Value(h), Value(Five(d0, d1, d2, d3, d4)), P1305)
  {
    var h0, c0 := Carry(d0, 0, 0xC900_0000);
    var h1, c1 := Carry(d1, c0, 0xC900_0000);
    var h2, c2 := Carry(d2, c1, 0xC900_0000);
    var h3, c3 := Carry(d3, c2, 0xC900_0000);
    var h4, c4 := Carry(d4, c3, 0x2810_0000);
    var g0, e := Carry(h0, c4 * 5, 0x40);
    Carried(Five(d0, d1, d2, d3, d4), Five(h0, h1, h2, h3, h4), c0, c1, c2, c3, c4, g0, e);
    h := Five(g0, h1 + e, h2, h3, h4);
    CongByMultiple(Value(h), Value(Five(d0, d1, d2, d3, d4)), P1305, -(c4 as int));
  }
}
