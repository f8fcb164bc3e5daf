/** barrett_reduce256_modm, mul256_modm and sub256_modm on nine 30-bit limbs. */
module Modm {
  import opened Arith
  import opened Words
  import opened Limbs
  import opened BignumSpec
  import opened ModmSpec
  import opened ModmColumns
  import B = Bignum

  const MODM_M: seq<u32> := [
    0x1cf5d3ed, 0x20498c69, 0x2f79cd65, 0x37be77a8, 0x00000014, 0x00000000, 0x00000000, 0x00000000, 0x00001000]

  const MODM_MU: seq<u32> := [
    0x0a2c131b, 0x3673968c, 0x06329a7e, 0x01885742, 0x3fffeb21, 0x3fffffff, 0x3fffffff, 0x3fffffff, 0x000fffff]

  /** m in a redundant form, every limb of which is at least a normalized limb. */
  const TWO_P: seq<u32> := [
    0x5cf5d3ed, 0x60498c68, 0x6f79cd64, 0x77be77a7, 0x40000013, 0x3fffffff, 0x3fffffff, 0x3fffffff, 0x00000fff]

  /** Evaluating nine limbs. */
  lemma NineLimbs(s: seq<int>, v: int)
    requires |s| == 9
    requires v == s[0] + WORD30 * (s[1] + WORD30 * (s[2] + WORD30 * (s[3] + WORD30 * (s[4] + WORD30 * (s[5] +
                  WORD30 * (s[6] + WORD30 * (s[7] + WORD30 * s[8])))))))
    ensures Num(s) == v
  {
    LimbsFrom(s, 8);
    LimbsFrom(s, 7);
    LimbsFrom(s, 6);
    LimbsFrom(s, 5);
    LimbsFrom(s, 4);
    LimbsFrom(s, 3);
    LimbsFrom(s, 2);
    LimbsFrom(s, 1);
    LimbsFrom(s, 0);
    assert s[0..] == s && s[9..] == [];
  }

  lemma LimbsFrom(s: seq<int>, i: nat)
    requires i < |s|
    ensures Num(s[i..]) == s[i] + WORD30 * Num(s[i + 1..])
  {
    assert s[i..][1..] == s[i + 1..];
  }

  lemma ValueOfM(s: seq<u32>)
    requires s == MODM_M
    ensures Num(s) == M && Normalized(s, WORD30)
  {
    NineLimbs(s, M);
  }

  lemma ValueOfMu(s: seq<u32>)
    requires s == MODM_MU
    ensures Num(s) == MU && Normalized(s, WORD30)
  {
    NineLimbs(s, MU);
  }

  /** The constant called twoP is m itself. */
  lemma ValueOfTwoP(s: seq<u32>)
    requires s == TWO_P
    ensures Num(s) == M
  {
    NineLimbs(s, M);
  }

  /** A limb array that holds a constant. */
  method Constant(s: seq<u32>) returns (a: array<u32>)
    requires |s| == 9
    ensures fresh(a) && a[..] == s
  {
    a := new u32[9](i requires 0 <= i < 9 => s[i]);
  }

  // ------------------------------------------------------------ the quotient estimate

  /** The digits of the columns from 8 on, and of column 7 the lowest, which is dropped. */
  ghost predicate Estimating(q3: seq<int>, d7: int, d: seq<int>, c: int, i: nat, mu: seq<int>, q1: seq<int>) {
    && |d| == i - 8 && |d| > 0 && i <= 17 && Normalized([d7], WORD30) && Normalized(d, WORD30)
    && Num([d7] + d + [c]) == High(mu, q1, 7, i)
    && |q3| == 9 && q3[..i - 8] == Shifted(d, 0x100_0000, 64)
  }

  /** (q | (f << 6)) & 0x3fffffff, where q is below 2^6. */
  method Joined(q: u32, f: u64, ghost n: nat) returns (r: u32)
    requires q < 64 && n == 6
    ensures r == q + 64 * (f % 0x100_0000)
  {
    Pow2OfSix(n);
    OrDisjoint(q, f % 0x100_0000, n);
    r := Or(q, 64 * (f % 0x100_0000));
  }

  lemma Pow2OfSix(n: nat)
    requires n == 6
    ensures Pow2(n) == 64
  {}

  method NextQuotientDigit(mu: array<u32>, q1: array<u32>, q3: array<u32>, i: nat, c: u64, ghost d7: int, ghost d: seq<int>)
    returns (c': u64)
    requires B.Bn(mu) && B.Bn(q1) && q3 != mu && q3 != q1 && q3.Length == 9 && 9 <= i < 16 && c < 9 * WORD30
    requires Estimating(q3[..], d7, d, c, i, mu[..], q1[..])
    modifies q3
    ensures c' < 9 * WORD30
    ensures exists f :: Estimating(q3[..], d7, d + [f], c', i + 1, mu[..], q1[..])
  {
    var t := B.AddColumn(mu, q1, i, c);
    ghost var s := q3[..];
    LastHigh(d, 0x100_0000, 64);
    assert s[i - 9] == s[..i - 8][i - 9];
    ShiftedSnoc(d, t % WORD30, 0x100_0000, 64);
    LowBits(t, WORD30, 0x100_0000, 64);
    q3[i - 9] := Joined(q3[i - 9], t, 6);
    q3[i - 8] := (t % WORD30) / 0x100_0000;
    assert q3[..i - 7] == s[..i - 9] + [q3[i - 9], q3[i - 8]];
    HighDone([d7] + d, mu[..], q1[..], 7, c, t);
    assert [d7] + d + [t % WORD30] == [d7] + (d + [t % WORD30]);
    c' := t / WORD30;
    assert Estimating(q3[..], d7, d + [t % WORD30], c', i + 1, mu[..], q1[..]);
  }

  /** The last entry so far is the last digit's high part. */
  lemma LastHigh(d: seq<int>, p: nat, q: nat)
    requires |d| > 0 && Normalized(d, WORD30) && p > 0 && p * q == WORD30
    ensures var n := |d| - 1; Shifted(d, p, q)[n] == d[n] / p && 0 <= d[n] / p < q
  {
    var n := |d| - 1;
    ShiftedSnoc(d, 0, p, q);
    DivBounds(d[n], p, q);
    DivBounds(d[n], p, 0);
  }

  lemma LowBits(t: int, w: int, p: int, q: int)
    requires p > 0 && q > 0 && w == p * q
    ensures (t % w) % p == t % p
  {
    DivDiv(t, p, q);
    DivMod(t, p);
    var k := (t / p) % q;
    DivModUnique(t % w, k, t % p, p);
  }

  /** The quotient estimate is the product without columns 0 to 6, divided by 2^264. */
  lemma EstimateValue(k: seq<int>, x: seq<int>, d7: int, d: seq<int>, top: int, q3: int)
    requires |k| == |x| == 9 && Normalized(k, WORD30) && Normalized(x, WORD30)
    requires |d| == 8 && 0 <= d7 < WORD30 && top >= 0
    requires Num([d7] + d + [top]) == High(k, x, 7, 17)
    requires q3 == Num(d + [top]) / 0x100_0000
    ensures var c := B.Columns(k, x, 0, 7);
      && 0 <= 16 * c <= TWO264
      && 0 <= Num(k) * Num(x) - c - TWO264 * q3 < TWO264
  {
    var c, p, v, h := B.Columns(k, x, 0, 7), Pow(WORD30, 7), Num(d + [top]), High(k, x, 7, 17);
    assert 0 <= 16 * c <= TWO264 by { ColumnsBound(k, x, 7); PowLiterals(); }
    assert Num(k) * Num(x) == c + p * h by { HighSplit(k, x, 7, 17); B.ColumnsTotal(k, x); }
    assert h == d7 + WORD30 * v by {
      assert [d7] + d + [top] == [d7] + (d + [top]);
      assert ([d7] + (d + [top]))[1..] == d + [top];
    }
    assert WORD30 * p == TWO240 by { PowLiterals(); }
    EstimateRange(p, h, d7, v, q3);
  }

  lemma EstimateRange(p: int, h: int, d7: int, v: int, q3: int)
    requires p > 0 && WORD30 * p == TWO240 && h == d7 + WORD30 * v && 0 <= d7 < WORD30 && q3 == v / 0x100_0000
    ensures 0 <= p * h - TWO264 * q3 < TWO264
  {
    Distrib(p, d7, WORD30 * v);
    Assoc(p, WORD30, v);
    DivMod(v, 0x100_0000);
    MulLe(p, d7, WORD30 - 1);
    MulNonNegative(p, d7);
  }

  lemma TopOfEstimate(d: seq<int>, top: int, v: int, q3: int)
    requires |d| == 8 && Normalized(d, WORD30) && v == Num(d + [top]) && q3 == v / 0x100_0000 && top >= 0
    requires TWO264 * q3 <= MU * TWO264
    ensures top / 0x100_0000 < WORD30
  {
    ValSnoc(d, top, WORD30);
    ValBound(d, WORD30);
    PowLiterals();
    DivMod(v, 0x100_0000);
    DivMod(top, 0x100_0000);
  }

  /** Columns 7 and 8; of the first, only the carry is used. */
  method FirstQuotientDigit(mu: array<u32>, q1: array<u32>, q3: array<u32>)
    returns (c: u64, ghost d7: int, ghost d: seq<int>)
    requires B.Bn(mu) && B.Bn(q1) && q3 != mu && q3 != q1 && q3.Length == 9
    modifies q3
    ensures c < 9 * WORD30 && Estimating(q3[..], d7, d, c, 9, mu[..], q1[..])
  {
    ghost var k, x := mu[..], q1[..];
    ValSnoc([], 0, WORD30);
    assert [] + [0] == [0];
    var t := B.AddColumn(mu, q1, 7, 0);
    d7 := t % WORD30;
    HighDone([], k, x, 7, 0, t);
    assert [] + [t % WORD30] == [d7];
    c := t / WORD30;
    t := B.AddColumn(mu, q1, 8, c);
    q3[0] := (t % WORD30) / 0x100_0000;
    HighDone([d7], k, x, 7, c, t);
    c := t / WORD30;
    d := [t % WORD30];
    assert q3[..1] == [q3[0]];
    ShiftedSingle(d[0], 0x100_0000, 64);
  }

  /** q3 = floor((mu q1 - dropped) / 2^264) */
  method Quotient(mu: array<u32>, q1: array<u32>, q3: array<u32>) returns (ghost dropped: nat, ghost rest: nat)
    requires B.Bn(mu) && B.Bn(q1) && q3 != mu && q3 != q1 && q3.Length == 9
    requires Num(mu[..]) == MU && Num(q1[..]) < TWO264
    modifies q3
    ensures B.Bn(q3) && 16 * dropped <= TWO264 && rest < TWO264
    ensures MU * Num(q1[..]) - dropped == TWO264 * Num(q3[..]) + rest
  {
    ghost var k, x := mu[..], q1[..];
    var c: u64;
    ghost var d7, d;
    c, d7, d := FirstQuotientDigit(mu, q1, q3);
    var i := 9;
    while i < 16
      invariant 9 <= i <= 16 && 0 <= c < 9 * WORD30 && Estimating(q3[..], d7, d, c, i, k, x)
    {
      c := NextQuotientDigit(mu, q1, q3, i, c, d7, d);
      ghost var f :| Estimating(q3[..], d7, d + [f], c, i + 1, k, x);
      d := d + [f];
      i := i + 1;
    }
    dropped, rest := LastQuotientDigit(mu, q1, q3, c, d7, d);
  }

  method LastQuotientDigit(mu: array<u32>, q1: array<u32>, q3: array<u32>, c: u64, ghost d7: int, ghost d: seq<int>)
    returns (ghost dropped: nat, ghost rest: nat)
    requires B.Bn(mu) && B.Bn(q1) && q3 != mu && q3 != q1 && q3.Length == 9 && c < 9 * WORD30
    requires Num(mu[..]) == MU && Num(q1[..]) < TWO264
    requires Estimating(q3[..], d7, d, c, 16, mu[..], q1[..])
    modifies q3
    ensures B.Bn(q3) && 16 * dropped <= TWO264 && rest < TWO264
    ensures MU * Num(q1[..]) - dropped == TWO264 * Num(q3[..]) + rest
  {
    ghost var k, x, s := mu[..], q1[..], q3[..];
    var t := B.AddColumn(mu, q1, 16, c);
    HighTop([d7] + d, k, x, 7, c, t);
    ghost var v := Num(d + [t]) / 0x100_0000;
    EstimateValue(k, x, d7, d, t, v);
    dropped := B.Columns(k, x, 0, 7);
    rest := Num(k) * Num(x) - dropped - TWO264 * v;
    MulLe(MU, Num(x), TWO264);
    TopOfEstimate(d, t, Num(d + [t]), v);
    LastHigh(d, 0x100_0000, 64);
    assert s[7] == s[..8][7];
    ShiftedSnoc(d, t, 0x100_0000, 64);
    ShiftedNum(d + [t], 0x100_0000, 64);
    q3[7] := Joined(q3[7], t, 6);
    q3[8] := t / 0x100_0000;
    assert q3[..] == s[..7] + [q3[7], q3[8]];
    assert q3[..] == Shifted(d + [t], 0x100_0000, 64);
    ShiftedBelow(d, 0x100_0000, 64, s[..7]);
  }

  /** Moved digits are below the base. */
  lemma {:induction false} ShiftedBelow(d: seq<int>, p: nat, q: nat, s: seq<int>)
    requires |d| > 0 && Normalized(d, WORD30) && p > 0 && p * q == WORD30
    requires s == Shifted(d, p, q)[..|d| - 1]
    ensures Normalized(s, WORD30)
  {
    if |d| > 1 {
      ShiftedBelow(d[1..], p, q, Shifted(d[1..], p, q)[..|d| - 2]);
      assert s[1..] == Shifted(d[1..], p, q)[..|d| - 2];
      MovedDigit(d[0], d[1], p, q);
      assert s[0] == d[0] / p + q * (d[1] % p);
      assert forall i :: 1 <= i < |s| ==> s[i] == s[1..][i - 1];
    }
  }

  lemma MovedDigit(x: int, y: int, p: nat, q: nat)
    requires p > 0 && p * q == WORD30 && 0 <= x < WORD30
    ensures 0 <= x / p + q * (y % p) < WORD30
  {
    DivBounds(x, p, q);
    DivBounds(x, p, 0);
    DivMod(y, p);
    MulLe(q, y % p, p - 1);
    Distrib(q, p, 1);
    MulNonNegative(q, y % p);
  }

  // ------------------------------------------------------------ the remainder

  /** r2 = q3 m modulo 2^264, from the columns 0 to 8. */
  method LowProduct(m: array<u32>, q3: array<u32>, r2: array<u32>)
    requires B.Bn(m) && B.Bn(q3) && r2 != m && r2 != q3 && r2.Length == 9
    modifies r2
    ensures B.Bn(r2) && Num(r2[..]) == (Num(m[..]) * Num(q3[..])) % TWO264
  {
    ghost var k, x := m[..], q3[..];
    ValSnoc([], 0, WORD30);
    assert r2[..0] + [0] == [] + [0];
    var c: u64 := 0;
    var i := 0;
    while i < 8
      invariant 0 <= i <= 8 && 0 <= c < 9 * WORD30 && Normalized(r2[..i], WORD30)
      invariant Num(r2[..i] + [c]) == B.Columns(k, x, 0, i)
    {
      ghost var low, before := r2[..i], c;
      var t := B.AddColumn(m, q3, i, c);
      r2[i] := t % WORD30;
      c := t / WORD30;
      B.ColumnDone(low, k, x, before, t);
      assert r2[..i + 1] == low + [t % WORD30];
      i := i + 1;
    }
    ghost var low := r2[..8];
    var t := B.AddColumn(m, q3, 8, c);
    r2[8] := t % 0x100_0000;
    assert r2[..] == low + [t % 0x100_0000];
    LowValue(low, k, x, c, t);
  }

  lemma LowValue(low: seq<int>, k: seq<int>, x: seq<int>, c: int, t: int)
    requires |k| == |x| == 9 && |low| == 8 && Normalized(low, WORD30) && t >= 0
    requires Num(low + [c]) == B.Columns(k, x, 0, 8) && t == c + B.Column(k, x, 8, 0)
    ensures Num(low + [t % 0x100_0000]) == (Num(k) * Num(x)) % TWO264
  {
    var v, p, h := Num(low), Pow(WORD30, 8), High(k, x, 9, 17);
    assert B.Columns(k, x, 0, 9) == v + p * t by {
      ValSnoc(low, c, WORD30);
      Distrib(p, c, B.Column(k, x, 8, 0));
    }
    assert Num(k) * Num(x) == v + p * t + Pow(WORD30, 9) * h by { HighSplit(k, x, 9, 17); B.ColumnsTotal(k, x); }
    assert Num(low + [t % 0x100_0000]) == v + p * (t % 0x100_0000) by { ValSnoc(low, t % 0x100_0000, WORD30); }
    ValBound(low, WORD30);
    PowLiterals();
    LowPart(v, t, h, Num(k) * Num(x));
  }

  lemma LowPart(v: int, t: int, h: int, product: int)
    requires 0 <= v < TWO240 && product == v + TWO240 * t + TWO270 * h
    ensures product % TWO264 == v + TWO240 * (t % 0x100_0000)
  {
    DivMod(t, 0x100_0000);
    DivModUnique(product, t / 0x100_0000 + 64 * h, v + TWO240 * (t % 0x100_0000), TWO264);
  }

  /** lt_modm: (a - b) >> 31 in 32 bits */
  method LessThanLimb(a: u32, b: u32) returns (r: u32)
    requires a < 0x8000_0000 && b < 0x8000_0000
    ensures r == if a < b then 1 else 0
  {
    r := ((a - b) % WORD32) / 0x8000_0000;
  }

  /**
   r = x - y with the borrow out added back as `top` at the last limb; r may be x.  The
   limb is taken modulo 2^30 everywhere else.
   */
  method SubtractLimbs(x: array<u32>, y: array<u32>, r: array<u32>, top: u32) returns (b: u32)
    requires B.Bn(x) && B.Bn(y) && r.Length == 9 && r != y && top <= WORD30 && y[8] < top
    modifies r
    ensures b <= 1 && (forall i :: 0 <= i < 8 ==> r[i] < WORD30) && y[..] == old(y[..])
    ensures r[8] < top || (b == 0 && r[8] <= old(x[8]))
    ensures Num(r[..8] + [(r[8] as int) - b * top]) == old(Num(x[..])) - Num(y[..])
  {
    ghost var xs, ys := x[..], y[..];
    b := 0;
    var i := 0;
    B.ChainStart(xs, ys, -1);
    assert r[..0] + [-(b as int)] == [0];
    while i < 8
      invariant 0 <= i <= 8 && b <= 1 && forall j :: 0 <= j < i ==> r[j] < WORD30
      invariant y[..] == ys && forall j :: i <= j < 9 ==> x[j] == xs[j]
      invariant Num(r[..i] + [-(b as int)]) == Num(xs[..i]) + (-1) * Num(ys[..i])
    {
      ghost var low, c := r[..i], -(b as int);
      var pb: u32 := b + y[i];
      ghost var t := c + x[i] - (y[i] as int);
      B.ChainStep(low, c, xs, ys, -1, t);
      b := LessThanLimb(x[i], pb);
      Borrowed(t, b);
      r[i] := x[i] - pb + b * WORD30;
      assert r[..i + 1] == low + [t % WORD30];
      i := i + 1;
    }
    ghost var low, c := r[..8], -(b as int);
    var pb: u32 := b + y[8];
    b := LessThanLimb(x[8], pb);
    r[8] := x[8] - pb + b * top;
    assert r[..8] == low;
    LastBorrow(low, c, xs, ys, (r[8] as int) - b * top);
  }

  lemma Borrowed(t: int, b: int)
    requires -WORD30 <= t < WORD30 && b == if t < 0 then 1 else 0
    ensures t % WORD30 == t + b * WORD30 && t / WORD30 == -b
  {
    DivModUnique(t, -b, t + b * WORD30, WORD30);
  }

  lemma LastBorrow(low: seq<int>, c: int, x: seq<int>, y: seq<int>, t: int)
    requires |low| == 8 && |x| == |y| == 9 && Num(low + [c]) == Num(x[..8]) + (-1) * Num(y[..8])
    requires t == c + x[8] - y[8]
    ensures Num(low + [t]) == Num(x) - Num(y)
  {
    var w := Pow(WORD30, 8);
    ValSnoc(low, c, WORD30);
    ValSnoc(low, t, WORD30);
    ValPrefix(x, 8, WORD30);
    ValPrefix(y, 8, WORD30);
    assert x[..9] == x && y[..9] == y;
    Distrib(w, c + x[8], y[8]);
    Distrib(w, c, x[8]);
  }

  /** r ^ ((r ^ t) & mask) */
  method Selected(r: u32, t: u32, b: u32) returns (s: u32)
    requires b <= 1
    ensures s == if b == 0 then t else r
  {
    ghost var n := B.Pow2At32();
    XorBelow(r, t, n);
    var x: u32 := Xor(r, t);
    var mask: u32 := (b - 1) % WORD32;
    B.Select(x, 0, b == 0);
    XorTwice(r, t);
    s := Xor(r, And(x, mask));
  }

  /** reduce256_modm: m is subtracted once, unless the number is smaller. */
  method Reduce256(r: array<u32>, m: array<u32>)
    requires B.Bn(r) && r != m && m.Length == 9 && m[..] == MODM_M
    modifies r
    ensures B.Bn(r) && Num(r[..]) == ReduceOnce(old(Num(r[..])))
  {
    ValueOfM(m[..]);
    ghost var x := r[..];
    var t := new u32[9](_ => 0);
    var b := SubtractLimbs(r, m, t, 0x1_0000);
    ghost var y := t[..];
    ReduceDone(x, y, b);
    var i := 0;
    while i < 9
      modifies r
      invariant 0 <= i <= 9 && forall j :: 0 <= j < 9 ==> r[j] == if j < i && b == 0 then y[j] else x[j]
    {
      var s := Selected(r[i], t[i], b);
      r[i] := s;
      i := i + 1;
    }
    assert r[..] == if b == 0 then y else x;
  }

  lemma ReduceDone(x: seq<u32>, t: seq<u32>, b: u32)
    requires |x| == |t| == 9 && Normalized(x, WORD30) && b <= 1 && (forall i :: 0 <= i < 8 ==> t[i] < WORD30)
    requires t[8] < 0x1_0000 || (b == 0 && t[8] <= x[8])
    requires Num(t[..8] + [(t[8] as int) - b * 0x1_0000]) == Num(x) - M
    ensures if b == 0 then Normalized(t, WORD30) && Num(x) >= M && Num(t) == Num(x) - M else Num(x) < M
  {
    var top := (t[8] as int) - b * 0x1_0000;
    ValSnoc(t[..8], top, WORD30);
    ValBound(t[..8], WORD30);
    if b == 0 {
      assert t[..8] + [top] == t;
      MulNonNegative(Pow(WORD30, 8), top);
    } else {
      MulLe(Pow(WORD30, 8), top, -1);
    }
  }

  /** r = (r1 - r2) modulo 2^264; r may be r1. */
  method Difference(r1: array<u32>, r2: array<u32>, r: array<u32>)
    requires B.Bn(r1) && B.Bn(r2) && r.Length == 9 && r != r2 && r1[8] < 0x100_0000 && r2[8] < 0x100_0000
    modifies r
    ensures B.Bn(r) && Num(r[..]) == (old(Num(r1[..])) - Num(r2[..])) % TWO264
  {
    ghost var x, y := r1[..], r2[..];
    var b := SubtractLimbs(r1, r2, r, 0x100_0000);
    DifferenceDone(r[..], b, Num(x) - Num(y));
  }

  lemma DifferenceDone(t: seq<u32>, b: u32, d: int)
    requires |t| == 9 && b <= 1 && t[8] < 0x100_0000 && (forall i :: 0 <= i < 8 ==> t[i] < WORD30)
    requires Num(t[..8] + [(t[8] as int) - b * 0x100_0000]) == d
    ensures Num(t) == d % TWO264
  {
    var low, p := t[..8], Pow(WORD30, 8);
    assert low + [t[8]] == t;
    ValSnoc(low, t[8], WORD30);
    ValSnoc(low, (t[8] as int) - b * 0x100_0000, WORD30);
    ValBound(low, WORD30);
    PowLiterals();
    Distrib(p, t[8], b * 0x100_0000);
    DivModUnique(d, -(b as int), Num(t), TWO264);
  }

  /** The top limb of a number below 2^264. */
  lemma TopBelow264(s: seq<int>)
    requires |s| == 9 && Normalized(s, WORD30) && Num(s) < TWO264
    ensures s[8] < 0x100_0000
  {
    ValPrefix(s, 8, WORD30);
    assert s[..9] == s;
    ValBound(s[..8], WORD30);
    PowLiterals();
  }

  /** r = x - q3 m, for the quotient estimate q3. */
  method Estimated(r: array<u32>, q1: array<u32>, r1: array<u32>, m: array<u32>, mu: array<u32>, ghost x: nat)
    requires B.Bn(q1) && B.Bn(r1) && B.Bn(m) && B.Bn(mu) && r.Length == 9 && r != q1 && r != m && r != mu
    requires Num(m[..]) == M && Num(mu[..]) == MU
    requires Num(q1[..]) == x / TWO248 && Num(r1[..]) == x % TWO264 && Num(q1[..]) < TWO264
    modifies r
    ensures B.Bn(r) && 0 <= Num(r[..]) < 3 * M && Num(r[..]) % M == x % M
  {
    var q3 := new u32[9](_ => 0);
    var r2 := new u32[9](_ => 0);
    ghost var q := Num(q1[..]);
    ghost var dropped, rest := Quotient(mu, q1, q3);
    LowProduct(m, q3, r2);
    ValNonNegative(q3[..], WORD30);
    ghost var q3v: nat := Num(q3[..]);
    BarrettRemainder(x, q, dropped, q3v, rest);
    assert M * q3v == q3v * M;
    CongRange(x, M * q3v);
    TopBelow264(r1[..]);
    TopBelow264(r2[..]);
    Difference(r1, r2, r);
  }

  /**
   barrett_reduce256_modm: x mod m from q1 = floor(x / 2^248) and r1 = x mod 2^264, for
   any x below 2^512; r may be r1.
   */
  method BarrettReduce(r: array<u32>, q1: array<u32>, r1: array<u32>, ghost x: nat)
    requires B.Bn(q1) && B.Bn(r1) && r.Length == 9 && r != q1
    requires Num(q1[..]) == x / TWO248 && Num(r1[..]) == x % TWO264 && Num(q1[..]) < TWO264
    modifies r
    ensures B.Bn(r) && Num(r[..]) == x % M
  {
    var m := Constant(MODM_M);
    var mu := Constant(MODM_MU);
    ValueOfM(m[..]);
    ValueOfMu(mu[..]);
    Estimated(r, q1, r1, m, mu, x);
    ReducedTwice(Num(r[..]));
    Reduce256(r, m);
    Reduce256(r, m);
  }

  lemma CongRange(x: int, y: int)
    ensures 0 <= x % TWO264 < TWO264 && 0 <= y % TWO264 < TWO264
  {}

  // ------------------------------------------------------------ multiplication

  /** (q | (f << 22)) & 0x3fffffff, where q is below 2^22. */
  method Joined22(q: u32, f: u64, ghost n: nat) returns (r: u32)
    requires q < 0x40_0000 && n == 22
    ensures r == q + 0x40_0000 * (f % 0x100)
  {
    Pow2OfTwentyTwo(n);
    OrDisjoint(q, f % 0x100, n);
    r := Or(q, 0x40_0000 * (f % 0x100));
  }

  lemma Pow2OfTwentyTwo(n: nat)
    requires n == 22
    ensures Pow2(n) == 0x40_0000
  {
    Pow2Literals();
    Pow2Add(16, 6);
    assert Pow2(6) == 64;
  }

  /** The product's digits: low below position 8, d from there on, of which q1 is made. */
  ghost predicate Splitting(r1: seq<int>, q1: seq<int>, low: seq<int>, d: seq<int>, c: int, i: nat, k: seq<int>, x: seq<int>) {
    && |low| == 8 && |d| == i - 8 && |d| > 0 && i <= 17 && Normalized(low, WORD30) && Normalized(d, WORD30)
    && Num(low + d + [c]) == B.Columns(k, x, 0, i)
    && |r1| == 9 && r1 == low + [d[0] % 0x100_0000]
    && |q1| == 9 && q1[..i - 8] == Shifted(d, 0x100, 0x40_0000)
  }

  /** Columns 0 to 8: r1, and the beginning of q1. */
  method LowHalf(x: array<u32>, y: array<u32>, r1: array<u32>, q1: array<u32>)
    returns (c: u64, ghost low: seq<int>, ghost d: seq<int>)
    requires B.Bn(x) && B.Bn(y) && r1.Length == q1.Length == 9 && r1 != q1
    requires r1 != x && r1 != y && q1 != x && q1 != y
    modifies r1, q1
    ensures c < 9 * WORD30 && Splitting(r1[..], q1[..], low, d, c, 9, x[..], y[..])
  {
    ghost var k, z := x[..], y[..];
    ValSnoc([], 0, WORD30);
    assert r1[..0] + [0] == [] + [0];
    c := 0;
    var i := 0;
    while i < 8
      invariant 0 <= i <= 8 && 0 <= c < 9 * WORD30 && Normalized(r1[..i], WORD30)
      invariant Num(r1[..i] + [c]) == B.Columns(k, z, 0, i)
    {
      ghost var before, done := c, r1[..i];
      var t := B.AddColumn(x, y, i, c);
      r1[i] := t % WORD30;
      c := t / WORD30;
      B.ColumnDone(done, k, z, before, t);
      assert r1[..i + 1] == done + [t % WORD30];
      i := i + 1;
    }
    low := r1[..8];
    ghost var before := c;
    var t := B.AddColumn(x, y, 8, c);
    B.ColumnDone(low, k, z, before, t);
    var f := t % WORD30;
    r1[8] := f % 0x100_0000;
    q1[0] := f / 0x100;
    c := t / WORD30;
    d := [f];
    assert r1[..] == low + [r1[8]];
    assert q1[..1] == [q1[0]];
    ShiftedSingle(f, 0x100, 0x40_0000);
  }

  method NextHighDigit(x: array<u32>, y: array<u32>, q1: array<u32>, i: nat, c: u64,
                       ghost r1: seq<int>, ghost low: seq<int>, ghost d: seq<int>) returns (c': u64)
    requires B.Bn(x) && B.Bn(y) && q1.Length == 9 && q1 != x && q1 != y && 9 <= i < 17 && c < 9 * WORD30
    requires Splitting(r1, q1[..], low, d, c, i, x[..], y[..])
    modifies q1
    ensures c' < 9 * WORD30
    ensures exists f :: Splitting(r1, q1[..], low, d + [f], c', i + 1, x[..], y[..])
  {
    ghost var s := q1[..];
    var t := B.AddColumn(x, y, i, c);
    LastHigh(d, 0x100, 0x40_0000);
    assert s[i - 9] == s[..i - 8][i - 9];
    ShiftedSnoc(d, t % WORD30, 0x100, 0x40_0000);
    LowBits(t, WORD30, 0x100, 0x40_0000);
    q1[i - 9] := Joined22(q1[i - 9], t, 22);
    q1[i - 8] := (t % WORD30) / 0x100;
    assert q1[..i - 7] == s[..i - 9] + [q1[i - 9], q1[i - 8]];
    B.ColumnDone(low + d, x[..], y[..], c, t);
    assert low + d + [t % WORD30] == low + (d + [t % WORD30]);
    c' := t / WORD30;
    assert Splitting(r1, q1[..], low, d + [t % WORD30], c', i + 1, x[..], y[..]);
  }

  /** The two parts of the product. */
  lemma SplitProduct(r1: seq<int>, q1: seq<int>, low: seq<int>, d: seq<int>, c: nat, k: seq<int>, x: seq<int>, product: nat)
    requires |k| == |x| == 9 && Splitting(r1, q1, low, d, c, 17, k, x)
    requires product == Num(k) * Num(x) && product < 0x40 * TWO248 * TWO256
    ensures Num(r1) == product % TWO264 && Num(q1) == product / TWO248
    ensures Normalized(r1, WORD30) && Normalized(q1, WORD30)
  {
    B.ColumnsTotal(k, x);
    NoTopDigit(low + d, c, product);
    ValConcat(low, d, WORD30);
    PowLiterals();
    ValBound(low, WORD30);
    ValSnoc(low, d[0] % 0x100_0000, WORD30);
    ShiftedNum(d, 0x100, 0x40_0000);
    assert q1[..9] == q1;
    ShiftedBelow(d, 0x100, 0x40_0000, q1[..8]);
    LastHigh(d, 0x100, 0x40_0000);
    assert forall i :: 0 <= i < 8 ==> q1[i] == q1[..8][i];
    FirstDigit(d, 0x100_0000, 64);
    HalvesOf(Num(low), Num(d), product);
  }

  lemma NoTopDigit(low: seq<int>, c: nat, v: int)
    requires |low| == 17 && Normalized(low, WORD30) && Num(low + [c]) == v < 0x40 * TWO248 * TWO256
    ensures Num(low) == v
  {
    ValSnoc(low, c, WORD30);
    ValBound(low, WORD30);
    PowLiterals();
    PowAdd(WORD30, 8, 9);
    DivModUnique(v, c, Num(low), Pow(WORD30, 17));
    DivBounds(v, Pow(WORD30, 17), 1);
  }

  lemma HalvesOf(l: int, d: int, product: int)
    requires 0 <= l < TWO240 && product == l + TWO240 * d
    ensures product % TWO264 == l + TWO240 * (d % 0x100_0000)
    ensures product / TWO248 == d / 0x100
  {
    DivMod(d, 0x100_0000);
    DivModUnique(product, d / 0x100_0000, l + TWO240 * (d % 0x100_0000), TWO264);
    DivMod(d, 0x100);
    DivModUnique(product, d / 0x100, l + TWO240 * (d % 0x100), TWO248);
  }

  /** mul256_modm: the product modulo m of factors below 2^255; r may be a factor. */
  method Mul256(r: array<u32>, x: array<u32>, y: array<u32>)
    requires B.Bn(x) && B.Bn(y) && r.Length == 9 && Num(x[..]) < TWO256 / 2 && Num(y[..]) < TWO256 / 2
    modifies r
    ensures B.Bn(r) && Num(r[..]) == (old(Num(x[..])) * old(Num(y[..]))) % M
  {
    var r1 := new u32[9](_ => 0);
    var q1 := new u32[9](_ => 0);
    ghost var k, z := x[..], y[..];
    ValNonNegative(k, WORD30);
    ValNonNegative(z, WORD30);
    MulNonNegative(Num(k), Num(z));
    ghost var product: nat := Num(k) * Num(z);
    ProductBelow(Num(k), Num(z));
    Halves(x, y, r1, q1, product);
    QuotientFits(product);
    BarrettReduce(r, q1, r1, product);
  }

  lemma ProductBelow(a: nat, b: nat)
    requires a < TWO256 / 2 && b < TWO256 / 2
    ensures a * b < 0x40 * TWO248 * TWO256
  {
    MulLe2(a, b, TWO256 / 2 - 1, TWO256 / 2 - 1);
  }

  lemma QuotientFits(product: nat)
    requires product < 0x40 * TWO248 * TWO256
    ensures product / TWO248 < TWO264
  {}

  /** r1 and q1 of a product. */
  method Halves(x: array<u32>, y: array<u32>, r1: array<u32>, q1: array<u32>, ghost product: nat)
    requires B.Bn(x) && B.Bn(y) && r1.Length == q1.Length == 9 && r1 != q1
    requires r1 != x && r1 != y && q1 != x && q1 != y
    requires product == Num(x[..]) * Num(y[..]) < 0x40 * TWO248 * TWO256
    modifies r1, q1
    ensures B.Bn(r1) && B.Bn(q1) && Num(r1[..]) == product % TWO264 && Num(q1[..]) == product / TWO248
  {
    ghost var k, z := x[..], y[..];
    var c: u64;
    ghost var low, d;
    c, low, d := LowHalf(x, y, r1, q1);
    var i := 9;
    while i < 17
      invariant 9 <= i <= 17 && 0 <= c < 9 * WORD30 && Splitting(r1[..], q1[..], low, d, c, i, k, z)
    {
      c := NextHighDigit(x, y, q1, i, c, r1[..], low, d);
      ghost var f :| Splitting(r1[..], q1[..], low, d + [f], c, i + 1, k, z);
      d := d + [f];
      i := i + 1;
    }
    SplitProduct(r1[..], q1[..], low, d, c, k, z, product);
  }

  // ------------------------------------------------------------ subtraction

  /** The limbs below i hold x + 2p - y, z being x + 2p, and c is carried. */
  ghost predicate Differing(r: seq<u32>, i: nat, c: int, z: seq<int>, y: seq<u32>) {
    && |r| == |z| == |y| == 9 && i <= 8 && 0 <= c <= 3 && (forall j :: 0 <= j < i ==> r[j] < WORD30)
    && Num(r[..i] + [c]) == Num(z[..i]) + (-1) * Num(y[..i])
  }

  lemma DifferStep(r: seq<u32>, i: nat, c: int, z: seq<int>, y: seq<u32>, digit: u32, c': int, r': seq<u32>)
    requires Differing(r, i, c, z, y) && i < 8 && 0 <= c' <= 3
    requires var t := c + z[i] + (-1) * (y[i] as int); digit == t % WORD30 && c' == t / WORD30
    requires r' == r[i := digit]
    ensures Differing(r', i + 1, c', z, y)
  {
    var t := c + z[i] + (-1) * (y[i] as int);
    B.ChainStep(r[..i], c, z, y, -1, t);
    assert r'[..i + 1] == r[..i] + [t % WORD30];
    DivMod(t, WORD30);
  }

  /** x + 2p - y, limb by limb; the limbs of twoP keep every step from going below 0. */
  method SubtractFromTwoP(r: array<u32>, x: array<u32>, y: array<u32>, twoP: array<u32>)
    requires B.Bn(x) && B.Bn(y) && r.Length == 9 && r != twoP && LargeLimbs(twoP[..])
    requires Num(x[..]) < M && Num(y[..]) < M
    modifies r
    ensures B.Bn(r) && Num(r[..]) == M + old(Num(x[..])) - old(Num(y[..]))
  {
    ghost var xs, ys, ps := x[..], y[..], twoP[..];
    ghost var z := seq(9, k requires 0 <= k < 9 => ps[k] + xs[k]);
    ValAdd(ps, xs, z, WORD30);
    var c: u32 := 0;
    var i := 0;
    B.ChainStart(z, ys, -1);
    assert r[..0] + [c] == [0];
    while i < 8
      invariant 0 <= i <= 8 && twoP[..] == ps && Differing(r[..], i, c, z, ys)
      invariant forall j :: i <= j < 9 ==> x[j] == xs[j] && y[j] == ys[j]
    {
      ghost var before, c0 := r[..], c;
      assert twoP[i] == ps[i] && x[i] == xs[i] && y[i] == ys[i];
      var digit: u32;
      digit, c := LimbDifference(c, twoP[i], x[i], y[i]);
      r[i] := digit;
      DifferStep(before, i, c0, z, ys, digit, c, r[..]);
      i := i + 1;
    }
    ghost var low := r[..8];
    LastOfTwoP(low, c, z, ys, xs);
    assert twoP[8] == ps[8];
    r[8] := c + (twoP[8] + x[8]) - y[8];
    assert r[..] == low + [r[8]];
  }

  /** One limb of x + 2p - y. */
  method LimbDifference(c: u32, p: u32, x: u32, y: u32) returns (digit: u32, c': u32)
    requires c <= 3 && WORD30 - 1 <= p < 0x7FFF_FFFF && x < WORD30 && y < WORD30
    ensures var t := c + (p + x) + (-1) * (y as int); digit == t % WORD30 && c' == t / WORD30
    ensures digit < WORD30 && c' <= 3
  {
    var t: u32 := c + (p + x - y);
    digit, c' := t % WORD30, t / WORD30;
  }

  /** m with limbs that a normalized limb can be taken from. */
  ghost predicate LargeLimbs(p: seq<u32>) {
    |p| == 9 && Num(p) == M && p[8] <= 0x1000 && forall i :: 0 <= i < 8 ==> WORD30 - 1 <= p[i] < 0x7FFF_FFFF
  }

  lemma LimbsOfTwoP(p: seq<u32>)
    requires p == TWO_P
    ensures LargeLimbs(p)
  {
    ValueOfTwoP(p);
  }

  /** The last limb: the whole number is not negative, so this limb is not. */
  lemma LastOfTwoP(low: seq<int>, c: u32, z: seq<int>, y: seq<u32>, x: seq<u32>)
    requires |low| == 8 && |z| == |y| == |x| == 9 && Normalized(low, WORD30) && c <= 3
    requires Normalized(x, WORD30) && Normalized(y, WORD30) && x[8] <= z[8] <= 0x1000 + x[8]
    requires Num(low + [c]) == Num(z[..8]) + (-1) * Num(y[..8]) && Num(z) == M + Num(x) && Num(x) < M && Num(y) < M
    ensures 0 <= c + z[8] - y[8] < WORD30 && Num(low + [c + z[8] - y[8]]) == Num(z) - Num(y)
  {
    var t := c + z[8] - (y[8] as int);
    LastBorrow(low, c, z, y, t);
    ValSnoc(low, t, WORD30);
    ValBound(low, WORD30);
    ValNonNegative(x, WORD30);
    ValNonNegative(y, WORD30);
    PowLiterals();
    SmallTop(Pow(WORD30, 8), Num(low), t, Num(z) - Num(y));
  }

  lemma SmallTop(p: int, v: int, t: int, total: int)
    requires p == TWO240 && total == v + p * t && 0 <= v < p && 0 < total < 2 * M
    ensures 0 <= t < WORD30
  {
    if t <= -1 { MulLe(p, t, -1); }
    if t >= WORD30 { MulLe(p, WORD30, t); }
  }

  /** sub256_modm: the difference modulo m of reduced numbers; r may be one of them. */
  method Sub256(r: array<u32>, x: array<u32>, y: array<u32>)
    requires B.Bn(x) && B.Bn(y) && r.Length == 9 && Num(x[..]) < M && Num(y[..]) < M
    modifies r
    ensures B.Bn(r) && Num(r[..]) == (old(Num(x[..])) - old(Num(y[..]))) % M
  {
    var twoP := Constant(TWO_P);
    LimbsOfTwoP(twoP[..]);
    var m := Constant(MODM_M);
    ghost var a, b := Num(x[..]), Num(y[..]);
    ValNonNegative(x[..], WORD30);
    ValNonNegative(y[..], WORD30);
    SubtractFromTwoP(r, x, y, twoP);
    Reduce256(r, m);
    DifferenceModulo(a, b);
  }

  lemma DifferenceModulo(a: int, b: int)
    requires 0 <= a < M && 0 <= b < M
    ensures ReduceOnce(M + a - b) == (a - b) % M
  {
    DivModUnique(a - b, if a >= b then 0 else -1, if a >= b then a - b else a - b + M, M);
  }
}
