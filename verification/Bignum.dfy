/**
 The 256-bit bignum engine: nine 30-bit limbs in a uint32_t array, updated in place.

 Every variable of type u32 or u64 is assigned only values that fit it, so each method
 is also a proof that none of its 32- and 64-bit steps wraps or underflows.
 */
module Bignum {
  import opened Words
  import opened Limbs
  import opened Arith
  import opened BignumSpec

  const LIMBS := 9

  /** A normalized bignum256: nine limbs below 2^30. */
  ghost predicate Bn(a: array<u32>)
    reads a
  {
    a.Length == LIMBS && Normalized(a[..], WORD30)
  }

  /** The prime (or group order) passed to a routine. */
  ghost predicate Prime(p: array<u32>)
    reads p
  {
    Bn(p) && InRange(Num(p[..]))
  }

  /** One limb of x - coef p: the digit t mod 2^30 is stored, the rest is carried. */
  lemma SubMulStep(low: seq<int>, c: int, x: seq<int>, p: seq<int>, coef: int, t: int)
    requires |low| < |x| && |low| < |p|
    requires Num(low + [c]) == Num(x[..|low|]) - coef * Num(p[..|low|])
    requires t == c + x[|low|] - p[|low|] * coef
    ensures Num(low + [t % WORD30] + [t / WORD30]) == Num(x[..|low| + 1]) - coef * Num(p[..|low| + 1])
  {
    var j := |low|;
    var w := Pow(WORD30, j);
    ValPrefix(x, j, WORD30);
    ValPrefix(p, j, WORD30);
    CarryStep(low, c, t, WORD30);
    Distrib(w, x[j], p[j] * coef);
    Assoc(w, p[j], coef);
    Distrib(coef, Num(p[..j]), w * p[j]);
  }

  lemma SubMulStart(x: seq<int>, p: seq<int>, coef: int, t: int)
    requires |x| > 0 && |p| > 0 && t == x[0] - p[0] * coef
    ensures Num([t % WORD30] + [t / WORD30]) == Num(x[..1]) - coef * Num(p[..1])
  {
    assert x[..0] == [] && p[..0] == [];
    ValSnoc([], 0, WORD30);
    SubMulStep([], 0, x, p, coef, t);
    assert [] + [t % WORD30] == [t % WORD30];
  }

  /** A 64-bit accumulator is kept 2^61 above the signed value it stands for. */
  lemma Biased(t: int)
    ensures (t + 0x2000_0000_0000_0000) % WORD30 == t % WORD30
    ensures (t + 0x2000_0000_0000_0000) / WORD30 == t / WORD30 + 0x8000_0000
  {}

  lemma CoefBound(p: int, coef: int)
    requires 0 <= p < WORD30 && 0 <= coef < 0x8000_0000
    ensures 0 <= p * coef <= (WORD30 - 1) * 0x7FFF_FFFF
  {
    MulLe2(p, coef, WORD30 - 1, 0x7FFF_FFFF);
    MulNonNegative(p, coef);
  }

  /** A number that fits has no carry out. */
  lemma CarryOut(low: seq<int>, c: int, r: int)
    requires Normalized(low, WORD30) && 0 <= r < Pow(WORD30, |low|) && Num(low + [c]) == r
    ensures c == 0 && Num(low) == r
  {
    ValSnoc(low, c, WORD30);
    ValBound(low, WORD30);
    SplitUnique(Num(low), c, r, 0, Pow(WORD30, |low|));
  }

  /**
   The nine-limb loop of bn_fast_mod and bn_multiply_reduce_step: subtract coef times the
   prime from a[o..o+9], leaving a borrow that is kept 2^31 above its signed value.
   */
  method SubtractMultiple(a: array<u32>, o: nat, prime: array<u32>, coef: u32) returns (temp: u64)
    requires o + 9 <= a.Length && Prime(prime) && a != prime && coef < 0x8000_0000
    modifies a
    ensures forall k :: o <= k < o + 9 ==> a[k] < WORD30
    ensures forall k :: 0 <= k < o || o + 9 <= k < a.Length ==> a[k] == old(a[k])
    ensures temp / WORD30 <= 0x1_0000_0000
    ensures Num(a[o..o + 9] + [temp / WORD30 - 0x8000_0000]) == old(Num(a[o..o + 9])) - coef * Num(prime[..])
  {
    ghost var x0, p := a[o..o + 9], prime[..];
    CoefBound(prime[0], coef);
    temp := 0x2000_0000_0000_0000 + a[o] - prime[0] * (coef as u64);
    Biased(temp - 0x2000_0000_0000_0000);
    SubMulStart(x0, p, coef, temp - 0x2000_0000_0000_0000);
    a[o] := temp % WORD30;
    assert a[o..o + 1] == [temp % WORD30];
    var j := 1;
    while j < 9
      invariant 1 <= j <= 9
      invariant forall k :: o <= k < o + j ==> a[k] < WORD30
      invariant forall k :: 0 <= k < o || o + j <= k < a.Length ==> a[k] == old(a[k])
      invariant temp < 0x4000_0000_0000_0000
      invariant Num(a[o..o + j] + [temp / WORD30 - 0x8000_0000]) == Num(x0[..j]) - coef * Num(p[..j])
    {
      ghost var low, c := a[o..o + j], temp / WORD30 - 0x8000_0000;
      temp := temp / WORD30;
      CoefBound(prime[j], coef);
      temp := temp + (0x1FFF_FFFF_8000_0000 + a[o + j] - prime[j] * (coef as u64));
      Biased(temp - 0x2000_0000_0000_0000);
      SubMulStep(low, c, x0, p, coef, temp - 0x2000_0000_0000_0000);
      a[o + j] := temp % WORD30;
      assert a[o..o + j + 1] == low + [temp % WORD30];
      j := j + 1;
    }
    assert x0[..9] == x0 && p[..9] == p;
  }

  /** x := x - floor(x[8] / 2^16) p; x may hold any nine 32-bit limbs. */
  method FastModInPlace(x: array<u32>, prime: array<u32>)
    requires x.Length == LIMBS && Prime(prime) && x != prime
    modifies x
    ensures Bn(x)
    ensures Num(x[..]) == FastMod(Num(old(x[..])), old(x[8]), Num(prime[..]))
  {
    ghost var x0, p := x[..], Num(prime[..]);
    var coef: u32 := x[8] / 0x1_0000;
    assert x[0..9] == x[..];
    var temp := SubtractMultiple(x, 0, prime, coef);
    assert x[0..9] == x[..];
    FastModRange(x0, p);
    PowLiterals();
    CarryOut(x[..], temp / WORD30 - 0x8000_0000, FastMod(Num(x0), x0[8], p));
  }

  // ------------------------------------------------------------ multiplication

  /** The column sum of the schoolbook product: sum of k[t] x[i - t] over t >= j. */
  ghost function Column(k: seq<int>, x: seq<int>, i: int, j: nat): int
    decreases |k| - j
  {
    if j >= |k| then 0
    else (if 0 <= i - j < |x| then k[j] * x[i - j] else 0) + Column(k, x, i, j + 1)
  }

  /** The columns 0..n-1, carried into place. */
  ghost function Columns(k: seq<int>, x: seq<int>, j: nat, n: nat): int {
    if n == 0 then 0
    else Columns(k, x, j, n - 1) + Pow(WORD30, n - 1) * Column(k, x, n - 1, j)
  }

  /** Row j of the product contributes k[j] 2^(30 j) x. */
  lemma {:induction false} ColumnsRow(k: seq<int>, x: seq<int>, j: nat, n: nat)
    requires j < |k|
    ensures Columns(k, x, j, n) ==
            Columns(k, x, j + 1, n) +
            (if n <= j then 0 else k[j] * (Pow(WORD30, j) * Num(x[..if n - j <= |x| then n - j else |x|])))
    decreases n
  {
    if n > 0 {
      ColumnsRow(k, x, j, n - 1);
      var w := Pow(WORD30, n - 1);
      var rest := Column(k, x, n - 1, j + 1);
      var t := n - 1 - j;
      if 0 <= t < |x| {
        Distrib(w, k[j] * x[t], rest);
        PowAdd(WORD30, j, t);
        ValPrefix(x, t, WORD30);
        var a, b := Pow(WORD30, j), Pow(WORD30, t);
        calc {
          k[j] * (a * Num(x[..t + 1]));
          { Distrib(a, Num(x[..t]), b * x[t]); Assoc(a, b, x[t]); }
          k[j] * (a * Num(x[..t]) + w * x[t]);
          { Distrib(k[j], a * Num(x[..t]), w * x[t]); }
          k[j] * (a * Num(x[..t])) + k[j] * (w * x[t]);
          { Assoc(k[j], w, x[t]); Assoc(w, k[j], x[t]); }
          k[j] * (a * Num(x[..t])) + w * (k[j] * x[t]);
        }
        if t == 0 { assert Num(x[..0]) == 0; }
      }
    }
  }

  lemma {:induction false} ColumnsProduct(k: seq<int>, x: seq<int>, j: nat, n: nat)
    requires j <= |k| && n >= |k| + |x|
    ensures Columns(k, x, j, n) == Pow(WORD30, j) * (Num(k[j..]) * Num(x))
    decreases |k| - j
  {
    if j == |k| {
      ColumnsEmpty(k, x, n);
    } else {
      ColumnsRow(k, x, j, n);
      ColumnsProduct(k, x, j + 1, n);
      assert x[..|x|] == x && k[j..][1..] == k[j + 1..];
      var w, r, v := Pow(WORD30, j), Num(k[j + 1..]), Num(x);
      RowSum(k[j], w, r, v);
    }
  }

  lemma RowSum(d: int, w: int, r: int, v: int)
    ensures d * (w * v) + (WORD30 * w) * (r * v) == w * ((d + WORD30 * r) * v)
  {
    Assoc(d, w, v);
    Assoc(w, d, v);
    Assoc(w, WORD30, r * v);
    Assoc(WORD30, r, v);
    Distrib(w, d * v, (WORD30 * r) * v);
    Distrib(v, d, WORD30 * r);
  }

  lemma {:induction false} ColumnsEmpty(k: seq<int>, x: seq<int>, n: nat)
    ensures Columns(k, x, |k|, n) == 0
  {
    if n > 0 { ColumnsEmpty(k, x, n - 1); }
  }

  /** Terms whose x index is past the end do not contribute to a column. */
  lemma {:induction false} ColumnSkip(k: seq<int>, x: seq<int>, i: nat, j: nat)
    requires j <= |k| && (j == 0 || i - (j - 1) >= |x|)
    ensures Column(k, x, i, 0) == Column(k, x, i, j)
    decreases j
  {
    if j > 0 { ColumnSkip(k, x, i, j - 1); }
  }

  lemma {:induction false} ColumnPast(k: seq<int>, x: seq<int>, i: nat, j: nat)
    requires i < j <= |k|
    ensures Column(k, x, i, j) == 0
    decreases |k| - j
  {
    if j < |k| { ColumnPast(k, x, i, j + 1); }
  }

  /** A finished column: its low 30 bits are stored, the rest is carried. */
  lemma ColumnDone(low: seq<int>, k: seq<int>, x: seq<int>, c: int, t: int)
    requires Num(low + [c]) == Columns(k, x, 0, |low|)
    requires t == c + Column(k, x, |low|, 0)
    ensures Num(low + [t % WORD30] + [t / WORD30]) == Columns(k, x, 0, |low| + 1)
  {
    var w := Pow(WORD30, |low|);
    ValSnoc(low, c, WORD30);
    ValSnoc(low, t % WORD30, WORD30);
    ValSnoc(low + [t % WORD30], t / WORD30, WORD30);
    DivMod(t, WORD30);
    Distrib(w, t % WORD30, WORD30 * (t / WORD30));
    Assoc(w, WORD30, t / WORD30);
    Distrib(w, c, Column(k, x, |low|, 0));
  }

  /** The inner loops: add the products k[j] x[i - j] of one column to the carry. */
  method AddColumn(k: array<u32>, x: array<u32>, i: nat, carry: u64) returns (temp: u64)
    requires Bn(k) && Bn(x) && i < 17 && carry < 9 * WORD30
    ensures temp == carry + Column(k[..], x[..], i, 0)
    ensures temp / WORD30 < 9 * WORD30
  {
    ghost var ks, xs := k[..], x[..];
    var j, end := if i < 9 then 0 else i - 8, if i < 9 then i + 1 else 9;
    temp := carry;
    ghost var terms := 0;
    ColumnSkip(ks, xs, i, j);
    while j < end
      invariant j <= end && terms + end - j <= 9
      invariant 0 <= temp <= 9 * WORD30 + terms * 0x0FFF_FFFF_8000_0001
      invariant temp + Column(ks, xs, i, j) == carry + Column(ks, xs, i, 0)
      decreases end - j
    {
      ColumnTerm(ks, xs, i, j);
      temp := temp + k[j] * (x[i - j] as u64);
      terms := terms + 1;
      j := j + 1;
    }
    if i < 9 { ColumnPast(ks, xs, i, j); }
  }

  lemma ColumnTerm(k: seq<int>, x: seq<int>, i: nat, j: nat)
    requires |k| == |x| == 9 && Normalized(k, WORD30) && Normalized(x, WORD30)
    requires 0 <= i - j < 9 && j < 9
    ensures Column(k, x, i, j) == k[j] * x[i - j] + Column(k, x, i, j + 1)
    ensures 0 <= k[j] * x[i - j] <= 0x0FFF_FFFF_8000_0001
  {
    MulLe2(k[j], x[i - j], WORD30 - 1, WORD30 - 1);
    MulNonNegative(k[j], x[i - j]);
  }

  /** res := k x as eighteen limbs. */
  method MultiplyLong(k: array<u32>, x: array<u32>, res: array<u32>)
    requires Bn(k) && Bn(x) && res.Length == 18 && res != k && res != x
    modifies res
    ensures Normalized(res[..], WORD30)
    ensures Num(res[..]) == Num(k[..]) * Num(x[..])
  {
    ghost var ks, xs := k[..], x[..];
    var i := 0;
    var temp: u64 := 0;
    ValSnoc([], 0, WORD30);
    assert res[..0] + [temp] == [] + [0];
    while i < 17
      invariant 0 <= i <= 17 && temp < 9 * WORD30
      invariant Normalized(res[..i], WORD30) && ks == k[..] && xs == x[..]
      invariant Num(res[..i] + [temp]) == Columns(ks, xs, 0, i)
    {
      ghost var c, low := temp, res[..i];
      temp := AddColumn(k, x, i, temp);
      res[i] := temp % WORD30;
      ColumnDone(low, ks, xs, c, temp);
      assert res[..i + 1] == low + [temp % WORD30];
      temp := temp / WORD30;
      i := i + 1;
    }
    ProductTop(res[..17], ks, xs, temp);
    ghost var low := res[..17];
    res[17] := temp;
    assert res[..] == low + [temp];
  }

  lemma ColumnsTotal(k: seq<int>, x: seq<int>)
    requires |k| == |x| == 9
    ensures Columns(k, x, 0, 17) == Num(k) * Num(x)
  {
    ColumnSkip(k, x, 17, 9);
    assert Columns(k, x, 0, 18) == Columns(k, x, 0, 17);
    ColumnsProduct(k, x, 0, 18);
    assert k[0..] == k;
  }

  lemma ProductBound(k: seq<int>, x: seq<int>)
    requires Normalized(k, WORD30) && Normalized(x, WORD30) && |k| == |x| == 9
    ensures 0 <= Num(k) * Num(x) < Pow(WORD30, 17) * WORD30
  {
    ValBound(k, WORD30);
    ValBound(x, WORD30);
    PowAdd(WORD30, 9, 9);
    PowLiterals();
    assert Pow(WORD30, 18) == WORD30 * Pow(WORD30, 17);
    MulLt(TWO270, Num(x), TWO270);
    MulLe(Num(x), Num(k), TWO270);
    MulNonNegative(Num(k), Num(x));
  }

  lemma ProductTop(low: seq<int>, k: seq<int>, x: seq<int>, top: nat)
    requires |low| == 17 && Normalized(low, WORD30)
    requires Normalized(k, WORD30) && Normalized(x, WORD30) && |k| == |x| == 9
    requires Num(low + [top]) == Columns(k, x, 0, 17)
    ensures top < WORD30 && Normalized(low + [top], WORD30)
    ensures Num(low + [top]) == Num(k) * Num(x)
  {
    ColumnsTotal(k, x);
    ProductBound(k, x);
    TopDigit(low, top, WORD30);
  }

  /** If the number fits |low| + 1 digits, so does its top digit. */
  lemma TopDigit(low: seq<int>, top: int, b: nat)
    requires b > 0 && Normalized(low, b)
    requires 0 <= Val(low + [top], b) < Pow(b, |low|) * b
    ensures 0 <= top < b
  {
    ValSnoc(low, top, b);
    ValBound(low, b);
    var w := Pow(b, |low|);
    if top >= b { MulLe(w, b, top); assert false; }
    if top < 0 { MulLe(w, top, -1); assert false; }
  }

  /**
   Subtract floor(res / 2^(30 (i - 8) + 256)) 2^(30 (i - 8)) p from res, which takes res
   from below 2^(30 (i - 7)) 2p to below 2^(30 (i - 8)) 2p.
   */
  method MultiplyReduceStep(res: array<u32>, prime: array<u32>, i: nat)
    requires res.Length == 18 && Normalized(res[..], WORD30) && Prime(prime) && res != prime
    requires 8 <= i <= 16
    requires Num(res[..]) < Pow(WORD30, i - 8) * (WORD30 * (2 * Num(prime[..])))
    modifies res
    ensures Normalized(res[..], WORD30)
    ensures Num(res[..]) == ReduceStep(Num(old(res[..])), Num(prime[..]), Pow(WORD30, i - 8))
    ensures res[i + 1] == 0
  {
    ghost var r0, o, p := res[..], i - 8, prime[..];
    TopLimbs(r0, i, Num(p));
    var coef: u32 := res[i] / 0x1_0000 + res[i + 1] * 0x4000;
    var temp := SubtractMultiple(res, i - 8, prime, coef);
    ghost var low, c := res[o..o + 9], temp / WORD30 - 0x8000_0000;
    temp := temp / WORD30;
    temp := temp + (0x1FFF_FFFF_8000_0000 + (res[i + 1] as u64));
    res[i + 1] := temp % WORD30;
    Biased(temp - 0x2000_0000_0000_0000);
    ReduceStepDone(r0, o, p, coef, low, c, temp - 0x2000_0000_0000_0000);
    ghost var r1 := Splice(r0, o, low + [temp % WORD30]);
    assert res[..] == r1;
  }

  /** The limbs above i + 1 are zero and limb i + 1 is small; coef is the quotient. */
  lemma TopLimbs(r: seq<int>, i: nat, p: nat)
    requires |r| == 18 && Normalized(r, WORD30) && 8 <= i <= 16 && InRange(p)
    requires Num(r) < Pow(WORD30, i - 8) * (WORD30 * (2 * p))
    ensures r[i + 1] < 0x2_0000
    ensures r[i] / 0x1_0000 + r[i + 1] * 0x4000 < 0x8000_0000
    ensures r[i] / 0x1_0000 + r[i + 1] * 0x4000 == Num(r) / (Pow(WORD30, i - 8) * TWO256)
    ensures forall k :: i + 2 <= k < 18 ==> r[k] == 0
  {
    var q := Pow(WORD30, i - 8);
    ValNonNegative(r, WORD30);
    ReduceStepRange(Num(r), p, q);
    PowAdd(WORD30, i - 8, 10);
    PowAdd(WORD30, i - 8, 8);
    PowLiterals();
    MulLe(q, WORD30 * (2 * p), WORD30 * TWO270);
    HighDigitsZero(r, i + 2, WORD30);
    // r = low + 2^(30 i) (r[i] + 2^30 r[i + 1])
    ValTrailingZeros(r, i + 2, WORD30);
    ValPrefix(r, i, WORD30);
    ValPrefix(r, i + 1, WORD30);
    ValBound(r[..i], WORD30);
    QuotientOfTop(Num(r), Num(r[..i]), r[i], r[i + 1], q);
  }

  lemma QuotientOfTop(v: int, low: int, a: int, b: int, q: nat)
    requires q > 0 && 0 <= low < q * TWO240
    requires v == low + (q * TWO240) * a + (WORD30 * (q * TWO240)) * b
    ensures v / (q * TWO256) == a / 0x1_0000 + b * 0x4000
  {
    var m := q * TWO240;
    Assoc(WORD30, m, b);
    Assoc(m, WORD30, b);
    Distrib(m, a, WORD30 * b);
    DivModUnique(v, a + WORD30 * b, low, m);
    DivDiv(v, m, 0x1_0000);
  }

  /** The number with the ten limbs from o on replaced by s. */
  function Splice(r: seq<int>, o: nat, s: seq<int>): seq<int>
    requires |r| == 18 && o <= 8 && |s| == 10
  {
    r[..o] + s + r[o + 10..]
  }

  lemma SpliceNum(r: seq<int>, o: nat, s: seq<int>)
    requires |r| == 18 && o <= 8 && |s| == 10
    requires forall k :: o + 10 <= k < 18 ==> r[k] == 0
    ensures Num(Splice(r, o, s)) == Num(r[..o]) + Pow(WORD30, o) * Num(s)
  {
    var r' := Splice(r, o, s);
    ValTrailingZeros(r', o + 10, WORD30);
    assert r'[..o + 10] == r[..o] + s;
    ValConcat(r[..o], s, WORD30);
  }

  lemma SpliceNormalized(r: seq<int>, o: nat, s: seq<int>)
    requires |r| == 18 && o <= 8 && |s| == 10 && Normalized(r, WORD30) && Normalized(s, WORD30)
    ensures Normalized(Splice(r, o, s), WORD30)
  {}

  lemma ReduceStepDone(r: seq<int>, o: nat, p: seq<int>, coef: int, low: seq<int>, c: int, t: int)
    requires |r| == 18 && Normalized(r, WORD30) && o <= 8 && |p| == |low| == 9
    requires InRange(Num(p)) && Normalized(low, WORD30)
    requires Num(r) < Pow(WORD30, o) * (WORD30 * (2 * Num(p)))
    requires coef == Num(r) / (Pow(WORD30, o) * TWO256)
    requires forall k :: o + 10 <= k < 18 ==> r[k] == 0
    requires Num(low + [c]) == Num(r[o..o + 9]) - coef * Num(p) && t == c + r[o + 9]
    ensures t % WORD30 == 0
    ensures Normalized(Splice(r, o, low + [t % WORD30]), WORD30)
    ensures Num(Splice(r, o, low + [t % WORD30])) == ReduceStep(Num(r), Num(p), Pow(WORD30, o))
  {
    var q, w := Pow(WORD30, o), r[o..o + 10];
    ValNonNegative(r, WORD30);
    ValBound(r[..o], WORD30);
    assert r == Splice(r, o, w);
    SpliceNum(r, o, w);
    StepValue(Num(r), Num(r[..o]), Num(w), q, coef, Num(p));
    assert w[..9] == r[o..o + 9];
    StepDigits(w, low, c, t, Num(w) - coef * Num(p), coef * Num(p));
    SpliceNum(r, o, low + [t % WORD30]);
    SpliceNormalized(r, o, low + [t % WORD30]);
  }

  lemma StepDigits(w: seq<int>, low: seq<int>, c: int, t: int, v: int, m: int)
    requires |w| == 10 && |low| == 9 && Normalized(low, WORD30)
    requires Num(low + [c]) == Num(w[..9]) - m && t == c + w[9]
    requires v == Num(w) - m && 0 <= v < 2 * TWO256
    ensures t % WORD30 == 0 && Num(low + [t % WORD30]) == v
  {
    CarryStep(low, c, t, WORD30);
    ValPrefix(w, 9, WORD30);
    assert w[..10] == w;
    TopDigitZero(low, t, v);
  }

  lemma StepValue(v: int, low: int, w: int, q: nat, coef: int, p: int)
    requires q > 0 && InRange(p) && 0 <= low < q && v == low + q * w
    requires 0 <= v < q * (WORD30 * (2 * p)) && coef == v / (q * TWO256)
    ensures 0 <= w - coef * p < 2 * p
    ensures ReduceStep(v, p, q) == low + q * (w - coef * p)
  {
    ReduceStepRange(v, p, q);
    Distrib(q, w, coef * p);
    Assoc(coef, q, p);
    Assoc(q, coef, p);
    var u := w - coef * p;
    if u < 0 { MulLe(q, u, -1); assert false; }
    if u >= 2 * p { MulLe(q, 2 * p, u); assert false; }
  }

  lemma TopDigitZero(low: seq<int>, t: int, v: int)
    requires |low| == 9 && Normalized(low, WORD30) && 0 <= v < 2 * TWO256
    requires Num(low + [t % WORD30] + [t / WORD30]) == v
    ensures t % WORD30 == 0 && Num(low + [t % WORD30]) == v
  {
    PowLiterals();
    CarryOut(low + [t % WORD30], t / WORD30, v);
    HighDigitsZero(low + [t % WORD30], 9, WORD30);
    assert (low + [t % WORD30])[9] == t % WORD30;
  }

  /** x := res mod p, partly reduced; res < 2^270 2p. */
  method MultiplyReduce(x: array<u32>, res: array<u32>, prime: array<u32>)
    requires x.Length == LIMBS && res.Length == 18 && Normalized(res[..], WORD30) && Prime(prime)
    requires x != res && x != prime && res != prime
    requires 0 <= Num(res[..]) < Pow(WORD30, 8) * (WORD30 * (2 * Num(prime[..])))
    modifies x, res
    ensures Bn(x)
    ensures Num(x[..]) == Reduce(Num(old(res[..])), Num(prime[..]), 8)
  {
    ghost var v, p := Num(res[..]), Num(prime[..]);
    ReduceRange(v, p, 8);
    var i := 16;
    while i >= 8
      invariant 7 <= i <= 16 && Normalized(res[..], WORD30) && Prime(prime) && Num(prime[..]) == p
      invariant i >= 8 ==> Num(res[..]) < Pow(WORD30, i - 8) * (WORD30 * (2 * p))
      invariant i >= 8 ==> Reduce(v, p, 8) == Reduce(Num(res[..]), p, i - 8)
      invariant i == 7 ==> Num(res[..]) == Reduce(v, p, 8)
    {
      ghost var r := Num(res[..]);
      ValNonNegative(res[..], WORD30);
      ReduceStepRange(r, p, Pow(WORD30, i - 8));
      MultiplyReduceStep(res, prime, i);
      if i > 8 {
        assert Pow(WORD30, i - 8) * (2 * p) == Pow(WORD30, i - 9) * (WORD30 * (2 * p)) by {
          Assoc(WORD30, Pow(WORD30, i - 9), 2 * p);
          Assoc(Pow(WORD30, i - 9), WORD30, 2 * p);
        }
      }
      i := i - 1;
    }
    // the value is below 2p, so nine limbs hold it
    PowLiterals();
    HighDigitsZero(res[..], 9, WORD30);
    i := 0;
    while i < 9
      invariant 0 <= i <= 9 && x[..i] == res[..i] && Normalized(res[..], WORD30)
      invariant Num(res[..]) == Reduce(v, p, 8) && forall k :: 9 <= k < 18 ==> res[k] == 0
    {
      x[i] := res[i];
      i := i + 1;
    }
    ghost var r := res[..];
    ValSplit(r, 9, WORD30);
    ValZeros(r[9..], WORD30);
    assert x[..] == r[..9];
  }

  /** x := k x modulo prime; k may be x itself. */
  method Multiply(k: array<u32>, x: array<u32>, prime: array<u32>)
    requires Bn(k) && Bn(x) && Prime(prime) && x != prime
    requires Num(k[..]) < 180 * Num(prime[..]) && Num(x[..]) < 180 * Num(prime[..])
    modifies x
    ensures Bn(x)
    ensures Num(x[..]) == Mul(old(Num(k[..])), old(Num(x[..])), Num(prime[..]))
  {
    ValBound(k[..], WORD30);
    ValBound(x[..], WORD30);
    ProductRange(Num(k[..]), Num(x[..]), Num(prime[..]));
    var res := new u32[18](_ => 0);
    MultiplyLong(k, x, res);
    MultiplyReduce(x, res, prime);
  }

  // ------------------------------------------------------- comparison and selection

  method IsZero(a: array<u32>) returns (r: bool)
    requires Bn(a)
    ensures r <==> Num(a[..]) == 0
  {
    var result := 0;
    var i := 0;
    while i < 9
      invariant 0 <= i <= 9 && 0 <= result
      invariant result == 0 <==> forall k :: 0 <= k < i ==> a[k] == 0
    {
      OrZero(result, a[i]);
      result := Or(result, a[i]);
      i := i + 1;
    }
    if result == 0 { ValZeros(a[..], WORD30); } else if Num(a[..]) == 0 { ZeroValue(a[..], WORD30); }
    return result == 0;
  }

  method IsEqual(a: array<u32>, b: array<u32>) returns (r: bool)
    requires Bn(a) && Bn(b)
    ensures r <==> Num(a[..]) == Num(b[..])
  {
    var result := 0;
    var i := 0;
    while i < 9
      invariant 0 <= i <= 9 && 0 <= result
      invariant result == 0 <==> a[..i] == b[..i]
    {
      XorZero(a[i], b[i]);
      OrZero(result, Xor(a[i], b[i]));
      result := Or(result, Xor(a[i], b[i]));
      i := i + 1;
    }
    if result == 0 { assert a[..] == a[..9] == b[..9] == b[..]; }
    if Num(a[..]) == Num(b[..]) { ValInjective(a[..], b[..], WORD30); assert a[..9] == a[..] == b[..9]; }
    return result == 0;
  }

  const POWERS: seq<nat> := [1, 2, 4, 8, 16, 32, 64, 128, 256, 512]

  /** Two bit strings of limb comparisons, read as numbers, order like the numbers compared. */
  method IsLess(a: array<u32>, b: array<u32>) returns (r: bool)
    requires Bn(a) && Bn(b)
    ensures r <==> Num(a[..]) < Num(b[..])
  {
    var res1: u32, res2: u32 := 0, 0;
    var i := 8;
    while i >= 0
      invariant -1 <= i <= 8 && 0 <= res1 < POWERS[8 - i] && 0 <= res2 < POWERS[8 - i]
      invariant res1 > res2 <==> Num(a[i + 1..]) < Num(b[i + 1..])
      invariant res1 < res2 <==> Num(a[i + 1..]) > Num(b[i + 1..])
    {
      CompareLimb(a[..], b[..], i);
      assert a[..][i..] == a[i..] && a[..][i + 1..] == a[i + 1..];
      assert b[..][i..] == b[i..] && b[..][i + 1..] == b[i + 1..];
      res1 := 2 * res1 + (if a[i] < b[i] then 1 else 0);
      res2 := 2 * res2 + (if a[i] > b[i] then 1 else 0);
      i := i - 1;
    }
    assert a[0..] == a[..] && b[0..] == b[..];
    return res1 > res2;
  }

  /** The lower limb decides only if the upper parts agree. */
  lemma CompareLimb(a: seq<int>, b: seq<int>, i: nat)
    requires i < |a| == |b| && Normalized(a, WORD30) && Normalized(b, WORD30)
    ensures var (x, y) := (Num(a[i + 1..]), Num(b[i + 1..]));
      && (Num(a[i..]) < Num(b[i..]) <==> x < y || (x == y && a[i] < b[i]))
      && (Num(a[i..]) > Num(b[i..]) <==> x > y || (x == y && a[i] > b[i]))
  {
    assert a[i..][1..] == a[i + 1..] && b[i..][1..] == b[i + 1..];
  }

  function Mask(cond: bool): u32 {
    if cond then 0xFFFF_FFFF else 0
  }

  lemma AndAll(x: u32)
    ensures And(x, 0xFFFF_FFFF) == x
  {
    var n := Pow2At32();
    AndMask(x, n);
  }

  lemma Pow2At32() returns (n: nat)
    ensures Pow2(n) == WORD32
  {
    Pow2Literals();
    n := 32;
  }

  lemma Select(x: u32, y: u32, cond: bool)
    ensures Or(And(x, Mask(cond)), And(y, Mask(!cond))) == if cond then x else y
    ensures And(x, Mask(cond)) == if cond then x else 0
  {
    if cond { AndAll(x); } else { AndAll(y); }
  }

  /** res := cond ? t : f */
  method CMov(res: array<u32>, cond: bool, t: array<u32>, f: array<u32>)
    requires Bn(t) && Bn(f) && res.Length == LIMBS
    modifies res
    ensures res[..] == if cond then old(t[..]) else old(f[..])
  {
    var tmask, fmask := Mask(cond), Mask(!cond);
    var i := 0;
    while i < 9
      invariant 0 <= i <= 9
      invariant forall k :: 0 <= k < i ==> res[k] == if cond then old(t[k]) else old(f[k])
      invariant forall k :: i <= k < 9 ==> res[k] == old(res[k]) && t[k] == old(t[k]) && f[k] == old(f[k])
    {
      Select(t[i], f[i], cond);
      res[i] := Or(And(t[i], tmask), And(f[i], fmask));
      i := i + 1;
    }
  }

  // ------------------------------------------------------- addition and subtraction

  /**
   a := a + b.  A limb of a may have wrapped: the limbs stand for the integers x, which
   agree with a modulo 2^32 and are not negative once b is added.
   */
  method Add(a: array<u32>, b: array<u32>, ghost x: seq<int>)
    requires a.Length == b.Length == |x| == LIMBS && a != b
    requires forall i :: 0 <= i < 9 ==> a[i] == x[i] % WORD32 && 0 <= x[i] + b[i] < WORD32 - 3
    requires 0 <= Num(x) + Num(b[..]) < TWO270
    modifies a
    ensures Bn(a) && Num(a[..]) == Num(x) + Num(b[..])
  {
    ghost var y := b[..];
    var tmp: u32 := 0;
    var i := 0;
    ChainStart(x, y, 1);
    assert a[..0] + [tmp] == [0];
    while i < 9
      invariant 0 <= i <= 9 && tmp <= 3
      invariant forall k :: 0 <= k < i ==> a[k] < WORD30
      invariant forall k :: i <= k < 9 ==> a[k] == x[k] % WORD32
      invariant Num(a[..i] + [tmp]) == Num(x[..i]) + 1 * Num(y[..i])
    {
      ghost var low, t := a[..i], tmp + x[i] + y[i];
      ChainStep(low, tmp, x, y, 1, t);
      WrapBack(tmp, x[i], y[i]);
      tmp := (tmp + a[i] + b[i]) % WORD32;
      assert tmp == t;
      a[i] := tmp % WORD30;
      assert a[..i + 1] == low + [t % WORD30];
      tmp := tmp / WORD30;
      i := i + 1;
    }
    PowLiterals();
    assert x[..9] == x && y[..9] == y && a[..9] == a[..];
    CarryOut(a[..], tmp, Num(x) + Num(y));
  }

  lemma WrapBack(tmp: int, x: int, y: int)
    requires 0 <= tmp <= 3 && 0 <= x + y < WORD32 - 3
    ensures (tmp + x % WORD32 + y) % WORD32 == tmp + x + y
  {}

  lemma ChainStart(x: seq<int>, y: seq<int>, s: int)
    ensures Num([0]) == Num(x[..0]) + s * Num(y[..0])
  {
    ValSnoc([], 0, WORD30);
    assert [] + [0] == [0];
    assert Num(x[..0]) == 0 && Num(y[..0]) == 0;
  }

  /** One limb of x + s y. */
  lemma ChainStep(low: seq<int>, c: int, x: seq<int>, y: seq<int>, s: int, t: int)
    requires |low| < |x| && |low| < |y|
    requires Num(low + [c]) == Num(x[..|low|]) + s * Num(y[..|low|])
    requires t == c + x[|low|] + s * y[|low|]
    ensures Num(low + [t % WORD30] + [t / WORD30]) == Num(x[..|low| + 1]) + s * Num(y[..|low| + 1])
  {
    var j := |low|;
    var w := Pow(WORD30, j);
    ValPrefix(x, j, WORD30);
    ValPrefix(y, j, WORD30);
    CarryStep(low, c, t, WORD30);
    Distrib(w, x[j], s * y[j]);
    Assoc(w, s, y[j]);
    Assoc(s, w, y[j]);
    Distrib(s, Num(y[..j]), w * y[j]);
  }

  /** a := a + b for a small b; bn_normalize is b = 0. */
  method AddI(a: array<u32>, b: u32)
    requires a.Length == LIMBS && b + a[0] < WORD32 && forall i :: 0 <= i < 9 ==> a[i] + 3 < WORD32
    requires Num(a[..]) + b < TWO270
    modifies a
    ensures Bn(a) && Num(a[..]) == old(Num(a[..])) + b
  {
    ghost var x := a[..];
    var tmp: u32 := b;
    var i := 0;
    ValSnoc([], tmp, WORD30);
    assert a[..0] + [tmp] == [] + [tmp];
    while i < 9
      invariant 0 <= i <= 9 && (if i == 0 then tmp == b else tmp <= 3)
      invariant forall k :: 0 <= k < i ==> a[k] < WORD30
      invariant forall k :: i <= k < 9 ==> a[k] == x[k]
      invariant Num(a[..i] + [tmp]) == Num(x[..i]) + b
    {
      ghost var low, c := a[..i], tmp;
      ValPrefix(x, i, WORD30);
      tmp := tmp + a[i];
      CarryStep(low, c, tmp, WORD30);
      a[i] := tmp % WORD30;
      assert a[..i + 1] == low + [tmp % WORD30];
      tmp := tmp / WORD30;
      i := i + 1;
    }
    PowLiterals();
    ValNonNegative(x, WORD30);
    assert x[..9] == x && a[..9] == a[..];
    CarryOut(a[..], tmp, Num(x) + b);
  }

  /** res := a - b mod 2^270; res may be a or b. */
  method Subtract(a: array<u32>, b: array<u32>, res: array<u32>)
    requires Bn(a) && Bn(b) && res.Length == LIMBS
    modifies res
    ensures Bn(res)
    ensures var d := old(Num(a[..])) - old(Num(b[..])); Num(res[..]) == if d >= 0 then d else d + TWO270
  {
    ghost var x, y := a[..], b[..];
    var tmp: u32 := 1;
    var i := 0;
    ChainStart(x, y, -1);
    assert res[..0] + [tmp - 1] == [0];
    while i < 9
      invariant 0 <= i <= 9 && tmp <= 1
      invariant forall k :: 0 <= k < i ==> res[k] < WORD30
      invariant forall k :: i <= k < 9 ==> a[k] == x[k] && b[k] == y[k]
      invariant Num(res[..i] + [tmp - 1]) == Num(x[..i]) + (-1) * Num(y[..i])
    {
      ghost var low, c := res[..i], tmp - 1;
      tmp := tmp + (0x3FFF_FFFF + a[i] - b[i]);
      ChainStep(low, c, x, y, -1, tmp - WORD30);
      res[i] := tmp % WORD30;
      assert res[..i + 1] == low + [(tmp - WORD30) % WORD30];
      tmp := tmp / WORD30;
      i := i + 1;
    }
    assert x[..9] == x && y[..9] == y && res[..9] == res[..];
    BorrowOut(x, y, res[..], tmp - 1);
  }

  lemma BorrowOut(x: seq<int>, y: seq<int>, r: seq<int>, c: int)
    requires |x| == |y| == |r| == 9 && Normalized(x, WORD30) && Normalized(y, WORD30) && Normalized(r, WORD30)
    requires Num(r + [c]) == Num(x) + (-1) * Num(y) && -1 <= c <= 0
    ensures var d := Num(x) - Num(y); Num(r) == if d >= 0 then d else d + TWO270
  {
    PowLiterals();
    ValSnoc(r, c, WORD30);
    ValBound(x, WORD30);
    ValBound(y, WORD30);
    ValBound(r, WORD30);
  }

  /** x := x mod p for a partly reduced x. */
  method ModInPlace(x: array<u32>, prime: array<u32>)
    requires Bn(x) && Bn(prime) && x != prime
    modifies x
    ensures Bn(x) && Num(x[..]) == Mod(old(Num(x[..])), Num(prime[..]))
  {
    var flag := IsLess(x, prime);
    var temp := new u32[9](_ => 0);
    Subtract(x, prime, temp);
    CMov(x, flag, x, temp);
  }

  /** res := a + 2p - b; res may be a or b. */
  method SubtractMod(a: array<u32>, b: array<u32>, res: array<u32>, prime: array<u32>)
    requires Bn(a) && Bn(b) && Bn(prime) && res.Length == LIMBS && res != prime
    requires 0 <= SubMod(Num(a[..]), Num(b[..]), Num(prime[..])) < TWO270
    modifies res
    ensures Bn(res) && Num(res[..]) == SubMod(old(Num(a[..])), old(Num(b[..])), Num(prime[..]))
  {
    ghost var x, y, p := a[..], b[..], prime[..];
    ghost var z := seq(9, k requires 0 <= k < 9 => x[k] + 2 * p[k]);
    var temp: u32 := 1;
    var i := 0;
    ChainStart(z, y, -1);
    assert res[..0] + [temp - 1] == [0];
    while i < 9
      invariant 0 <= i <= 9 && temp <= 3 && prime[..] == p
      invariant forall k :: 0 <= k < i ==> res[k] < WORD30
      invariant forall k :: i <= k < 9 ==> a[k] == x[k] && b[k] == y[k]
      invariant Num(res[..i] + [temp - 1]) == Num(z[..i]) + (-1) * Num(y[..i])
    {
      ghost var low, c := res[..i], temp - 1;
      temp := temp + (0x3FFF_FFFF + a[i] + 2 * prime[i] - b[i]);
      ChainStep(low, c, z, y, -1, temp - WORD30);
      res[i] := temp % WORD30;
      assert res[..i + 1] == low + [(temp - WORD30) % WORD30];
      temp := temp / WORD30;
      i := i + 1;
    }
    assert z[..9] == z && y[..9] == y && res[..9] == res[..];
    SubModDone(res[..], temp - 1, z, x, p, y);
  }

  lemma SubModDone(r: seq<int>, c: int, z: seq<int>, x: seq<int>, p: seq<int>, y: seq<int>)
    requires |r| == |z| == |x| == |p| == |y| == 9 && Normalized(r, WORD30)
    requires forall k :: 0 <= k < 9 ==> z[k] == x[k] + 2 * p[k]
    requires Num(r + [c]) == Num(z) + (-1) * Num(y)
    requires 0 <= SubMod(Num(x), Num(y), Num(p)) < TWO270
    ensures Num(r) == SubMod(Num(x), Num(y), Num(p))
  {
    ValScale(p, 2, Doubled(p), WORD30);
    ValAdd(x, Doubled(p), z, WORD30);
    PowLiterals();
    CarryOut(r, c, Num(z) - Num(y));
  }

  /** The top limb of a normalized number. */
  lemma TopLimb(s: seq<int>)
    requires |s| == 9 && Normalized(s, WORD30)
    ensures s[8] == Num(s) / TWO240 && 0 <= Num(s) < TWO270
  {
    PowLiterals();
    ValBound(s, WORD30);
    ValPrefix(s, 8, WORD30);
    ValBound(s[..8], WORD30);
    assert s[..9] == s;
  }

  /** a := a + b mod p, partly reduced. */
  method AddModInPlace(a: array<u32>, b: array<u32>, prime: array<u32>)
    requires Bn(a) && Bn(b) && Prime(prime) && a != prime
    modifies a
    ensures Bn(a) && Num(a[..]) == AddMod(old(Num(a[..])), old(Num(b[..])), Num(prime[..]))
  {
    ghost var x, y := a[..], b[..];
    var i := 0;
    while i < 9
      invariant 0 <= i <= 9 && Prime(prime) && prime[..] == old(prime[..])
      invariant forall k :: 0 <= k < i ==> a[k] == x[k] + y[k]
      invariant forall k :: i <= k < 9 ==> a[k] == x[k] && b[k] == y[k]
    {
      a[i] := a[i] + b[i];
      i := i + 1;
    }
    ValAdd(x, y, a[..], WORD30);
    TopLimb(x);
    TopLimb(y);
    FastModInPlace(a, prime);
  }

  /** x := k x mod p, partly reduced, for k <= 4. */
  method MultKInPlace(x: array<u32>, k: u32, prime: array<u32>)
    requires Bn(x) && Prime(prime) && x != prime && k <= 4
    modifies x
    ensures Bn(x) && Num(x[..]) == MultK(old(Num(x[..])), k, Num(prime[..]))
  {
    ghost var x0 := x[..];
    var j := 0;
    while j < 9
      invariant 0 <= j <= 9 && Prime(prime) && prime[..] == old(prime[..])
      invariant forall t :: 0 <= t < j ==> x[t] == k * x0[t]
      invariant forall t :: j <= t < 9 ==> x[t] == x0[t]
    {
      MulLe2(k, x[j], 4, WORD30 - 1);
      MulNonNegative(k, x[j]);
      x[j] := k * x[j];
      j := j + 1;
    }
    ValScale(x0, k, x[..], WORD30);
    TopLimb(x0);
    FastModInPlace(x, prime);
  }

  /** x := x - b mod p, as x + p - b; the first limb may wrap until the prime is added. */
  method SubIInPlace(x: array<u32>, b: u32, prime: array<u32>)
    requires Bn(x) && Bn(prime) && x != prime && b <= prime[0]
    requires Num(x[..]) + Num(prime[..]) < TWO270
    modifies x
    ensures Bn(x) && Num(x[..]) == SubI(old(Num(x[..])), b, Num(prime[..]))
  {
    ghost var x0: seq<int> := x[..];
    ghost var x1 := x0[0 := x0[0] - b];
    x[0] := (x[0] - b) % WORD32;
    SubIRange(x0, x1, prime[..], b);
    Add(x, prime, x1);
  }

  lemma SubIRange(x: seq<int>, x1: seq<int>, y: seq<int>, b: int)
    requires |x| == |y| == 9 && Normalized(x, WORD30) && Normalized(y, WORD30)
    requires 0 <= b <= y[0] && x1 == x[0 := x[0] - b]
    ensures Num(x1) == Num(x) - b && 0 <= Num(x1) + Num(y)
  {
    assert x1[1..] == x[1..];
    ValNonNegative(x, WORD30);
    ValNonNegative(y[1..], WORD30);
  }

  /** x := x / 2 mod p, by adding the prime first if x is odd. */
  method MultHalfInPlace(x: array<u32>, prime: array<u32>)
    requires Bn(x) && Bn(prime) && x != prime && prime[0] % 2 == 1
    modifies x
    ensures Bn(x) && Num(x[..]) == MultHalf(old(Num(x[..])), Num(prime[..]))
  {
    ghost var x0, y := x[..], prime[..];
    var xodd := Mask(x[0] % 2 == 1);
    ghost var z := seq(9, k requires 0 <= k < 9 => x0[k] + And(y[k], xodd));
    Select(prime[0], 0, x[0] % 2 == 1);
    var tmp1: u32 := (x[0] + And(prime[0], xodd)) / 2;
    var j := 0;
    HalfStart(z, tmp1);
    assert x[..0] + [tmp1] == [tmp1];
    while j < 8
      invariant 0 <= j <= 8 && prime[..] == y && tmp1 <= WORD30
      invariant forall k :: 0 <= k < j ==> x[k] < WORD30
      invariant forall k :: j <= k < 9 ==> x[k] == x0[k]
      invariant 2 * Num(x[..j] + [tmp1]) == Num(z[..j + 1])
    {
      ghost var low, c := x[..j], tmp1;
      Select(prime[j + 1], 0, x0[0] % 2 == 1);
      var tmp2: u32 := x[j + 1] + And(prime[j + 1], xodd);
      tmp1 := tmp1 + (tmp2 % 2) * 0x2000_0000;
      ghost var t := tmp1;
      x[j] := tmp1 % WORD30;
      assert x[..j + 1] == low + [tmp1 % WORD30];
      tmp1 := tmp1 / WORD30;
      tmp1 := tmp1 + tmp2 / 2;
      HalfStep(low, c, t, z, tmp1);
      j := j + 1;
    }
    assert z[..9] == z;
    HalfDone(x[..8], tmp1, x0, y, z);
    x[8] := tmp1;
    assert x[..] == x[..8] + [tmp1];
  }

  lemma HalfStart(z: seq<int>, t: int)
    requires |z| > 0 && z[0] == 2 * t
    ensures 2 * Num([t]) == Num(z[..1])
  {
    ValSnoc([], t, WORD30);
    ValPrefix(z, 0, WORD30);
    assert [] + [t] == [t] && z[..0] == [];
  }

  lemma HalfStep(low: seq<int>, c: int, t: int, z: seq<int>, next: int)
    requires |low| + 1 < |z| && 2 * Num(low + [c]) == Num(z[..|low| + 1])
    requires t == c + (z[|low| + 1] % 2) * 0x2000_0000
    requires next == t / WORD30 + z[|low| + 1] / 2
    ensures 2 * Num(low + [t % WORD30] + [next]) == Num(z[..|low| + 2])
  {
    var j := |low|;
    var w := Pow(WORD30, j);
    var d := z[j + 1];
    CarryStep(low, c, t, WORD30);
    ValSnoc(low + [t % WORD30], t / WORD30, WORD30);
    ValSnoc(low + [t % WORD30], next, WORD30);
    Distrib(WORD30 * w, t / WORD30, d / 2);
    ValPrefix(z, j + 1, WORD30);
    HalfDigit(w, d);
  }

  lemma HalfDigit(w: int, d: int)
    ensures 2 * (w * ((d % 2) * 0x2000_0000)) + 2 * ((WORD30 * w) * (d / 2)) == (WORD30 * w) * d
  {
    Distrib(WORD30 * w, 2 * (d / 2), d % 2);
    Assoc(w, d % 2, 0x2000_0000);
    assert (WORD30 * w) * (d % 2) == WORD30 * (w * (d % 2));
    assert (WORD30 * w) * (2 * (d / 2)) == 2 * ((WORD30 * w) * (d / 2));
  }

  lemma HalfDone(low: seq<int>, t: int, x: seq<int>, y: seq<int>, z: seq<int>)
    requires |low| == 8 && |x| == |y| == |z| == 9
    requires Normalized(low, WORD30) && Normalized(x, WORD30) && Normalized(y, WORD30)
    requires y[0] % 2 == 1
    requires forall k :: 0 <= k < 9 ==> z[k] == x[k] + And(y[k], Mask(x[0] % 2 == 1))
    requires 2 * Num(low + [t]) == Num(z)
    ensures 0 <= t < WORD30
    ensures Num(low + [t]) == MultHalf(Num(x), Num(y))
  {
    MaskedSum(x, y, z, x[0] % 2 == 1);
    ParityOfLimb(x);
    ParityOfLimb(y);
    TopLimb(x);
    TopLimb(y);
    PowLiterals();
    TopDigit(low, t, WORD30);
  }

  lemma MaskedSum(x: seq<int>, y: seq<int>, z: seq<int>, odd: bool)
    requires |x| == |y| == |z| == 9 && Normalized(y, WORD30)
    requires forall k :: 0 <= k < 9 ==> z[k] == x[k] + And(y[k], Mask(odd))
    ensures Num(z) == Num(x) + (if odd then Num(y) else 0)
  {
    forall k | 0 <= k < 9 ensures z[k] == x[k] + (if odd then y[k] else 0) { Select(y[k], 0, odd); }
    if odd { ValAdd(x, y, z, WORD30); } else { assert z == x; }
  }

  lemma ParityOfLimb(x: seq<int>)
    requires |x| > 0
    ensures Num(x) % 2 == x[0] % 2
  {
    assert Num(x) == x[0] + WORD30 * Num(x[1..]);
  }

  /** x := 2 x mod 2^270 */
  method LShift(a: array<u32>)
    requires Bn(a) && 2 * Num(a[..]) < TWO270
    modifies a
    ensures Bn(a) && Num(a[..]) == 2 * old(Num(a[..]))
  {
    ghost var x := a[..];
    ghost var t := Shifted(x);
    var i := 8;
    while i > 0
      invariant 0 <= i <= 8
      invariant a[..] == x[..i + 1] + t[i + 1..]
    {
      assert a[i] == a[..][i] && a[i - 1] == a[..][i - 1];
      ShiftedLimb(a[i], a[i - 1]);
      ghost var before: seq<int> := a[..];
      a[i] := Or((2 * a[i]) % WORD30, And(a[i - 1], 0x2000_0000) / 0x2000_0000);
      assert a[..] == before[i := t[i]];
      i := i - 1;
    }
    assert a[0] == a[..][0];
    ghost var before: seq<int> := a[..];
    a[0] := (2 * a[0]) % WORD30;
    assert a[..] == before[0 := t[0]] == t;
    ShiftedTotal(x);
  }

  lemma ShiftedTotal(x: seq<int>)
    requires |x| == 9 && Normalized(x, WORD30) && 2 * Num(x) < TWO270
    ensures Num(Shifted(x)) == 2 * Num(x)
  {
    var t := Shifted(x);
    ShiftedNum(x, 9);
    TopLimb(x);
    ValSnoc(t, 0, WORD30);
    assert t[..9] == t && x[..9] == x;
  }

  function Shifted(x: seq<int>): (t: seq<int>)
    requires |x| == 9 && Normalized(x, WORD30)
    ensures |t| == 9 && Normalized(t, WORD30)
  {
    seq(9, k requires 0 <= k < 9 =>
      (2 * x[k]) % WORD30 + (if k == 0 then 0 else x[k - 1] / 0x2000_0000))
  }

  lemma AndBit29(y: u32)
    requires y < WORD30
    ensures And(y, 0x2000_0000) / 0x2000_0000 == y / 0x2000_0000
  {
    // y splits into its low 29 bits and bit 29
    Pow2Literals();
    assert Pow2(29) == 0x2000_0000;
    AndHighBit(y, 29);
  }

  lemma {:induction false} AndHighBit(x: nat, n: nat)
    requires x < 2 * Pow2(n)
    ensures And(x, Pow2(n)) == if x >= Pow2(n) then Pow2(n) else 0
    decreases n
  {
    if n > 0 && x > 0 { AndHighBit(x / 2, n - 1); }
  }

  lemma ShiftedLimb(x: u32, y: u32)
    requires x < WORD30 && y < WORD30
    ensures Or((2 * x) % WORD30, And(y, 0x2000_0000) / 0x2000_0000) == (2 * x) % WORD30 + y / 0x2000_0000
    ensures (2 * x) % WORD30 + y / 0x2000_0000 < WORD30
  {
    AndBit29(y);
    OrDisjoint(y / 0x2000_0000, ((2 * x) % WORD30) / 2, 1);
    assert Pow2(1) == 2;
  }

  lemma {:induction false} ShiftedNum(x: seq<int>, n: nat)
    requires |x| == 9 && Normalized(x, WORD30) && 0 < n <= 9
    ensures Num(Shifted(x)[..n] + [x[n - 1] / 0x2000_0000]) == 2 * Num(x[..n])
    decreases n
  {
    var a := Shifted(x);
    var j := n - 1;
    var c := if j == 0 then 0 else x[j - 1] / 0x2000_0000;
    if j == 0 {
      ChainStart(x, x, 1);
      assert a[..0] + [c] == [0];
    } else {
      ShiftedNum(x, j);
    }
    ValPrefix(x, j, WORD30);
    ShiftedDigit(x[j], c);
    CarryStep(a[..j], c, c + 2 * x[j], WORD30);
    assert a[..n] == a[..j] + [a[j]];
    Assoc(Pow(WORD30, j), 2, x[j]);
    Assoc(2, Pow(WORD30, j), x[j]);
  }

  lemma ShiftedDigit(x: int, c: int)
    requires 0 <= x < WORD30 && 0 <= c <= 1
    ensures (c + 2 * x) % WORD30 == (2 * x) % WORD30 + c
    ensures (c + 2 * x) / WORD30 == x / 0x2000_0000
  {}

  /** a := 2p - a if cond, otherwise a; the top limb keeps what fits 30 bits. */
  method ConditionalNegate(cond: bool, a: array<u32>, prime: array<u32>)
    requires Bn(a) && Bn(prime) && a != prime
    requires 0 <= Num(a[..]) <= 2 * Num(prime[..]) < TWO270
    modifies a
    ensures Bn(a)
    ensures Num(a[..]) == if cond then 2 * Num(prime[..]) - old(Num(a[..])) else old(Num(a[..]))
  {
    ghost var x, z := a[..], Doubled(prime[..]);
    ghost var r: seq<int> := [];
    var tmp: u32 := 1;
    var j := 0;
    ChainStart(z, x, -1);
    assert r + [tmp - 1] == [0];
    while j < 9
      invariant 0 <= j <= 9 && |r| == j && tmp <= 3
      invariant Normalized(r, WORD30)
      invariant a[..] == if cond then r + x[j..] else x
      invariant Num(r + [tmp - 1]) == Num(z[..j]) + (-1) * Num(x[..j])
    {
      assert a[j] == a[..][j] == x[j];
      ghost var c := tmp - 1;
      tmp := tmp + (0x3FFF_FFFF + 2 * prime[j] - a[j]);
      NegateStep(r, c, z, x, tmp);
      Select(tmp % WORD30, a[j], cond);
      ghost var before: seq<int> := a[..];
      a[j] := Or(And(tmp % WORD30, Mask(cond)), And(a[j], Mask(!cond)));
      assert a[..] == before[j := if cond then tmp % WORD30 else x[j]];
      r := r + [tmp % WORD30];
      tmp := tmp / WORD30;
      j := j + 1;
    }
    assert z[..9] == z && x[..9] == x && r + x[9..] == r;
    NegateDone(r, tmp - 1, x, prime[..]);
  }

  function Doubled(p: seq<int>): seq<int>
    requires |p| == 9
  {
    seq(9, k requires 0 <= k < 9 => 2 * p[k])
  }

  lemma NegateStep(r: seq<int>, c: int, z: seq<int>, x: seq<int>, t: int)
    requires |r| < |z| == |x| && Num(r + [c]) == Num(z[..|r|]) + (-1) * Num(x[..|r|])
    requires t == c + WORD30 + z[|r|] - x[|r|]
    ensures Num(r + [t % WORD30] + [t / WORD30 - 1]) == Num(z[..|r| + 1]) + (-1) * Num(x[..|r| + 1])
  {
    ChainStep(r, c, z, x, -1, t - WORD30);
    assert (t - WORD30) % WORD30 == t % WORD30 && (t - WORD30) / WORD30 == t / WORD30 - 1;
  }

  lemma NegateDone(r: seq<int>, c: int, x: seq<int>, p: seq<int>)
    requires |r| == |x| == |p| == 9 && Normalized(r, WORD30)
    requires Num(r + [c]) == Num(Doubled(p)) + (-1) * Num(x) && 0 <= Num(x) <= 2 * Num(p) < TWO270
    ensures Num(r) == 2 * Num(p) - Num(x)
  {
    ValScale(p, 2, Doubled(p), WORD30);
    PowLiterals();
    CarryOut(r, c, 2 * Num(p) - Num(x));
  }
}
