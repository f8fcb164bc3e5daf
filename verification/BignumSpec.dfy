/**
 What the 256-bit bignum engine computes, as functions of the numbers its limb arrays
 stand for: nine digits in base 2^30.  The limb methods of `Bignum` are proved to
 compute exactly these functions; here are the ranges and congruences they promise.
 */
module BignumSpec {
  import opened Words
  import opened Limbs
  import opened Arith
  import opened Modular

  const TWO224: nat := 0x1_00000000_00000000_00000000_00000000_00000000_00000000_00000000
  const TWO240: nat := 0x1_0000_00000000_00000000_00000000_00000000_00000000_00000000_00000000
  const TWO256: nat := 0x1_00000000_00000000_00000000_00000000_00000000_00000000_00000000_00000000
  const TWO270: nat := 0x4000 * TWO256

  /** The number that limbs in base 2^30 represent. */
  function Num(s: seq<int>): int {
    Val(s, WORD30)
  }

  /** The modulus range every routine assumes: 2^256 - 2^224 < p < 2^256. */
  predicate InRange(p: int) {
    TWO256 - TWO224 < p < TWO256
  }

  lemma PowLiterals()
    ensures Pow(WORD30, 0) == 1 && Pow(WORD30, 1) == WORD30
    ensures Pow(WORD30, 8) == TWO240 && Pow(WORD30, 9) == TWO270
    ensures Pow(WORD30, 10) == WORD30 * TWO270
  {
    assert Pow(WORD30, 2) == WORD30 * WORD30;
    assert Pow(WORD30, 4) == 0x1_00000000_00000000_00000000_000000;
    assert Pow(WORD30, 6) == WORD30 * WORD30 * Pow(WORD30, 4);
    assert Pow(WORD30, 8) == WORD30 * WORD30 * Pow(WORD30, 6);
  }

  /** bn_fast_mod on a number whose top limb is `top`. */
  function FastMod(v: int, top: int, p: int): int {
    v - (top / 0x1_0000) * p
  }

  /** bn_fast_mod on a normalized number. */
  function FastModN(v: int, p: int): int {
    FastMod(v, v / TWO240, p)
  }

  /** One step of the reduction: subtract floor(v / (q 2^256)) q p, q = 2^(30 (i - 8)). */
  function ReduceStep(v: int, p: int, q: nat): int
    requires q > 0
  {
    v - (v / (q * TWO256)) * (q * p)
  }

  function Reduce(v: int, p: int, n: nat): int
    decreases n
  {
    var q := Pow(WORD30, n);
    var r := ReduceStep(v, p, q);
    if n == 0 then r else Reduce(r, p, n - 1)
  }

  /** bn_multiply */
  function Mul(k: int, x: int, p: int): int {
    Reduce(k * x, p, 8)
  }

  /** bn_mod */
  function Mod(x: int, p: int): int {
    if x < p then x else x - p
  }

  /** bn_subtractmod */
  function SubMod(a: int, b: int, p: int): int {
    a + 2 * p - b
  }

  /** bn_addmod; the sum is reduced before its carries are propagated. */
  function AddMod(a: int, b: int, p: int): int {
    FastMod(a + b, a / TWO240 + b / TWO240, p)
  }

  /** bn_mult_k; the limbs are scaled before the reduction. */
  function MultK(x: int, k: int, p: int): int {
    FastMod(k * x, k * (x / TWO240), p)
  }

  /** bn_subi */
  function SubI(a: int, b: int, p: int): int {
    a + p - b
  }

  /** bn_mult_half */
  function MultHalf(x: int, p: int): int {
    if x % 2 == 1 then (x + p) / 2 else x / 2
  }

  // ---------------------------------------------------------------- ranges

  /** A whole chain of carries: limbs below `m + 1` represent less than (m+1) 2^(30 n). */
  lemma {:induction false} LooseBound(s: seq<int>, m: nat, b: nat)
    requires b > 1
    requires forall i :: 0 <= i < |s| ==> 0 <= s[i] <= m
    ensures (b - 1) * Val(s, b) <= m * (Pow(b, |s|) - 1)
  {
    if |s| == 0 {
      assert Val(s, b) == 0 && Pow(b, 0) == 1;
    } else {
      LooseBound(s[1..], m, b);
      var v: int, q: int, m: int, b: int := Val(s[1..], b), Pow(b, |s| - 1), m, b;
      MulLe(b - 1, s[0], m);
      MulLe(b, (b - 1) * v, m * (q - 1));
      Distrib(b - 1, s[0], b * v);
      Assoc(b - 1, b, v);
      Assoc(b, b - 1, v);
      Assoc(b, m, q - 1);
      Assoc(m, b, q - 1);
      Distrib(m, b - 1, b * (q - 1));
      Distrib(b, q, 1);
    }
  }

  /** A number is partly reduced by the estimate its top limb gives, up to a few carries e. */
  lemma FastModLoose(v: int, top: int, e: int, p: int)
    requires InRange(p) && 0 <= top < 0x1_0000_0000 && 0 <= e <= 8
    requires TWO240 * top <= v < TWO240 * top + e * TWO240
    ensures 0 <= FastMod(v, top, p) < 2 * p
    ensures Cong(FastMod(v, top, p), v, p)
  {
    var coef := top / 0x1_0000;
    // top 2^240 lies in [coef 2^256, (coef + 1) 2^256)
    MulLe(coef, p, TWO256);
    MulLe(coef, TWO256 - p, TWO224);
    Distrib(coef, TWO256, p);
    CongByMultiple(FastMod(v, top, p), v, p, -coef);
  }

  /** bn_fast_mod partly reduces any nine 32-bit limbs, normalized or not. */
  lemma FastModRange(s: seq<u32>, p: int)
    requires |s| == 9 && InRange(p)
    ensures Num(s) >= 0
    ensures 0 <= FastMod(Num(s), s[8], p) < 2 * p
  {
    PowLiterals();
    ValPrefix(s, 8, WORD30);
    assert s[..9] == s;
    LooseBound(s[..8], 0xFFFF_FFFF, WORD30);
    ValNonNegative(s[..8], WORD30);
    FastModLoose(Num(s), s[8], 8, p);
  }

  lemma FastModNRange(v: int, p: int)
    requires 0 <= v < TWO270 && InRange(p)
    ensures 0 <= FastModN(v, p) < 2 * p
  {
    var coef := v / TWO240 / 0x1_0000;
    MulLe(coef, p, TWO256);
    MulLe(coef, TWO256 - p, TWO224);
    Distrib(coef, TWO256, p);
  }

  /** The coefficient of a reduction step fits 31 bits and leaves q 2 p. */
  lemma ReduceStepRange(v: int, p: int, q: nat)
    requires q > 0 && InRange(p) && 0 <= v < q * (WORD30 * (2 * p))
    ensures 0 <= v / (q * TWO256) < 0x8000_0000
    ensures 0 <= ReduceStep(v, p, q) < q * (2 * p)
    ensures Cong(ReduceStep(v, p, q), v, p)
  {
    var m := q * TWO256;
    MulPositive(q, TWO256);
    var coef := v / m;
    DivMod(v, m);
    MulLe(q, WORD30 * (2 * p), 0x8000_0000 * TWO256);
    assert v < m * 0x8000_0000;
    DivBounds(v, m, 0x8000_0000);
    DivBounds(v, m, 0);
    var d := TWO256 - p;
    Distrib(q, TWO256, d);
    MulLe(q, d, TWO224);
    MulNonNegative(q, d);
    MulLe2(coef, q * d, 0x8000_0000, q * TWO224);
    MulNonNegative(coef, q * d);
    Distrib(coef, m, q * d);
    assert ReduceStep(v, p, q) == v % m + coef * (q * d);
    assert 0x8000_0000 * (q * TWO224) + q * TWO256 <= q * (2 * p) by {
      MulLe(q, 0x8000_0000 * TWO224 + TWO256, 2 * p);
    }
    Assoc(coef, q, p);
    assert v - ReduceStep(v, p, q) == (coef * q) * p;
    CongByMultiple(ReduceStep(v, p, q), v, p, -(coef * q));
  }

  lemma {:induction false} ReduceRange(v: int, p: int, n: nat)
    requires InRange(p) && 0 <= v < Pow(WORD30, n) * (WORD30 * (2 * p))
    ensures 0 <= Reduce(v, p, n) < 2 * p
    ensures Cong(Reduce(v, p, n), v, p)
  {
    var q := Pow(WORD30, n);
    ReduceStepRange(v, p, q);
    if n > 0 {
      var r := ReduceStep(v, p, q);
      NextWindow(Pow(WORD30, n - 1), q, p);
      ReduceRange(r, p, n - 1);
      CongTrans(Reduce(v, p, n), r, v, p);
    }
  }

  lemma NextWindow(q': int, q: int, p: int)
    requires q == WORD30 * q'
    ensures q * (2 * p) == q' * (WORD30 * (2 * p))
  {
    Assoc(WORD30, q', 2 * p);
    Assoc(q', WORD30, 2 * p);
  }

  /** Factors below 180 p are small enough for the reduction to end below 2 p. */
  lemma ProductRange(k: int, x: int, p: int)
    requires InRange(p) && 0 <= k < 180 * p && 0 <= x < 180 * p
    ensures 0 <= k * x < Pow(WORD30, 8) * (WORD30 * (2 * p))
    ensures k < TWO270 && x < TWO270
  {
    PowLiterals();
    MulLe2(k, x, 180 * p, 180 * p);
    MulNonNegative(k, x);
    MulPositive(p, p);
    assert (180 * p) * (180 * p) == 32400 * (p * p);
    MulLe(p, p, TWO256);
  }

  /** bn_multiply: the product modulo p, partly reduced. */
  lemma MulRange(k: int, x: int, p: int)
    requires InRange(p) && 0 <= k < 180 * p && 0 <= x < 180 * p
    ensures 0 <= Mul(k, x, p) < 2 * p
    ensures Cong(Mul(k, x, p), k * x, p)
  {
    ProductRange(k, x, p);
    ReduceRange(k * x, p, 8);
  }

  /** bn_mod completes a partial reduction. */
  lemma ModRange(x: int, p: int)
    requires 0 < p && 0 <= x < 2 * p
    ensures Mod(x, p) == x % p
  {
    if x < p { DivModUnique(x, 0, x, p); } else { DivModUnique(x, 1, x - p, p); }
  }

  /** bn_fast_mod followed by bn_mod is reduction modulo p. */
  lemma FullReduction(v: int, p: int)
    requires 0 <= v < TWO270 && InRange(p)
    ensures Mod(FastModN(v, p), p) == v % p
  {
    FastModNRange(v, p);
    ModRange(FastModN(v, p), p);
    var coef := v / TWO240 / 0x1_0000;
    CongByMultiple(FastModN(v, p), v, p, -coef);
    CongIsMod(FastModN(v, p), v, p);
  }

  /**
   A positive multiple of p is always normalized to p itself, never to zero: the
   comparison with p that detects a doubling is exact.
   */
  lemma FastModMultiple(v: int, p: int)
    requires InRange(p) && 0 < v < 4 * p
    ensures FastModN(v, p) == p <==> v % p == 0
  {
    FastModNRange(v, p);
    var coef := v / TWO240 / 0x1_0000;
    var r := FastModN(v, p);
    CongByMultiple(r, v, p, -coef);
    CongIsMod(r, v, p);
    if r == p { DivModUnique(p, 1, 0, p); }
    if v % p == 0 {
      // v is p, 2p or 3p, and floor(v / 2^256) is 0, 1 or 2
      DivMod(v, p);
      var j := v / p;
      if j <= 0 { MulLe(p, j, 0); assert false; }
      if j >= 4 { MulLe(p, 4, j); assert false; }
      assert j == 1 || j == 2 || j == 3;
    }
  }
}
