/**
 The second phase of the fast bn_inverse: division by 2^k modulo the prime, and the
 conversions between nine 30-bit limbs and eight 32-bit words.
 */
module BnDivide {
  import opened Words
  import opened Limbs
  import opened Powers
  import opened Arith
  import opened Modular
  import opened Primes
  import opened ComboSpec
  import opened BignumSpec

  /** Squaring doubles the number of trailing zero bits, up to the word size. */
  lemma SquareDivisible(x: int, e: nat)
    requires e <= 32 && x % Pow2(e) == 0
    ensures ((x * x) % 0x1_0000_0000) % Pow2(if 2 * e <= 32 then 2 * e else 32) == 0
  {
    var g := if 2 * e <= 32 then 2 * e else 32;
    var p := Pow2(e);
    DivMod(x, p);
    var t := x / p;
    Pow2Add(e, e);
    Pow2Add(g, 2 * e - g);
    Pow2Add(g, 32 - g);
    Pow2Literals();
    SquareProduct(x, p, t, Pow2(g), Pow2(2 * e - g));
    DivMod(x * x, 0x1_0000_0000);
    var q := (x * x) / 0x1_0000_0000;
    Assoc(Pow2(g), Pow2(32 - g), q);
    Distrib(Pow2(g), Pow2(2 * e - g) * (t * t), Pow2(32 - g) * q);
    DivModUnique((x * x) % 0x1_0000_0000, Pow2(2 * e - g) * (t * t) - Pow2(32 - g) * q, 0, Pow2(g));
  }

  lemma SquareProduct(x: int, p: int, t: int, g: int, h: int)
    requires x == p * t && p * p == g * h
    ensures x * x == g * (h * (t * t))
  {
    MulEq(x, x, p * t);
    MulEq(p * t, x, p * t);
    Assoc(p * t, p, t);
    Assoc(p, t, p);
    Assoc(p, p, t);
    Assoc(p * p, t, t);
    Assoc(g, h, t * t);
  }

  /** The low e bits of x are zero. */
  predicate LowZero(x: int, e: nat)
    decreases e
  {
    if e == 0 then true else x % 2 == 0 && LowZero(x / 2, e - 1)
  }

  lemma {:induction false} LowZeroDivisible(x: int, e: nat)
    ensures LowZero(x, e) <==> x % Pow2(e) == 0
    decreases e
  {
    if e == 0 {
      DivModUnique(x, x, 0, 1);
    } else {
      LowZeroDivisible(x / 2, e - 1);
      DivDiv(x, 2, Pow2(e - 1));
    }
  }

  lemma SquareLowZero(x: int, e: nat)
    requires e <= 32 && LowZero(x, e)
    ensures LowZero((x * x) % 0x1_0000_0000, if 2 * e <= 32 then 2 * e else 32)
  {
    LowZeroDivisible(x, e);
    SquareDivisible(x, e);
    LowZeroDivisible((x * x) % 0x1_0000_0000, if 2 * e <= 32 then 2 * e else 32);
  }

  /** (a - 1)^2 - 1 = a (a - 2), and each squaring keeps a inverse = (a - 1)^(2^i) - 1. */
  lemma InverseStep(a: int, inverse: int, amone: int, next: int, inverse': int)
    requires Eqmi(a, amone, inverse)
    requires next == (amone * amone) % 0x1_0000_0000
    requires inverse' == (inverse * (next + 1)) % 0x1_0000_0000
    ensures Eqmi(a, next, inverse')
  {
    var m, b := 0x1_0000_0000, amone * amone;
    CongMod(b, m);
    CongAdd(b, next, 1, 1, m);
    CongTrans(a * inverse, b - 1, next - 1, m);
    CongMod(inverse * (next + 1), m);
    CongMul(a, a, inverse', inverse * (next + 1), m);
    TimesNext(a, inverse, next, m);
    CongTrans(a * inverse', a * (inverse * (next + 1)), next * next - 1, m);
  }

  lemma TimesNext(a: int, inverse: int, next: int, m: int)
    requires m > 0 && Cong(a * inverse, next - 1, m)
    ensures Cong(a * (inverse * (next + 1)), next * next - 1, m)
  {
    var n, l := next + 1, next - 1;
    CongMul(a * inverse, l, n, n, m);
    Assoc(a, inverse, n);
    DifferenceOfSquares(next);
  }

  lemma DifferenceOfSquares(n: int)
    ensures (n - 1) * (n + 1) == n * n - 1
  {}

  /** -a^-1 modulo 2^32, by the explicit quadratic modular inverse algorithm. */
  method NegInverse(a: u32) returns (inverse: u32)
    requires a % 2 == 1
    ensures Cong(a * inverse, -1, 0x1_0000_0000)
  {
    var amone: u32;
    ghost var e := 1;
    amone, inverse := EqmiStart(a);
    while amone != 0
      invariant 1 <= e <= 32 && LowZero(amone, e)
      invariant Eqmi(a, amone, inverse)
      decreases 32 - e
    {
      amone, inverse, e := EqmiStep(a, amone, inverse, e);
    }
    EqmiDone(a, amone, inverse);
  }

  method EqmiStart(a: u32) returns (amone: u32, inverse: u32)
    requires a % 2 == 1
    ensures LowZero(amone, 1) && Eqmi(a, amone, inverse)
  {
    amone := a - 1;
    inverse := (a - 2) % 0x1_0000_0000;
    StartInverse(a, inverse);
  }

  lemma EqmiDone(a: int, amone: int, inverse: int)
    requires amone == 0 && Eqmi(a, amone, inverse)
    ensures Cong(a * inverse, -1, 0x1_0000_0000)
  {}

  ghost predicate Eqmi(a: int, amone: int, inverse: int)
  {
    Cong(a * inverse, amone * amone - 1, 0x1_0000_0000)
  }

  /** One squaring of the product. */
  method EqmiStep(a: u32, amone: u32, inverse: u32, ghost e: nat) returns (amone': u32, inverse': u32, ghost e': nat)
    requires amone != 0 && 1 <= e <= 32 && LowZero(amone, e) && Eqmi(a, amone, inverse)
    ensures e < e' <= 32 && LowZero(amone', e') && Eqmi(a, amone', inverse')
  {
    NonzeroWord(amone, e);
    SquareLowZero(amone, e);
    MulNonNegative(amone, amone);
    amone' := (amone * amone) % 0x1_0000_0000;
    MulNonNegative(inverse, amone' + 1);
    inverse' := (inverse * (amone' + 1)) % 0x1_0000_0000;
    InverseStep(a, inverse, amone, amone', inverse');
    e' := if 2 * e <= 32 then 2 * e else 32;
  }

  lemma NonzeroWord(x: int, e: nat)
    requires 0 < x < 0x1_0000_0000 && e <= 32 && LowZero(x, e)
    ensures e < 32
  {
    LowZeroDivisible(x, e);
    Pow2Literals();
    DivModUnique(x, 0, x, 0x1_0000_0000);
  }

  lemma StartInverse(a: int, inverse: int)
    requires inverse == (a - 2) % 0x1_0000_0000
    ensures Eqmi(a, a - 1, inverse)
  {
    CongMod(a - 2, 0x1_0000_0000);
    FirstProduct(a, a - 1, inverse, 0x1_0000_0000);
  }

  lemma FirstProduct(a: int, n: int, inverse: int, m: int)
    requires m > 0 && n == a - 1 && Cong(inverse, a - 2, m)
    ensures Cong(a * inverse, n * n - 1, m)
  {
    CongMul(a, a, inverse, a - 2, m);
    DifferenceOfSquares(n);
  }

  // ------------------------------------------------------------- division by 2^k

  /** Big-endian words read backwards. */
  lemma {:induction false} BEBackwards(s: seq<int>, t: seq<int>)
    requires |s| == |t| && forall k :: 0 <= k < |s| ==> t[k] == s[|s| - 1 - k]
    ensures BE(s) == LE(t)
  {
    if |s| > 0 {
      var s', t' := s[..|s| - 1], t[1..];
      forall k | 0 <= k < |s'| ensures t'[k] == s'[|s'| - 1 - k] { assert t'[k] == t[k + 1]; }
      BEBackwards(s', t');
    }
  }

  /** One word of the division: p2 (y + ...) grows by the next words of z + f p. */
  lemma DivideDigit(y: seq<int>, c: int, z: seq<int>, p: seq<int>, f: int, p2: int, q2: int, d: int, q: int)
    requires |y| + 1 < |z| && |y| + 1 < |p| && p2 * q2 == 0x1_0000_0000
    requires p2 * LE(y + [c]) == LE(z[..|y| + 1]) + f * LE(p[..|y| + 1])
    requires c + (z[|y| + 1] + p[|y| + 1] * f) * q2 == d + 0x1_0000_0000 * q
    ensures p2 * LE(y + [d] + [q]) == LE(z[..|y| + 2]) + f * LE(p[..|y| + 2])
  {
    var i := |y|;
    var w := Pow(0x1_0000_0000, i);
    var t := z[i + 1] + p[i + 1] * f;
    AddDigit(y, c, t * q2, d, q, 0x1_0000_0000);
    ValPrefix(z, i + 1, 0x1_0000_0000);
    ValPrefix(p, i + 1, 0x1_0000_0000);
    DivideProducts(LE(y + [c]), LE(y + [d] + [q]), w, t, q2, p2, z[i + 1], p[i + 1], f, LE(p[..i + 1]));
  }

  lemma DivideProducts(v: int, v': int, w: int, t: int, q2: int, p2: int, z: int, p: int, f: int, pv: int)
    requires v' == v + w * (t * q2) && p2 * q2 == 0x1_0000_0000 && t == z + p * f
    ensures p2 * v' + f * pv == p2 * v + (0x1_0000_0000 * w) * z + f * (pv + (0x1_0000_0000 * w) * p)
  {
    var u := 0x1_0000_0000 * w;
    MulEq(p2, v', v + w * (t * q2));
    Distrib(p2, v, w * (t * q2));
    assert p2 * (w * (t * q2)) == u * t by {
      Assoc(p2, w, t * q2);
      Assoc(w, p2, t * q2);
      Assoc(p2, t, q2);
      Assoc(t, p2, q2);
      Assoc(w, t, 0x1_0000_0000);
      Assoc(u, t, 1);
    }
    MulEq(u, t, z + p * f);
    Distrib(u, z, p * f);
    Assoc(u, p, f);
    Assoc(f, u, p);
    Distrib(f, pv, u * p);
  }

  /** The factor makes the low bits of s + factor p vanish. */
  lemma FactorClears(s0: int, p0: int, inverse: int, factor: int, k: nat)
    requires 0 < k <= 32 && Cong(p0 * inverse, -1, 0x1_0000_0000)
    requires factor == (inverse * s0) % Pow2(k)
    ensures (s0 + p0 * factor) % Pow2(k) == 0
  {
    var m := Pow2(k);
    SmallerModulus(p0 * inverse, -1, k);
    // s0 + p0 factor = s0 + p0 inverse s0 = s0 - s0
    CongMod(inverse * s0, m);
    CongMul(p0, p0, factor, inverse * s0, m);
    CongMul(p0 * inverse, -1, s0, s0, m);
    Assoc(p0, inverse, s0);
    CongTrans(p0 * factor, p0 * (inverse * s0), -1 * s0, m);
    CongAdd(p0 * factor, -1 * s0, s0, s0, m);
    ZeroMod(p0 * factor + s0, m);
  }

  /** A congruence modulo 2^32 holds modulo smaller powers of two. */
  lemma SmallerModulus(a: int, b: int, k: nat)
    requires k <= 32 && Cong(a, b, 0x1_0000_0000)
    ensures Cong(a, b, Pow2(k))
  {
    Pow2Add(k, 32 - k);
    Pow2Literals();
    CongFactor(a, b, Pow2(k), Pow2(32 - k), 0x1_0000_0000);
  }

  lemma ZeroMod(a: int, m: int)
    requires m > 0 && Cong(a, 0, m)
    ensures a % m == 0
  {
    CongIsMod(a, 0, m);
    DivModUnique(0, 0, 0, m);
  }

  /** s + factor p stays within the 64-bit accumulator. */
  lemma DivideFits(z: int, p: int, factor: int, p2: int, q2: int)
    requires 0 <= z < 0x1_0000_0000 && 0 <= p < 0x1_0000_0000 && 0 <= factor < p2 && 0 < q2
    requires p2 * q2 == 0x1_0000_0000
    ensures 0 <= z + p * factor <= 0xFFFF_FFFF * p2
    ensures 0 <= (z + p * factor) * q2 <= 0xFFFF_FFFF * 0x1_0000_0000
  {
    MulLe2(p, factor, 0xFFFF_FFFF, p2 - 1);
    MulNonNegative(p, factor);
    MulLe(q2, z + p * factor, 0xFFFF_FFFF * p2);
    MulNonNegative(q2, z + p * factor);
    Assoc(0xFFFF_FFFF, p2, q2);
  }

  /**
   s := s / 2^k modulo p, for s in words 8 down to 1 of a; s + factor p is divisible
   by 2^k.  The source divides by whole words first (k = 32), then by the k < 32 left.
   */
  method DivideStep(a: array<u32>, pp: array<u32>, inverse: u32, k: nat) returns (ghost f: int)
    requires a.Length == 9 && pp.Length == 8 && a != pp && 0 < k <= 32
    requires Cong(pp[0] * inverse, -1, 0x1_0000_0000)
    requires BE(a[1..]) < LE(pp[..])
    modifies a
    ensures Pow2(k) * BE(a[1..]) == old(BE(a[1..])) + f * LE(pp[..])
    ensures 0 <= BE(a[1..]) < LE(pp[..])
  {
    var p2, q2 := Pow2(k), Pow2(32 - k);
    ghost var p := pp[..];
    ghost var z := Backwards(a[..]);
    Pow2Add(k, 32 - k);
    Pow2Literals();
    var factor: u32, temp: u64 := DivideFactor(a[8], pp[0], inverse, k);
    f := factor;
    DivideStart(z, p, f, temp, p2);
    ghost var y := DivideWords(a, pp, factor, temp, p2, q2, z);
    DivideDone(z, p, a[..], y, f, p2);
  }

  /** Words 8 down to 1 in little-endian order. */
  lemma Backwards(s: seq<int>) returns (z: seq<int>)
    requires |s| == 9
    ensures |z| == 8 && forall j :: 0 <= j < 8 ==> z[j] == s[8 - j]
    ensures LE(z) == BE(s[1..])
  {
    z := seq(8, i requires 0 <= i < 8 => s[8 - i]);
    BEBackwards(s[1..], z);
  }

  /** The word loop: y, from word 8 of a down, becomes (z + factor p) / 2^k. */
  method DivideWords(a: array<u32>, pp: array<u32>, factor: u32, first: u64, p2: nat, q2: nat, ghost z: seq<int>)
    returns (ghost y: seq<int>)
    requires a.Length == 9 && pp.Length == |z| == 8 && a != pp && first < 0x1_0000_0000
    requires 0 <= factor < p2 && 0 < q2 && p2 * q2 == 0x1_0000_0000
    requires forall j :: 0 <= j < 8 ==> z[j] == a[8 - j]
    requires p2 * LE([] + [first]) == LE(z[..1]) + factor * LE(pp[..][..1])
    modifies a
    ensures |y| == 8 && WordSeq(y) && forall j :: 0 <= j < 8 ==> y[j] == a[8 - j]
    ensures p2 * LE(y) == LE(z[..8]) + factor * LE(pp[..][..8])
  {
    ghost var p := pp[..];
    y := [];
    var temp: u64 := first;
    var i := 0;
    while i < 7
      invariant 0 <= i <= 7 && |y| == i && temp < 0x1_0000_0000
      invariant forall j :: 0 <= j < i ==> y[j] == a[8 - j]
      invariant forall j :: i <= j < 8 ==> z[j] == a[8 - j]
      invariant WordSeq(y)
      invariant p2 * LE(y + [temp]) == LE(z[..i + 1]) + factor * LE(p[..i + 1])
    {
      ghost var c := temp;
      temp := Accumulate(temp, a[7 - i], pp[i + 1], factor, p2, q2);
      DivideDigit(y, c, z, p, factor, p2, q2, temp % 0x1_0000_0000, temp / 0x1_0000_0000);
      a[8 - i] := temp % 0x1_0000_0000;
      y := y + [temp % 0x1_0000_0000];
      temp := temp / 0x1_0000_0000;
      i := i + 1;
    }
    a[1] := temp;
    y := y + [temp as int];
  }

  /** temp + ((z + p factor) << (32 - k)) does not overflow 64 bits. */
  method Accumulate(temp: u64, z: u32, p: u32, factor: u32, ghost p2: nat, q2: nat) returns (t: u64)
    requires temp < 0x1_0000_0000 && 0 <= factor < p2 && 0 < q2 && p2 * q2 == 0x1_0000_0000
    ensures t == temp + (z + p * factor) * q2 && t / 0x1_0000_0000 < 0x1_0000_0000
  {
    DivideFits(z, p, factor, p2, q2);
    t := temp + ((z as u64) + p * (factor as u64)) * q2;
  }

  lemma DivideDone(z: seq<int>, p: seq<int>, s: seq<int>, y: seq<int>, f: int, p2: int)
    requires |z| == |p| == |y| == 8 && |s| == 9 && WordSeq(z) && WordSeq(y)
    requires forall j :: 0 <= j < 8 ==> y[j] == s[8 - j]
    requires 0 <= f < p2 && LE(z) < LE(p) && p2 * LE(y) == LE(z[..8]) + f * LE(p[..8])
    ensures p2 * BE(s[1..]) == LE(z) + f * LE(p) && 0 <= BE(s[1..]) < LE(p)
  {
    assert z[..8] == z && p[..8] == p;
    BEBackwards(s[1..], y);
    ValNonNegative(z, 0x1_0000_0000);
    ValNonNegative(y, 0x1_0000_0000);
    Quotient(LE(y), LE(z), LE(p), f, p2);
  }

  /** The factor and the first word of s + factor p, divided by 2^k. */
  method DivideFactor(s0: u32, p0: u32, inverse: u32, k: nat) returns (factor: u32, temp: u64)
    requires 0 < k <= 32 && Cong(p0 * inverse, -1, 0x1_0000_0000)
    ensures 0 <= factor < Pow2(k) && temp < 0x1_0000_0000
    ensures Pow2(k) * temp == s0 + p0 * factor
  {
    var p2, q2 := Pow2(k), Pow2(32 - k);
    Pow2Add(k, 32 - k);
    Pow2Literals();
    Pow2Monotone(k, 32);
    MulNonNegative(inverse, s0);
    DivMod(inverse * s0, p2);
    factor := (inverse * s0) % p2;
    FactorClears(s0, p0, inverse, factor, k);
    DivideFits(s0, p0, factor, p2, q2);
    var t: u64 := (s0 as u64) + p0 * (factor as u64);
    DivMod(t, p2);
    DivBounds(t, p2, 0x1_0000_0000);
    DivBounds(t, p2, 0);
    temp := t / p2;
  }

  lemma DivideStart(z: seq<int>, p: seq<int>, f: int, temp: int, p2: int)
    requires |z| > 0 && |p| > 0 && p2 * temp == z[0] + p[0] * f
    ensures p2 * LE([] + [temp]) == LE(z[..1]) + f * LE(p[..1])
  {
    ValPrefix(z, 0, 0x1_0000_0000);
    ValPrefix(p, 0, 0x1_0000_0000);
    ValSnoc([], temp, 0x1_0000_0000);
    assert z[..0] == [] && p[..0] == [];
  }

  lemma Quotient(y: int, z: int, p: int, f: int, p2: int)
    requires 0 <= f < p2 && 0 <= z < p && p2 * y == z + f * p
    ensures y < p
  {
    if y >= p {
      MulLe(p2, p, y);
      MulLe(p, f, p2 - 1);
      Distrib(p, p2, 1);
      assert false;
    }
  }

  // ------------------------------------------------------------- 30- and 32-bit limbs

  lemma LimbPowers(i: nat)
    requires i <= 8
    ensures Pow(0x1_0000_0000, i) == Pow2(32 * i) && Pow(WORD30, i) == Pow2(30 * i)
  {
    WordPower(i);
    LimbPower(i);
  }

  lemma PackPowers(i: nat)
    requires i < 8
    ensures Pow(0x1_0000_0000, i) == Pow2(32 * i) == Pow2(30 * i) * Pow2(2 * i)
    ensures Pow(WORD30, i) == Pow2(30 * i)
    ensures Pow(WORD30, i + 1) == Pow2(32 * i) * Pow2(30 - 2 * i)
  {
    LimbPowers(i);
    LimbPowers(i + 1);
    Pow2Add(32 * i, 30 - 2 * i);
    Pow2Add(30 * i, 2 * i);
  }

  /** One word: temp | v << m is stored, v >> (32 - m) is kept. */
  method PackLimb(temp: u32, v: u32, m: nat) returns (word: u32, next: u32)
    requires 2 <= m <= 30 && temp < Pow2(m) && v < WORD30
    ensures word + 0x1_0000_0000 * next == temp + Pow2(m) * v
    ensures next < Pow2(m - 2)
  {
    PackWord(temp, v, m);
    Pow2Literals();
    word := Or(temp, Shl32(v, m));
    next := Shr32(v, 32 - m);
    ShiftedSmall(v, 32 - m, m - 2);
  }

  /** Shifting right by m takes numbers below 2^(m + n) below 2^n. */
  lemma ShiftedSmall(v: u32, m: nat, n: nat)
    requires v < Pow2(m + n)
    ensures Shr32(v, m) < Pow2(n)
  {
    Shr32Value(v, m);
    Pow2Add(m, n);
    DivBounds(v, Pow2(m), Pow2(n));
  }

  lemma PackWord(temp: u32, v: u32, m: nat)
    requires 0 < m <= 30 && temp < Pow2(m)
    ensures Or(temp, Shl32(v, m)) + 0x1_0000_0000 * Shr32(v, 32 - m) == temp + Pow2(m) * v
    ensures 0 <= Or(temp, Shl32(v, m)) < 0x1_0000_0000
  {
    var p, q := Pow2(m), Pow2(32 - m);
    Pow2Add(m, 32 - m);
    Pow2Literals();
    Shl32Value(v, m);
    Shr32Value(v, 32 - m);
    DivMod(v, q);
    OrDisjoint(temp, v % q, m);
    SplitShift(temp, v, p, q, v / q, v % q);
  }

  /** temp + p v, split at the word that p q makes. */
  lemma SplitShift(temp: int, v: int, p: int, q: int, h: int, l: int)
    requires 0 <= temp < p && v == q * h + l && 0 <= l < q
    ensures temp + p * v == (temp + p * l) + (p * q) * h
    ensures 0 <= temp + p * l < p * q
  {
    MulEq(p, v, q * h + l);
    Distrib(p, q * h, l);
    Assoc(p, q, h);
    MulLe(p, l, q - 1);
    Distrib(p, q, 1);
    MulNonNegative(p, l);
  }

  lemma PackStep(out: seq<int>, temp: int, val: seq<int>, i: nat, d: int, q: int)
    requires |out| == i && i < 8 && |val| == 9
    requires LE(out + [temp]) == Num(val[..i + 1])
    requires d + 0x1_0000_0000 * q == temp + Pow2(30 - 2 * i) * val[i + 1]
    ensures LE(out + [d] + [q]) == Num(val[..i + 2])
  {
    var x, a, b := val[i + 1], Pow2(32 * i), Pow2(30 - 2 * i);
    AddDigit(out, temp, b * x, d, q, 0x1_0000_0000);
    ValPrefix(val, i + 1, WORD30);
    PackPowers(i);
    Assoc(a, b, x);
  }

  /** The word at position i, and what is left of the limb after it. */
  method PackNext(val: array<u32>, out: array<u32>, i: nat, temp32: u32) returns (next: u32)
    requires val.Length == 9 && Normalized(val[..], WORD30) && i < 8 <= out.Length && out != val
    requires temp32 < Pow2(30 - 2 * i) && LE(out[..i] + [temp32]) == Num(val[..i + 1])
    modifies out
    ensures next < Pow2(30 - 2 * (i + 1)) && LE(out[..i + 1] + [next]) == Num(val[..i + 2])
    ensures forall k :: 0 <= k < out.Length && k != i ==> out[k] == old(out[k])
  {
    ghost var low := out[..i];
    var word: u32;
    word, next := PackLimb(temp32, val[i + 1], 30 - 2 * i);
    PackStep(low, temp32, val[..], i, word, next);
    assert val[..][..i + 1] == val[..i + 1] && val[..][..i + 2] == val[..i + 2];
    out[i] := word;
    assert out[..i + 1] == low + [word];
  }

  /** Convert nine normalized 30-bit limbs of a number below 2^256 to eight 32-bit words. */
  method ToWords(val: array<u32>, out: array<u32>)
    requires val.Length == 9 && Normalized(val[..], WORD30) && out.Length >= 8 && out != val
    requires Num(val[..]) < TWO256
    modifies out
    ensures LE(out[..8]) == Num(val[..])
    ensures forall k :: 8 <= k < out.Length ==> out[k] == old(out[k])
  {
    ghost var v: seq<int> := val[..];
    var temp32: u32 := val[0];
    var i := 0;
    Pow2Literals();
    PackStart(v);
    assert out[..0] + [temp32] == [v[0]] && val[..1] == v[..1];
    while i < 8
      invariant 0 <= i <= 8 && temp32 < Pow2(30 - 2 * i)
      invariant LE(out[..i] + [temp32]) == Num(val[..i + 1])
      invariant forall k :: 8 <= k < out.Length ==> out[k] == old(out[k])
    {
      temp32 := PackNext(val, out, i, temp32);
      i := i + 1;
    }
    assert val[..9] == v;
    ValNonNegative(v, WORD30);
    PackEnd(out[..8], temp32, Num(v));
  }

  lemma PackStart(val: seq<int>)
    requires |val| > 0
    ensures LE([val[0]]) == Num(val[..1])
  {
    ValPrefix(val, 0, WORD30);
    ValSnoc([], val[0], 0x1_0000_0000);
    assert [] + [val[0]] == [val[0]] && val[..0] == [];
  }

  lemma PackEnd(out: seq<int>, temp: int, v: int)
    requires |out| == 8 && WordSeq(out) && 0 <= v < TWO256 && LE(out + [temp]) == v
    ensures LE(out) == v
  {
    LimbPowers(8);
    Pow2Add(128, 128);
    Pow2Add(64, 64);
    Pow2Literals();
    assert Pow(0x1_0000_0000, 8) == TWO256;
    ValSnoc(out, temp, 0x1_0000_0000);
    ValBound(out, 0x1_0000_0000);
    SplitUnique(LE(out), temp, v, 0, TWO256);
  }

  /** One limb: ((w << m) & (2^30 - 1)) | temp is stored, w >> (30 - m) is kept. */
  method UnpackLimb(temp: u32, w: u32, m: nat) returns (limb: u32, next: u32)
    requires m <= 14 && temp < Pow2(m)
    ensures limb + WORD30 * next == temp + Pow2(m) * w && limb < WORD30
    ensures next < Pow2(m + 2)
  {
    UnpackWord(temp, w, m);
    limb := Or(And(Shl32(w, m), WORD30 - 1), temp);
    next := Shr32(w, 30 - m);
    Pow2Literals();
    ShiftedSmall(w, 30 - m, m + 2);
  }

  lemma UnpackWord(temp: u32, w: u32, m: nat)
    requires m <= 14 && temp < Pow2(m)
    ensures Or(And(Shl32(w, m), WORD30 - 1), temp) + WORD30 * Shr32(w, 30 - m) == temp + Pow2(m) * w
    ensures 0 <= Or(And(Shl32(w, m), WORD30 - 1), temp) < WORD30
  {
    var p, q := Pow2(m), Pow2(30 - m);
    Pow2Add(m, 30 - m);
    Pow2Literals();
    Shl32Value(w, m);
    Shr32Value(w, 30 - m);
    AndMask(Shl32(w, m), 30);
    UnpackLow(w, m);
    DivMod(w, q);
    OrDisjoint(temp, w % q, m);
    SplitShift(temp, w, p, q, w / q, w % q);
  }

  /** The low 30 bits of w << m. */
  lemma UnpackLow(w: u32, m: nat)
    requires m <= 14
    ensures (Pow2(m) * (w % Pow2(32 - m))) % WORD30 == Pow2(m) * (w % Pow2(30 - m))
  {
    var p, q := Pow2(m), Pow2(30 - m);
    Pow2Add(m, 30 - m);
    Pow2Add(30 - m, 2);
    Pow2Literals();
    assert Pow2(2) == 4;
    var x := w % (q * 4);
    DivDiv(w, q, 4);
    var h := (w / q) % 4;
    assert x == q * h + w % q;
    DivMod(w, q);
    Distrib(p, q * h, w % q);
    Assoc(p, q, h);
    MulLe(p, w % q, q - 1);
    Distrib(p, q, 1);
    MulNonNegative(p, w % q);
    DivModUnique(p * x, h, p * (w % q), WORD30);
  }

  lemma UnpackStep(out: seq<int>, temp: int, z: seq<int>, i: nat, d: int, q: int)
    requires |out| == i && i < 8 && |z| == 8
    requires Num(out + [temp]) == LE(z[..i])
    requires d + WORD30 * q == temp + Pow2(2 * i) * z[i]
    ensures Num(out + [d] + [q]) == LE(z[..i + 1])
  {
    var x, a, b := z[i], Pow2(30 * i), Pow2(2 * i);
    AddDigit(out, temp, b * x, d, q, WORD30);
    ValPrefix(z, i, 0x1_0000_0000);
    PackPowers(i);
    Assoc(a, b, x);
  }

  /** Convert the words 8 down to 1 of a back to nine 30-bit limbs. */
  method FromWords(a: array<u32>, val: array<u32>)
    requires a.Length == 9 && val.Length == 9 && a != val
    modifies val
    ensures Normalized(val[..], WORD30) && Num(val[..]) == BE(a[1..])
  {
    ghost var s := a[..];
    ghost var z: seq<int> := seq(8, i requires 0 <= i < 8 => s[8 - i]);
    BEBackwards(a[1..], z);
    UnpackWords(a, val, z);
  }

  /** One limb more, from word 8 - i. */
  method NextLimbBack(a: array<u32>, val: array<u32>, i: nat, temp32: u32, ghost z: seq<int>) returns (next: u32)
    requires a.Length == 9 && val.Length == 9 && a != val && i < 8 && |z| == 8 && z[i] == a[8 - i]
    requires temp32 < Pow2(2 * i) && Normalized(val[..i], WORD30) && Num(val[..i] + [temp32]) == LE(z[..i])
    modifies val
    ensures next < Pow2(2 * i + 2) && Normalized(val[..i + 1], WORD30) && Num(val[..i + 1] + [next]) == LE(z[..i + 1])
  {
    ghost var low := val[..i];
    var limb;
    limb, next := UnpackLimb(temp32, a[8 - i], 2 * i);
    UnpackStep(low, temp32, z, i, limb, next);
    val[i] := limb;
    assert val[..i + 1] == low + [limb];
  }

  /** The loop of the conversion back; z are the words from 8 down. */
  method UnpackWords(a: array<u32>, val: array<u32>, ghost z: seq<int>)
    requires a.Length == 9 && val.Length == 9 && a != val
    requires |z| == 8 && forall i :: 0 <= i < 8 ==> z[i] == a[8 - i]
    modifies val
    ensures Normalized(val[..], WORD30) && Num(val[..]) == LE(z)
  {
    var temp32: u32 := 0;
    var i := 0;
    ValSnoc([], 0, WORD30);
    assert val[..0] + [temp32] == [] + [0] && z[..0] == [];
    while i < 8
      invariant 0 <= i <= 8 && temp32 < Pow2(2 * i)
      invariant Normalized(val[..i], WORD30)
      invariant Num(val[..i] + [temp32]) == LE(z[..i])
    {
      temp32 := NextLimbBack(a, val, i, temp32, z);
      i := i + 1;
    }
    Pow2Literals();
    ghost var low := val[..8];
    val[i] := temp32;
    assert val[..] == low + [temp32] && z[..8] == z;
  }
}
