/** expand256_modm: bytes to limbs, by way of 32-bit words, and modulo m. */
module ModmExpand {
  import opened Arith
  import opened Words
  import opened Limbs
  import opened Powers
  import opened BignumSpec
  import opened ComboSpec
  import opened LittleEndian
  import opened ModmSpec
  import B = Bignum
  import Modm

  /** n digits in base 2^30, the last one being whatever is left. */
  function DigitsOf(v: nat, n: nat): (s: seq<nat>)
    requires n > 0
    ensures |s| == n && Num(s) == v
  {
    if n == 1 then
      assert Num([v]) == v + WORD30 * Num([v][1..]);
      [v]
    else
      DivMod(v, WORD30);
      var s := [v % WORD30] + DigitsOf(v / WORD30, n - 1);
      assert s[1..] == DigitsOf(v / WORD30, n - 1);
      s
  }

  lemma {:induction false} DigitAt(v: nat, n: nat, k: nat)
    requires k < n
    ensures DigitsOf(v, n)[k] == if k < n - 1 then (v / Pow2(30 * k)) % WORD30 else v / Pow2(30 * k)
    decreases k
  {
    if k == 0 {
      DivModUnique(v, v, 0, 1);
    } else {
      DigitAt(v / WORD30, n - 1, k - 1);
      Thirty(30);
      Pow2Add(30, 30 * (k - 1));
      DivDiv(v, WORD30, Pow2(30 * (k - 1)));
    }
  }

  lemma Thirty(n: nat)
    requires n == 30
    ensures Pow2(n) == WORD30
  {
    Pow2Literals();
  }

  // ------------------------------------------------------------ words

  /** Thirty-two bits of the number from bit 32 j + o on are in two words. */
  lemma WordPair(x: seq<u32>, v: int, j: nat, o: nat)
    requires j + 1 < |x| && 0 < o < 32 && v == LE(x)
    ensures v >= 0 && ShrWord(x[j], x[j + 1], o) == (v / Pow2(32 * j + o)) % WORD32
  {
    ValNonNegative(x, WORD32);
    var t, p, z := LE(x[j..]), Pow2(o), LE(x[j + 2..]);
    assert v / Pow2(32 * j + o) == t / p by {
      WordsFrom(x, v, j);
      Pow2Add(32 * j, o);
      DivDiv(v, Pow2(32 * j), p);
    }
    WordStep(x, j);
    WordStep(x, j + 1);
    ShiftFactors(o);
    PairBits(x[j], x[j + 1], z, p, Pow2(32 - o));
  }

  lemma WordStep(x: seq<u32>, j: nat)
    requires j < |x|
    ensures LE(x[j..]) == x[j] + WORD32 * LE(x[j + 1..])
  {
    assert x[j..][1..] == x[j + 1..];
  }

  lemma WordsFrom(x: seq<u32>, v: int, j: nat)
    requires j <= |x| && v == LE(x)
    ensures v / Pow2(32 * j) == LE(x[j..])
  {
    ValSplit(x, j, WORD32);
    ValBound(x[..j], WORD32);
    WordPower(j);
    DivModUnique(v, LE(x[j..]), LE(x[..j]), Pow2(32 * j));
  }

  lemma ThirtyTwo(n: nat)
    requires n == 32
    ensures Pow2(n) == WORD32
  {
    Pow2Literals();
  }

  /** (x + 2^32 y + 2^64 z) / p modulo 2^32, with p q = 2^32 */
  lemma PairBits(x: int, y: int, z: int, p: int, q: int)
    requires 0 <= x < WORD32 && p > 0 && q > 0 && p * q == WORD32
    ensures ((x + WORD32 * (y + WORD32 * z)) / p) % WORD32 == x / p + q * (y % p)
  {
    var h := y + WORD32 * z;
    DivMod(x, p);
    Assoc(p, q, h);
    Distrib(p, x / p, q * h);
    DivModUnique(x + WORD32 * h, x / p + q * h, x % p, p);
    HighBits(y, z, p, q);
    DivBounds(x, p, q);
    DivBounds(x, p, 0);
    DivMod(y, p);
    MulLe(q, y % p, p - 1);
    MulNonNegative(q, y % p);
    Distrib(q, p, 1);
    DivModUnique(x / p + q * h, y / p + q * z, x / p + q * (y % p), WORD32);
  }

  lemma HighBits(y: int, z: int, p: int, q: int)
    requires p > 0 && p * q == WORD32
    ensures q * (y + WORD32 * z) == q * (y % p) + WORD32 * (y / p + q * z)
  {
    DivMod(y, p);
    Distrib(q, y, WORD32 * z);
    Distrib(q, y % p, p * (y / p));
    Assoc(q, p, y / p);
    Assoc(q, WORD32, z);
    Assoc(WORD32, q, z);
  }

  // ------------------------------------------------------------ limbs

  lemma LimbBits(x: seq<u32>, v: int, j: nat, o: nat, k: nat, n: int)
    requires j + 1 < |x| && 0 < o < 32 && v == LE(x) && 32 * j + o == k && (n == WORD30 || n == 0x100_0000)
    ensures v >= 0 && ShrWord(x[j], x[j + 1], o) % n == (v / Pow2(k)) % n
  {
    WordPair(x, v, j, o);
    Truncated(v / Pow2(k), n);
  }

  lemma Truncated(w: int, n: int)
    requires n == WORD30 || n == 0x100_0000
    ensures (w % WORD32) % n == w % n
  {
    Modm.LowBits(w, WORD32, n, if n == WORD30 then 4 else 256);
  }

  /** out = x modulo 2^264 */
  method LowLimbs(x: array<u32>, out: array<u32>)
    requires x.Length == 16 && out.Length == 9 && out != x
    modifies out
    ensures B.Bn(out) && LE(x[..]) >= 0 && Num(out[..]) == LE(x[..]) % TWO264
  {
    ghost var w := x[..];
    ghost var v := LE(w);
    ValNonNegative(w, WORD32);
    ghost var d := DigitsOf(v, 9);
    out[0] := x[0] % WORD30;
    FirstLimb(w, v);
    DigitAt(v, 9, 0);
    var k := 1;
    while k < 8
      invariant 1 <= k <= 8 && x[..] == w && forall i :: 0 <= i < k ==> out[i] == d[i] < WORD30
    {
      LimbBits(w, v, k - 1, 32 - 2 * k, 30 * k, WORD30);
      DigitAt(v, 9, k);
      out[k] := ShrWord(x[k - 1], x[k], 32 - 2 * k) % WORD30;
      k := k + 1;
    }
    LimbBits(w, v, 7, 16, 240, 0x100_0000);
    DigitAt(v, 9, 8);
    out[8] := ShrWord(x[7], x[8], 16) % 0x100_0000;
    LowDone(out[..], d, v);
  }

  lemma FirstLimb(x: seq<u32>, v: int)
    requires |x| == 16 && v == LE(x)
    ensures v >= 0 && x[0] % WORD30 == (v / Pow2(0)) % WORD30
  {
    ValNonNegative(x, WORD32);
    DivModUnique(v, v, 0, 1);
    assert v == x[0] + WORD32 * LE(x[1..]);
  }

  lemma LowDone(out: seq<int>, d: seq<int>, v: nat)
    requires |out| == |d| == 9 && Num(d) == v && d[8] >= 0
    requires (forall i :: 0 <= i < 8 ==> 0 <= out[i] == d[i] < WORD30) && out[8] == d[8] % 0x100_0000
    ensures Num(out) == v % TWO264
  {
    ValPrefix(out, 8, WORD30);
    ValPrefix(d, 8, WORD30);
    assert out[..9] == out && d[..9] == d && out[..8] == d[..8];
    ValBound(out[..8], WORD30);
    PowLiterals();
    Modm.HalvesOf(Num(out[..8]), d[8], v);
  }

  /** q1 = floor(x / 2^248) */
  method HighLimbs(x: array<u32>, q1: array<u32>)
    requires x.Length == 16 && q1.Length == 9 && q1 != x
    modifies q1
    ensures B.Bn(q1) && LE(x[..]) >= 0 && Num(q1[..]) == LE(x[..]) / TWO248 < TWO264
  {
    ghost var w := x[..];
    ghost var v := LE(w);
    ValNonNegative(w, WORD32);
    HighValue(v, 248);
    ghost var h: nat := v / TWO248;
    ghost var d := DigitsOf(h, 9);
    var k := 0;
    while k < 8
      invariant 0 <= k <= 8 && x[..] == w && forall i :: 0 <= i < k ==> q1[i] == d[i] < WORD30
    {
      LimbBits(w, v, 7 + k, 24 - 2 * k, 248 + 30 * k, WORD30);
      HighDigit(v, h, k, 248);
      q1[k] := ShrWord(x[7 + k], x[8 + k], 24 - 2 * k) % WORD30;
      k := k + 1;
    }
    LastWord(w, v, 8, 15);
    HighDigit(v, h, 8, 248);
    q1[8] := Shr32(x[15], 8);
    HighRange(w, v);
    assert q1[..] == d;
  }

  lemma HighValue(v: nat, e: nat)
    requires e == 248
    ensures Pow2(e) == TWO248 && v / TWO248 >= 0
  {
    var a := e - 184;
    assert Pow2(a) == 0x1_0000_0000_0000_0000 by { Pow2Literals(); }
    Pow2Add(a, a);
    Pow2Add(2 * a, a);
    var b := e - 192;
    assert Pow2(b) == 0x1_00000000_000000 by { Pow2Literals(); Pow2Add(32, 16); Pow2Add(48, 8); }
    Pow2Add(3 * a, b);
  }

  lemma HighDigit(v: nat, h: nat, k: nat, e: nat)
    requires e == 248 && h == v / TWO248 && k < 9
    ensures DigitsOf(h, 9)[k] == if k < 8 then (v / Pow2(e + 30 * k)) % WORD30 else v / Pow2(e + 30 * k)
  {
    DigitAt(h, 9, k);
    HighValue(v, e);
    Pow2Add(e, 30 * k);
    DivDiv(v, Pow2(e), Pow2(30 * k));
  }

  /** The last limb is the last word without its low byte. */
  lemma LastWord(x: seq<u32>, v: nat, n: nat, j: nat)
    requires |x| == 16 && v == LE(x) && n == 8 && j == 15
    ensures Shr32(x[j], n) == v / Pow2(32 * j + n) < WORD30
  {
    WordsFrom(x, v, j);
    WordStep(x, j);
    assert LE(x[j + 1..]) == 0;
    Shr32Value(x[j], n);
    Pow2Add(32 * j, n);
    DivDiv(v, Pow2(32 * j), Pow2(n));
    LowByte(x[j], n);
  }

  lemma LowByte(x: u32, n: nat)
    requires n == 8
    ensures 0 <= x / Pow2(n) < WORD30
  {
    assert Pow2(n) == 0x100 by { Pow2Literals(); }
  }

  lemma HighRange(x: seq<u32>, v: nat)
    requires |x| == 16 && v == LE(x)
    ensures v / TWO248 < TWO264
  {
    ValBound(x, WORD32);
    assert Pow(WORD32, 8) == TWO256;
    PowAdd(WORD32, 8, 8);
    DivBounds(v, TWO248, TWO264);
  }

  // ------------------------------------------------------------ bytes

  /** The words of at most 64 bytes, padded with zeros. */
  method ReadWords(input: seq<u8>) returns (x: array<u32>)
    requires |input| <= 64
    ensures fresh(x) && x.Length == 16 && LE(x[..]) == Val(input, 256)
  {
    var work: seq<u8> := input + seq(64 - |input|, _ => 0);
    x := new u32[16](_ => 0);
    var j := 0;
    while j < 16
      invariant 0 <= j <= 16 && forall i :: 0 <= i < j ==> x[i] == Word(work, 4 * i)
    {
      x[j] := Word(work, 4 * j);
      j := j + 1;
    }
    WordsOfBytes(work, x[..]);
    ValTrailingZeros(work, |input|, 256);
    assert work[..|input|] == input;
  }

  /** Fewer than 32 bytes are below m already. */
  lemma ShortInput(input: seq<u8>, v: nat, n: nat)
    requires |input| <= n == 31 && v == Val(input, 256)
    ensures v % TWO264 == v % M
  {
    ValBound(input, 256);
    BytePower(|input|);
    Pow2Monotone(8 * |input|, 8 * n);
    HighValue(v, 8 * n);
    DivModUnique(v, 0, v, TWO264);
    DivModUnique(v, 0, v, M);
  }

  /** expand256_modm: the little-endian number of up to 64 bytes, modulo m. */
  method Expand256(out: array<u32>, input: seq<u8>)
    requires out.Length == 9 && |input| <= 64
    modifies out
    ensures B.Bn(out) && Num(out[..]) == Val(input, 256) % M
  {
    var x := ReadWords(input);
    LowLimbs(x, out);
    ghost var v: nat := LE(x[..]);
    if |input| < 32 {
      ShortInput(input, v, 31);
      return;
    }
    var q1 := new u32[9](_ => 0);
    HighLimbs(x, q1);
    Modm.BarrettReduce(out, q1, out, v);
  }
}
