/** Poly1305 as section 2.5 of RFC 7539 states it: a mask for the multiplier, and a polynomial in it. */
module Poly1305Polynomial {
  import opened Arith
  import opened Modular
  import opened Words
  import opened Limbs
  import opened Fermat
  import LittleEndian
  import opened Poly1305Spec
  import opened Poly1305Key

  // ------------------------------------------------------------ the multiplier

  function AndBytes(s: seq<u8>, m: seq<u8>): (r: seq<nat>)
    requires |s| == |m|
    ensures |r| == |s| && forall i :: 0 <= i < |r| ==> r[i] == And(s[i], m[i])
  {
    seq(|s|, i requires 0 <= i < |s| => And(s[i], m[i]))
  }

  lemma {:induction false} AndOfBytes(s: seq<u8>, m: seq<u8>)
    requires |s| == |m|
    ensures Val(s, 256) >= 0 && Val(m, 256) >= 0 && And(Val(s, 256), Val(m, 256)) == Val(AndBytes(s, m), 256)
  {
    ValNonNegative(s, 256);
    ValNonNegative(m, 256);
    if |s| > 0 {
      ValNonNegative(s[1..], 256);
      ValNonNegative(m[1..], 256);
      AndOfBytes(s[1..], m[1..]);
      Pow2Literals();
      AndSplit(Val(s, 256), Val(s[1..], 256), s[0], Val(m, 256), Val(m[1..], 256), m[0], 8, 0x100);
      assert AndBytes(s, m)[1..] == AndBytes(s[1..], m[1..]);
    }
  }

  function MaskAt(i: nat): u8 {
    if i % 4 == 3 then 0x0f else if i % 4 == 0 && i > 0 then 0xfc else 0xff
  }

  function Mask(): (m: seq<u8>)
    ensures |m| == 16 && forall i :: 0 <= i < 16 ==> m[i] == MaskAt(i)
  {
    seq(16, i requires 0 <= i => MaskAt(i))
  }

  lemma MaskNone(b: nat, n: nat, p: nat)
    requires n == 8 && p == Pow2(n) && b < p
    ensures And(b, p - 1) == b
  {
    AndMask(b, n);
    DivModUnique(b, 0, b, p);
  }

  lemma MaskTop(b: nat, n: nat)
    requires n == 4
    ensures And(b, 0x0f) == b % 16
  {
    assert Pow2(n) == 16;
    AndMask(b, n);
  }

  lemma MaskBottom(b: nat, n: nat, h: nat)
    requires n == 2 && h == 6 && b < 256
    ensures And(b, 0xfc) == b - b % 4
  {
    assert Pow2(n) == 4 && Pow2(h) == 64;
    DivMod(b, 4);
    DivBounds(b, 4, 64);
    AndSplit(b, b / 4, b % 4, 0xfc, 63, 0, n, 4);
    AndMask(b / 4, h);
    DivModUnique(b / 4, 0, b / 4, 64);
    assert And(b % 4, 0) == 0;
  }

  lemma MaskByte(b: u8, i: nat)
    ensures And(b, MaskAt(i)) == ClampedByte(i, b)
  {
    Pow2Literals();
    MaskNone(b, 8, 0x100);
    MaskTop(b, 4);
    MaskBottom(b, 2, 6);
  }

  lemma MaskValue(m: seq<u8>)
    requires m == Mask()
    ensures Val(m, 256) == 0x0fff_fffc_0fff_fffc_0fff_fffc_0fff_ffff
  {
    var w: seq<u32> := [0x0fff_ffff, 0x0fff_fffc, 0x0fff_fffc, 0x0fff_fffc];
    forall j | 0 <= j < 4 ensures w[j] == LittleEndian.Word(m, 4 * j) { FourOfMask(m, j, w[j]); }
    LittleEndian.WordsOfBytes(m, w);
    LittleEndian.FourWords(w);
  }

  lemma FourOfMask(m: seq<u8>, j: nat, w: u32)
    requires m == Mask() && j < 4 && w == if j == 0 then 0x0fff_ffff else 0x0fff_fffc
    ensures LittleEndian.Word(m, 4 * j) == w
  {
    assert m[4 * j] == (if j == 0 then 0xff else 0xfc) && m[4 * j + 1] == 0xff && m[4 * j + 2] == 0xff && m[4 * j + 3] == 0x0f;
  }

  lemma ClampedIsMasked(s: seq<u8>)
    requires |s| == 16
    ensures AndBytes(s, Mask()) == Clamped(s)
  {
    forall i | 0 <= i < 16 ensures AndBytes(s, Mask())[i] == Clamped(s)[i] { MaskByte(s[i], i); }
  }

  /** Section 2.5: r is the first half of the key, masked. */
  lemma MultiplierMeans(key: seq<u8>)
    requires |key| == 32
    ensures Val(key[..16], 256) >= 0 && Multiplier(key) == And(Val(key[..16], 256), 0x0fff_fffc_0fff_fffc_0fff_fffc_0fff_ffff)
  {
    var s, m := key[..16], Mask();
    AndOfBytes(s, m);
    MaskValue(m);
    ClampedIsMasked(s);
  }

  // ------------------------------------------------------------ the accumulator

  /** A block as a number with a one above its bytes. */
  function Coefficient(b: seq<u8>): int {
    Val(b, 256) + Pow(256, |b|)
  }

  /** The blocks of a message in turn, the last one possibly short. */
  function Coefficients(m: seq<u8>): (c: seq<int>)
    ensures |c| == (|m| + 15) / 16
    decreases |m|
  {
    if |m| == 0 then []
    else
      var k := if |m| < 16 then |m| else 16;
      [Coefficient(m[..k])] + Coefficients(m[k..])
  }

  /** c_0 r^n + c_1 r^(n-1) + ... + c_(n-1) r */
  function Polynomial(c: seq<int>, r: int): int {
    if |c| == 0 then 0 else c[0] * Power(r, |c|) + Polynomial(c[1..], r)
  }

  lemma HornerStep(a: int, b: int, r: int, w: int, u: int, p: int, t: int)
    requires p > 0 && u == r * w && Cong(t, (a + b) * r, p)
    ensures Cong(t * w, a * u + b * u, p)
  {
    CongMul(t, (a + b) * r, w, w, p);
    assert ((a + b) * r) * w == a * u + b * u by {
      Assoc(a + b, r, w);
      MulEq(a + b, r * w, u);
      Distrib(u, a, b);
    }
  }

  lemma PolynomialCons(b: int, c: seq<int>, r: int)
    ensures Polynomial([b] + c, r) == b * Power(r, |c| + 1) + Polynomial(c, r)
  {
    assert ([b] + c)[1..] == c;
  }

  lemma BlockValueMeans(b: seq<u8>)
    ensures BlockValue(b) == Coefficient(b)
  {
    ValSnoc(b, 1, 256);
  }

  /** The first block and the others. */
  lemma FirstCoefficient(m: seq<u8>)
    requires |m| > 0
    ensures var k := BlockSize(m); Coefficients(m) == [BlockValue(m[..k])] + Coefficients(m[k..])
  {
    BlockValueMeans(m[..BlockSize(m)]);
  }

  lemma {:induction false} AccumulateMeans(r: int, a: int, m: seq<u8>)
    ensures Cong(Accumulate(r, a, m), a * Power(r, |Coefficients(m)|) + Polynomial(Coefficients(m), r), P1305)
    decreases |m|, 1
  {
    if |m| == 0 {
      assert a * Power(r, 0) == a;
    } else {
      var k := BlockSize(m);
      var b, c := BlockValue(m[..k]), Coefficients(m[k..]);
      AccumulateFirst(r, a, m, b, c, ((a + b) * r) % P1305);
    }
  }

  lemma {:induction false} AccumulateFirst(r: int, a: int, m: seq<u8>, b: int, c: seq<int>, t: int)
    requires |m| > 0 && b == BlockValue(m[..BlockSize(m)]) && c == Coefficients(m[BlockSize(m)..]) && t == ((a + b) * r) % P1305
    ensures Cong(Accumulate(r, a, m), a * Power(r, |Coefficients(m)|) + Polynomial(Coefficients(m), r), P1305)
    decreases |m|, 0
  {
    AccumulateMeans(r, t, m[BlockSize(m)..]);
    FirstCoefficient(m);
    PolynomialCons(b, c, r);
    CongMod((a + b) * r, P1305);
    var w, u, y := Power(r, |c|), Power(r, |c| + 1), Polynomial(c, r);
    HornerStep(a, b, r, w, u, P1305, t);
    Joined(Accumulate(r, a, m), t * w, y, a * u, b * u, P1305);
  }

  lemma Joined(v: int, x: int, y: int, au: int, bu: int, p: int)
    requires p > 0 && Cong(v, x + y, p) && Cong(x, au + bu, p)
    ensures Cong(v, au + (bu + y), p)
  {
    CongAdd(x, au + bu, y, y, p);
  }

  /** The tag: the polynomial modulo 2^130 - 5, and the second half of the key added modulo 2^128. */
  lemma TagMeans(key: seq<u8>, m: seq<u8>, p: int, q: int)
    requires |key| == 32 && p == Pow2(130) - 5 && q == Pow2(128)
    ensures p > 0 && q > 0 && Tag(key, m) == (Polynomial(Coefficients(m), Multiplier(key)) % p + Val(key[16..], 256)) % q
  {
    var r := Multiplier(key);
    ModulusMeans(130, 128);
    AccumulateMeans(r, 0, m);
    AccumulateRange(r, 0, m);
    var v, w := Accumulate(r, 0, m), Polynomial(Coefficients(m), r);
    assert 0 * Power(r, |Coefficients(m)|) == 0;
    CongIsMod(v, w, p);
    DivModUnique(v, 0, v, p);
  }

  lemma ModulusMeans(m: nat, n: nat)
    requires m == 130 && n == 128
    ensures P1305 == Pow2(m) - 5 && TWO128 == Pow2(n)
  {
    Pow2Literals();
    Pow2Add(64, 64);
    Pow2Add(128, 2);
    assert Pow2(2) == 4;
  }
}
