/** Field elements of 2^255 - 19 from 32 bytes and, fully reduced, to 32 bytes. */
module Field25519Bytes {
  import opened Arith
  import opened Words
  import opened Limbs
  import opened LittleEndian
  import opened Field25519Spec
  import opened Field25519

  // ------------------------------------------------------------ full reduction

  /** f[i + 1] += f[i] >> bits; f[i] &= mask */
  method Step(f: u32, c: u32, w: u32) returns (h: u32, c': u32)
    requires f <= 0xFFFF_FF00 && c <= 0x80 && (w == W26 || w == W25)
    ensures f + c == h + w * c' && h < w && c' <= 0x80
  {
    var t: u32 := f + c;
    DivMod(t, w);
    DivBounds(t, w, 0x81);
    h, c' := t % w, t / w;
  }

  /** No limb is close to 2^32. */
  predicate Roomy(f: Ten<u32>) {
    && f.x0 <= 0xFFFF_FF00 && f.x1 <= 0xFFFF_FF00 && f.x2 <= 0xFFFF_FF00 && f.x3 <= 0xFFFF_FF00 && f.x4 <= 0xFFFF_FF00
    && f.x5 <= 0xFFFF_FF00 && f.x6 <= 0xFFFF_FF00 && f.x7 <= 0xFFFF_FF00 && f.x8 <= 0xFFFF_FF00 && f.x9 <= 0xFFFF_FF00
  }

  /** Every limb but the lowest is carried. */
  predicate Masked(h: Ten<int>, low: int) {
    && 0 <= h.x0 < low && 0 <= h.x1 < W25 && 0 <= h.x2 < W26 && 0 <= h.x3 < W25 && 0 <= h.x4 < W26
    && 0 <= h.x5 < W25 && 0 <= h.x6 < W26 && 0 <= h.x7 < W25 && 0 <= h.x8 < W26 && 0 <= h.x9 < W25
  }

  /** carry_pass with the mask of the last limb: c is what leaves it. */
  method CarryPass(f: Ten<u32>) returns (h: Ten<u32>, c: u32)
    requires Roomy(f)
    ensures Masked(h, W26) && c <= 0x80 && Value(f) == Value(h) + Y10 * c
    ensures Masked(f, W26 + 0x1000) ==> c <= 1 && (c == 1 ==> h.x0 < 0x1000)
  {
    var h0, c0 := Step(f.x0, 0, W26);
    var h1, c1 := Step(f.x1, c0, W25);
    var h2, c2 := Step(f.x2, c1, W26);
    var h3, c3 := Step(f.x3, c2, W25);
    var h4, c4 := Step(f.x4, c3, W26);
    var h5, c5 := Step(f.x5, c4, W25);
    var h6, c6 := Step(f.x6, c5, W26);
    var h7, c7 := Step(f.x7, c6, W25);
    var h8, c8 := Step(f.x8, c7, W26);
    var h9, c9 := Step(f.x9, c8, W25);
    h, c := Ten(h0, h1, h2, h3, h4, h5, h6, h7, h8, h9), c9;
    Moves(f, h, Ten(c0, c1, c2, c3, c4, c5, c6, c7, c8, c9));
  }

  /** The carries keep the number; a carry runs through only if the lowest limb starts it. */
  lemma Moves(f: Ten<int>, h: Ten<int>, c: Ten<int>)
    requires f.x0 == h.x0 + W26 * c.x0 && f.x1 + c.x0 == h.x1 + W25 * c.x1 && f.x2 + c.x1 == h.x2 + W26 * c.x2
    requires f.x3 + c.x2 == h.x3 + W25 * c.x3 && f.x4 + c.x3 == h.x4 + W26 * c.x4 && f.x5 + c.x4 == h.x5 + W25 * c.x5
    requires f.x6 + c.x5 == h.x6 + W26 * c.x6 && f.x7 + c.x6 == h.x7 + W25 * c.x7 && f.x8 + c.x7 == h.x8 + W26 * c.x8
    requires f.x9 + c.x8 == h.x9 + W25 * c.x9 && Masked(h, W26)
    ensures Value(f) == Value(h) + Y10 * c.x9
    ensures Masked(f, W26 + 0x1000) ==> c.x9 <= 1 && (c.x9 == 1 ==> h.x0 < 0x1000)
  {
    ValueMeans(f);
    ValueMeans(h);
    if Masked(f, W26 + 0x1000) { RunsThrough(f, h, c); }
  }

  lemma RunsThrough(f: Ten<int>, h: Ten<int>, c: Ten<int>)
    requires f.x0 == h.x0 + W26 * c.x0 && f.x1 + c.x0 == h.x1 + W25 * c.x1 && f.x2 + c.x1 == h.x2 + W26 * c.x2
    requires f.x3 + c.x2 == h.x3 + W25 * c.x3 && f.x4 + c.x3 == h.x4 + W26 * c.x4 && f.x5 + c.x4 == h.x5 + W25 * c.x5
    requires f.x6 + c.x5 == h.x6 + W26 * c.x6 && f.x7 + c.x6 == h.x7 + W25 * c.x7 && f.x8 + c.x7 == h.x8 + W26 * c.x8
    requires f.x9 + c.x8 == h.x9 + W25 * c.x9 && Masked(h, W26) && Masked(f, W26 + 0x1000)
    ensures c.x9 <= 1 && (c.x9 == 1 ==> h.x0 < 0x1000)
  {
    assert c.x0 <= 1;
    assert c.x1 <= c.x0;
    assert c.x2 <= c.x1;
    assert c.x3 <= c.x2;
    assert c.x4 <= c.x3;
    assert c.x5 <= c.x4;
    assert c.x6 <= c.x5;
    assert c.x7 <= c.x6;
    assert c.x8 <= c.x7;
    assert c.x9 <= c.x8;
  }

  /** carry_pass_full: what leaves the last limb comes back 19 times. */
  method CarryPassFull(f: Ten<u32>) returns (h: Ten<u32>, ghost c: int)
    requires Roomy(f)
    ensures Masked(h, W26 + 0x1000) && Value(h) == Value(f) - P25519 * c
    ensures Masked(f, W26 + 0x1000) ==> Masked(h, W26) && 0 <= c <= 1 && (Value(f) < Y10 <==> c == 0)
  {
    var g: Ten<u32>, out: u32 := CarryPass(f);
    h := Ten(g.x0 + 19 * out, g.x1, g.x2, g.x3, g.x4, g.x5, g.x6, g.x7, g.x8, g.x9);
    c := out;
    ValueMeans(g);
    ValueMeans(h);
    MaskedBound(g);
  }

  lemma MaskedBound(h: Ten<int>)
    requires Masked(h, W26)
    ensures 0 <= Value(h) < Y10
  {
    ValueMeans(h);
  }

  /** f[0] += 19 */
  method AddNineteen(f: Ten<u32>) returns (h: Ten<u32>)
    requires Masked(f, W26)
    ensures Masked(h, W26 + 0x1000) && Roomy(h) && Value(h) == Value(f) + 19
  {
    h := Ten(f.x0 + 19, f.x1, f.x2, f.x3, f.x4, f.x5, f.x6, f.x7, f.x8, f.x9);
    ValueMeans(f);
    ValueMeans(h);
  }

  /** Adds 2^255 - 19 limb by limb. */
  method AddPrime(f: Ten<u32>) returns (h: Ten<u32>)
    requires Masked(f, W26)
    ensures Roomy(h) && Value(h) == Value(f) + P25519
  {
    h := Ten(f.x0 + (0x400_0000 - 19), f.x1 + (0x200_0000 - 1), f.x2 + (0x400_0000 - 1), f.x3 + (0x200_0000 - 1), f.x4 + (0x400_0000 - 1),
             f.x5 + (0x200_0000 - 1), f.x6 + (0x400_0000 - 1), f.x7 + (0x200_0000 - 1), f.x8 + (0x400_0000 - 1), f.x9 + (0x200_0000 - 1));
    ValueMeans(f);
    ValueMeans(h);
  }

  /** The number modulo 2^255 - 19, for any limbs not close to 2^32. */
  method FullReduce(f: Ten<u32>) returns (h: Ten<u32>)
    requires Roomy(f)
    ensures Masked(h, W26) && Value(h) == Value(f) % P25519
  {
    ghost var c0, c1, c2: int;
    var t: Ten<u32>;
    t, c0 := CarryPassFull(f);
    t, c1 := CarryPassFull(t);
    ghost var v := Value(t);
    MaskedBound(t);
    // between 0 and 2^255 - 1; adding 19 folds exactly the numbers from 2^255 - 19 on
    t := AddNineteen(t);
    t, c2 := CarryPassFull(t);
    t := AddPrime(t);
    var out: u32;
    h, out := CarryPass(t);
    MaskedBound(h);
    LastPass(Value(f), c0 + c1, v, c2, Value(h), out);
  }

  lemma LastPass(f: int, q: int, v: int, c: int, h: int, out: int)
    requires v == f - P25519 * q && 0 <= v < Y10 && 0 <= c <= 1 && (v + 19 < Y10 <==> c == 0)
    requires v + 19 - P25519 * c + P25519 == h + Y10 * out && 0 <= h < Y10
    ensures h == f % P25519
  {
    assert out == 1;
    DivModUnique(f, q + c, h, P25519);
  }

  // ------------------------------------------------------------ bytes

  /**
   The limb f, moved up by n bits to g, is put on top of the n bits in byte s, and into the
   three bytes after it.
   */
  method Put(out: array<u8>, s: nat, g: u32, ghost n: nat, ghost p: nat, ghost q: nat, ghost f: nat)
    requires s + 4 <= out.Length && n <= 8 && p == Pow2(n) && p * q == 256 && out[s] < p && g == p * f
    modifies out
    ensures Val(out[..s + 4], 256) == old(Val(out[..s + 1], 256)) + Pow(256, s) * g
    ensures out[s + 3] == g / 0x100_0000
    ensures forall j :: 0 <= j < out.Length && !(s <= j < s + 4) ==> out[j] == old(out[j])
  {
    ghost var x, low: int := out[..s], out[s];
    var b := LowByte(out[s], g, n, p, q, f);
    ValSnoc(x, low, 256);
    assert out[..s + 1] == x + [low];
    out[s], out[s + 1], out[s + 2], out[s + 3] := b, ByteOf(g, 1), ByteOf(g, 2), ByteOf(g, 3);
    assert out[..s + 4][..s] == x;
    FourBytes(out[..s + 4], s, low, g);
  }

  /** out[s] |= g & 0xff */
  method LowByte(low: u8, g: u32, ghost n: nat, ghost p: nat, ghost q: nat, ghost f: nat) returns (b: u8)
    requires p == Pow2(n) && p * q == 256 && low < p && g == p * f
    ensures b == low + ByteOf(g, 0)
  {
    JoinByte(low, g, n, p, q, f);
    b := Or(low, ByteOf(g, 0));
  }

  lemma JoinByte(low: nat, g: nat, n: nat, p: nat, q: nat, f: nat)
    requires p == Pow2(n) && p * q == 256 && low < p && g == p * f
    ensures Or(low, g % 0x100) == low + g % 0x100 < 256
  {
    DivMod(f, q);
    Assoc(p, q, f / q);
    Distrib(p, q * (f / q), f % q);
    MulLe(p, f % q, q - 1);
    Distrib(p, q, 1);
    MulNonNegative(p, f % q);
    DivModUnique(g, f / q, p * (f % q), 0x100);
    OrDisjoint(low, f % q, n);
  }

  lemma FourBytes(b: seq<u8>, s: nat, low: int, g: u32)
    requires |b| == s + 4 && b[s] == low + ByteOf(g, 0)
    requires b[s + 1] == ByteOf(g, 1) && b[s + 2] == ByteOf(g, 2) && b[s + 3] == ByteOf(g, 3)
    ensures Val(b, 256) == Val(b[..s], 256) + Pow(256, s) * low + Pow(256, s) * g
  {
    var p, t := Pow(256, s), b[s..];
    ValSplit(b, s, 256);
    assert t[1..][1..] == t[2..] && t[2..][1..] == t[3..] && t[3..][1..] == [];
    assert Val(t, 256) == t[0] + 256 * Val(t[1..], 256);
    assert Val(t[1..], 256) == t[1] + 256 * Val(t[2..], 256);
    assert Val(t[2..], 256) == t[2] + 256 * Val(t[3..], 256);
    assert Val(t[3..], 256) == t[3] + 256 * Val([], 256);
    BytesOfWord(g);
    assert Val(t, 256) == low + g;
    Distrib(p, low, g);
  }

  /** The weight of a limb, by the byte it starts in and the bits below it there. */
  lemma Weighted(s: nat, p: int, f: int, g: int, y: int)
    requires Pow(256, s) * p == y && g == p * f
    ensures Pow(256, s) * g == y * f
  {
    Assoc(Pow(256, s), p, f);
  }

  lemma BytePowers(a: nat, b: nat, c: nat, d: nat)
    requires a == 3 && b == 4 && c == 16 && d == 12
    ensures Pow(256, 0) == 1 && Pow(256, a) * 4 == Y1 && Pow(256, 2 * a) * 8 == Y2 && Pow(256, 3 * a) * 32 == Y3
    ensures Pow(256, 4 * a) * 64 == Y4 && Pow(256, c) == Y5 && Pow(256, c + a) * 2 == Y6 && Pow(256, c + 2 * a) * 8 == Y7
    ensures Pow(256, c + 3 * a) * 16 == Y8 && Pow(256, c + d) * 64 == Y9
  {
    assert Pow(256, a) == 0x100_0000;
    assert Pow(256, b) == 0x1_0000_0000;
    PowAdd(256, a, a);
    PowAdd(256, 2 * a, a);
    PowAdd(256, 3 * a, a);
    PowAdd(256, d, b);
    PowAdd(256, c, a);
    PowAdd(256, c, 2 * a);
    PowAdd(256, c, 3 * a);
    PowAdd(256, c, d);
  }

  /** The first five limbs fill sixteen bytes. */
  method PutLow(out: array<u8>, f: Ten<u32>)
    requires out.Length == 32 && Masked(f, W26) && out[0] == 0
    modifies out
    ensures Val(out[..16], 256) == f.x0 + Y1 * f.x1 + Y2 * f.x2 + Y3 * f.x3 + Y4 * f.x4
    ensures forall j :: 16 <= j < 32 ==> out[j] == old(out[j])
  {
    BytePowers(3, 4, 16, 12);
    ShiftSizes();
    assert out[..1] == [0] && Val([0], 256) == 0;
    Put(out, 0, f.x0, 0, 1, 256, f.x0);
    Put(out, 3, f.x1 * 4, 2, 4, 64, f.x1);
    Weighted(3, 4, f.x1, f.x1 * 4, Y1);
    Put(out, 6, f.x2 * 8, 3, 8, 32, f.x2);
    Weighted(6, 8, f.x2, f.x2 * 8, Y2);
    Put(out, 9, f.x3 * 32, 5, 32, 8, f.x3);
    Weighted(9, 32, f.x3, f.x3 * 32, Y3);
    Put(out, 12, f.x4 * 64, 6, 64, 4, f.x4);
    Weighted(12, 64, f.x4, f.x4 * 64, Y4);
  }

  lemma ShiftSizes()
    ensures Pow2(0) == 1 && Pow2(1) == 2 && Pow2(2) == 4 && Pow2(3) == 8 && Pow2(4) == 16 && Pow2(5) == 32 && Pow2(6) == 64
  {}

  /** The other five limbs fill the other sixteen. */
  method PutHigh(out: array<u8>, f: Ten<u32>)
    requires out.Length == 32 && Masked(f, W26) && out[16] == 0
    modifies out
    ensures Val(out[..], 256) == old(Val(out[..16], 256)) + Y5 * f.x5 + Y6 * f.x6 + Y7 * f.x7 + Y8 * f.x8 + Y9 * f.x9
  {
    BytePowers(3, 4, 16, 12);
    ShiftSizes();
    assert out[..17] == out[..16] + [0];
    ValSnoc(out[..16], 0, 256);
    Put(out, 16, f.x5, 0, 1, 256, f.x5);
    Put(out, 19, f.x6 * 2, 1, 2, 128, f.x6);
    Weighted(19, 2, f.x6, f.x6 * 2, Y6);
    Put(out, 22, f.x7 * 8, 3, 8, 32, f.x7);
    Weighted(22, 8, f.x7, f.x7 * 8, Y7);
    Put(out, 25, f.x8 * 16, 4, 16, 16, f.x8);
    Weighted(25, 16, f.x8, f.x8 * 16, Y8);
    Put(out, 28, f.x9 * 64, 6, 64, 4, f.x9);
    Weighted(28, 64, f.x9, f.x9 * 64, Y9);
    assert out[..32] == out[..];
  }

  /** curve25519_contract: the little-endian bytes of the number modulo 2^255 - 19. */
  method Contract(out: array<u8>, a: array<u32>)
    requires out.Length == 32 && a.Length == 10 && Roomy(Of(a))
    modifies out
    ensures Val(out[..], 256) == Value(Of(a)) % P25519
  {
    var f := FullReduce(Of(a));
    out[0], out[16] := 0, 0;
    PutLow(out, f);
    PutHigh(out, f);
    ValueMeans(f);
  }

  // ------------------------------------------------------------ from bytes

  /** (((hi << 32) | lo) >> bits) & mask, where q is the power of two of the bits and m of the mask. */
  method Window(lo: u32, hi: u32, q: u32, m: u32, ghost u: nat, ghost k: nat) returns (l: u32)
    requires q > 0 && k > 0 && q * u == WORD32 && m == u * k
    ensures l == lo / q + u * (hi % k) && l < m
  {
    var t: u64 := (hi as u64) * 0x1_0000_0000 + lo;
    WindowParts(lo, hi, q, m, u, k);
    l := t / q % m;
  }

  lemma WindowParts(lo: nat, hi: nat, q: nat, m: nat, u: nat, k: nat)
    requires lo < WORD32 && q > 0 && k > 0 && q * u == WORD32 && m == u * k
    ensures m > 0 && (hi * WORD32 + lo) / q % m == lo / q + u * (hi % k) < m
  {
    MulPositive(u, k);
    DivMod(lo, q);
    DivBounds(lo, q, u);
    DivBounds(lo, q, 0);
    assert q * (lo / q + u * hi) == q * (lo / q) + hi * WORD32 by {
      Distrib(q, lo / q, u * hi);
      Assoc(q, u, hi);
    }
    DivModUnique(hi * WORD32 + lo, lo / q + u * hi, lo % q, q);
    DivMod(hi, k);
    assert u * hi == m * (hi / k) + u * (hi % k) by {
      Distrib(u, k * (hi / k), hi % k);
      Assoc(u, k, hi / k);
    }
    MulLe(u, hi % k, k - 1);
    Distrib(u, k, 1);
    MulNonNegative(u, hi % k);
    DivModUnique(lo / q + u * hi, hi / k, lo / q + u * (hi % k), m);
  }

  lemma Expanded(x: seq<int>, h: Ten<int>)
    requires |x| == 8 && (forall i :: 0 <= i < 8 ==> 0 <= x[i] < WORD32)
    requires h.x0 == x[0] % 0x400_0000 && h.x1 == x[0] / 0x400_0000 + 0x40 * (x[1] % 0x8_0000)
    requires h.x2 == x[1] / 0x8_0000 + 0x2000 * (x[2] % 0x2000) && h.x3 == x[2] / 0x2000 + 0x8_0000 * (x[3] % 0x40)
    requires h.x4 == x[3] / 0x40 && h.x5 == x[4] % 0x200_0000 && h.x6 == x[4] / 0x200_0000 + 0x80 * (x[5] % 0x8_0000)
    requires h.x7 == x[5] / 0x8_0000 + 0x2000 * (x[6] % 0x1000) && h.x8 == x[6] / 0x1000 + 0x10_0000 * (x[7] % 0x40)
    requires h.x9 == x[7] / 0x40 % 0x200_0000
    ensures Val(x, WORD32) == Value(h) + Y10 * (x[7] / 0x40 / 0x200_0000)
  {
    EightWords(x);
    ValueMeans(h);
    DivMod(x[0], 0x400_0000);
    DivMod(x[1], 0x8_0000);
    DivMod(x[2], 0x2000);
    DivMod(x[3], 0x40);
    DivMod(x[4], 0x200_0000);
    DivMod(x[5], 0x8_0000);
    DivMod(x[6], 0x1000);
    DivMod(x[7], 0x40);
    DivMod(x[7] / 0x40, 0x200_0000);
  }

  lemma EightWords(x: seq<int>)
    requires |x| == 8
    ensures Val(x, WORD32) == x[0] + 0x1_0000_0000 * x[1] + 0x1_0000_0000_0000_0000 * x[2] + 0x1_0000_0000_0000_0000_0000_0000 * x[3]
      + 0x1_0000_0000_0000_0000_0000_0000_0000_0000 * x[4] + 0x1_0000_0000_0000_0000_0000_0000_0000_0000_0000_0000 * x[5]
      + 0x1_0000_0000_0000_0000_0000_0000_0000_0000_0000_0000_0000_0000 * x[6]
      + 0x1_0000_0000_0000_0000_0000_0000_0000_0000_0000_0000_0000_0000_0000_0000 * x[7]
  {
    ValSplit(x, 4, WORD32);
    FourWords(x[..4]);
    FourWords(x[4..]);
    assert Pow(WORD32, 4) == 0x1_0000_0000_0000_0000_0000_0000_0000_0000;
  }

  /** curve25519_expand: the limbs of the number, without its top bit. */
  method Expand(out: array<u32>, input: seq<u8>)
    requires out.Length == 10 && |input| == 32
    modifies out
    ensures Masked(Of(out), W26) && Value(Of(out)) == Val(input, 256) % Y10
  {
    var x: seq<u32> := seq(8, i requires 0 <= i < 8 && |input| == 32 => Word(input, 4 * i));
    WordsOfBytes(input, x);
    var h0: u32 := x[0] % 0x400_0000;
    var h1 := Window(x[0], x[1], 0x400_0000, 0x200_0000, 0x40, 0x8_0000);
    var h2 := Window(x[1], x[2], 0x8_0000, 0x400_0000, 0x2000, 0x2000);
    var h3 := Window(x[2], x[3], 0x2000, 0x200_0000, 0x8_0000, 0x40);
    var h4: u32 := x[3] / 0x40 % 0x400_0000;
    var h5: u32 := x[4] % 0x200_0000;
    var h6 := Window(x[4], x[5], 0x200_0000, 0x400_0000, 0x80, 0x8_0000);
    var h7 := Window(x[5], x[6], 0x8_0000, 0x200_0000, 0x2000, 0x1000);
    var h8 := Window(x[6], x[7], 0x1000, 0x400_0000, 0x10_0000, 0x40);
    var h9: u32 := x[7] / 0x40 % 0x200_0000;
    var h := Ten(h0, h1, h2, h3, h4, h5, h6, h7, h8, h9);
    Fourth(x[3], h4);
    Expanded(x, h);
    MaskedBound(h);
    DivModUnique(Val(input, 256), x[7] / 0x40 / 0x200_0000, Value(h), Y10);
    Store(out, h);
  }

  lemma Fourth(x: u32, h: int)
    requires h == x / 0x40 % 0x400_0000
    ensures h == x / 0x40
  {
    DivBounds(x, 0x40, 0x400_0000);
    DivBounds(x, 0x40, 0);
    DivModUnique(x / 0x40, 0, x / 0x40, 0x400_0000);
  }
}
