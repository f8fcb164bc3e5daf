/** The end of Poly1305: full reduction, and the sum with the second half of the key. */
module Poly1305Tag {
  import opened Arith
  import opened Modular
  import opened Words
  import opened Limbs
  import opened LittleEndian
  import opened Poly1305Spec
  import opened Poly1305Limbs
  import B = Bignum

  // ------------------------------------------------------------ reduction

  /** One pass of carries from the second limb on leaves all limbs below 2^26. */
  method FullCarry(h: Five<u32>) returns (h': Five<u32>)
    requires Partly(h)
    ensures Small(h') && Cong(Value(h'), Value(h), P1305)
  {
    var h1, c1 := Carry(h.x1, 0, 2);
    var h2, c2 := Carry(h.x2, c1, 2);
    var h3, c3 := Carry(h.x3, c2, 2);
    var h4, c4 := Carry(h.x4, c3, 2);
    var h0, e := Carry(h.x0, c4 * 5, 2);
    NoOverflow(h, h1, h2, h3, h4, c1, c2, c3, c4, h0, e);
    Carried(h, Five(h.x0, h1, h2, h3, h4), 0, c1, c2, c3, c4, h0, e);
    CongByMultiple(Value(Five(h0, h1 + e, h2, h3, h4)), Value(h), P1305, -(c4 as int));
    h' := Five(h0, h1 + e, h2, h3, h4);
  }

  /** If the second limb carries it becomes small; if not, no limb does. */
  lemma NoOverflow(h: Five<int>, h1: int, h2: int, h3: int, h4: int, c1: int, c2: int, c3: int, c4: int, h0: int, e: int)
    requires h.x0 < X1 && h.x1 < X1 + 0x40 && h.x2 < X1 && h.x3 < X1 && h.x4 < X1
    requires 0 <= h1 < X1 && 0 <= h2 && 0 <= h3 && 0 <= h4 && 0 <= h0
    requires 0 <= c1 < 2 && 0 <= c2 < 2 && 0 <= c3 < 2 && 0 <= c4 < 2 && 0 <= e < 2
    requires h.x1 == h1 + X1 * c1 && h.x2 + c1 == h2 + X1 * c2 && h.x3 + c2 == h3 + X1 * c3
    requires h.x4 + c3 == h4 + X1 * c4 && h.x0 + c4 * 5 == h0 + X1 * e
    ensures h1 + e < X1
  {
    if c1 == 0 { assert c2 == 0 && c3 == 0 && c4 == 0 && e == 0; } else { assert h1 < 0x40; }
  }

  /** h + 5 reaches 2^130 exactly when h is at least p, and then leaves h - p. */
  lemma PlusFive(h: Five<int>, g: Five<int>, c0: int, c1: int, c2: int, c3: int)
    requires 0 <= g.x0 < X1 && 0 <= g.x1 < X1 && 0 <= g.x2 < X1 && 0 <= g.x3 < X1
    requires h.x0 + 5 == g.x0 + X1 * c0 && h.x1 + c0 == g.x1 + X1 * c1 && h.x2 + c1 == g.x2 + X1 * c2
    requires h.x3 + c2 == g.x3 + X1 * c3 && h.x4 + c3 == g.x4 + X1
    ensures Value(g) == Value(h) - P1305 && (Value(h) >= P1305 <==> g.x4 >= 0)
  {}

  lemma SmallValue(h: Five<int>)
    requires 0 <= h.x0 < X1 && 0 <= h.x1 < X1 && 0 <= h.x2 < X1 && 0 <= h.x3 < X1 && 0 <= h.x4 < X1
    ensures 0 <= Value(h) < X5
  {}

  /** h := h mod p */
  method FullReduce(h: Five<u32>) returns (h': Five<u32>)
    requires Small(h)
    ensures Small(h') && Value(h') == Value(h) % P1305
  {
    var g0, c0 := Carry(h.x0, 5, 2);
    var g1, c1 := Carry(h.x1, c0, 2);
    var g2, c2 := Carry(h.x2, c1, 2);
    var g3, c3 := Carry(h.x3, c2, 2);
    // unsigned: wraps when h is below p
    var g4: u32 := (h.x4 + c3 + (WORD32 - X1)) % WORD32;
    ghost var d: int := h.x4 + c3 - X1;
    PlusFive(h, Five(g0, g1, g2, g3, d), c0, c1, c2, c3);
    SmallValue(h);
    var above := g4 < 0x8000_0000;
    Wrapped(d, g4);
    DivModUnique(Value(h), if above then 1 else 0, if above then Value(h) - P1305 else Value(h), P1305);
    h' := Choose(above, h, Five(g0, g1, g2, g3, g4));
  }

  lemma Wrapped(d: int, g: u32)
    requires -X1 <= d <= 0 && g == (d + WORD32) % WORD32
    ensures d >= 0 <==> g < 0x8000_0000
    ensures d >= 0 ==> g == 0 && d == 0
  {
    if d == 0 { DivModUnique(d + WORD32, 1, 0, WORD32); } else { DivModUnique(d + WORD32, 0, d + WORD32, WORD32); }
  }

  /** g where above, otherwise h, by masks. */
  method Choose(above: bool, h: Five<u32>, g: Five<u32>) returns (r: Five<u32>)
    ensures r == if above then g else h
  {
    var mask, unmask := B.Mask(above), B.Mask(!above);
    B.Select(h.x0, g.x0, !above);
    B.Select(h.x1, g.x1, !above);
    B.Select(h.x2, g.x2, !above);
    B.Select(h.x3, g.x3, !above);
    B.Select(h.x4, g.x4, !above);
    r := Five(Or(And(h.x0, unmask), And(g.x0, mask)), Or(And(h.x1, unmask), And(g.x1, mask)),
              Or(And(h.x2, unmask), And(g.x2, mask)), Or(And(h.x3, unmask), And(g.x3, mask)),
              Or(And(h.x4, unmask), And(g.x4, mask)));
  }

  // ------------------------------------------------------------ words

  /** a | (b << n), for a of n bits: the low bits of b are put on top of a. */
  method JoinBits(a: u32, b: u32, n: nat, ghost p: nat, ghost q: nat) returns (w: u32)
    requires n <= 32 && p == Pow2(n) && q == Pow2(32 - n) && a < p && p * q == WORD32
    ensures w == a + p * (b % q)
  {
    Shl32Value(b, n);
    DivMod(b, q);
    OrDisjoint(a, b % q, n);
    MulLe(p, b % q, q - 1);
    Distrib(p, q, 1);
    w := Or(a, Shl32(b, n));
  }

  method HighBits(h: u32, n: nat, ghost p: nat) returns (r: u32)
    requires p == Pow2(n)
    ensures r == h / p
  {
    Shr32Value(h, n);
    r := Shr32(h, n);
  }

  lemma ShiftPowers()
    ensures Pow2(26) == X1 && Pow2(6) == 0x40 && Pow2(20) == 0x10_0000 && Pow2(12) == 0x1000
    ensures Pow2(14) == 0x4000 && Pow2(18) == 0x4_0000 && Pow2(8) == 0x100 && Pow2(24) == 0x100_0000
  {
    Pow2Add(6, 6);
    Pow2Add(6, 8);
    Pow2Add(6, 12);
    Pow2Add(6, 14);
    Pow2Add(6, 18);
    Pow2Add(6, 20);
  }

  /** The limbs of a reduced number as four words, modulo 2^128. */
  method Pack(h: Five<u32>) returns (w0: u32, w1: u32, w2: u32, w3: u32)
    requires Small(h)
    ensures Val([w0, w1, w2, w3], WORD32) == Value(h) % TWO128
  {
    ShiftPowers();
    w0 := JoinBits(h.x0, h.x1, 26, X1, 0x40);
    var t1 := HighBits(h.x1, 6, 0x40);
    w1 := JoinBits(t1, h.x2, 20, 0x10_0000, 0x1000);
    var t2 := HighBits(h.x2, 12, 0x1000);
    w2 := JoinBits(t2, h.x3, 14, 0x4000, 0x4_0000);
    var t3 := HighBits(h.x3, 18, 0x4_0000);
    w3 := JoinBits(t3, h.x4, 8, 0x100, 0x100_0000);
    Packed(h, w0, w1, w2, w3);
  }

  lemma Packed(h: Five<int>, w0: int, w1: int, w2: int, w3: int)
    requires 0 <= w0 < WORD32 && 0 <= w1 < WORD32 && 0 <= w2 < WORD32 && 0 <= w3 < WORD32
    requires w0 == h.x0 + X1 * (h.x1 % 0x40) && w1 == h.x1 / 0x40 + 0x10_0000 * (h.x2 % 0x1000)
    requires w2 == h.x2 / 0x1000 + 0x4000 * (h.x3 % 0x4_0000) && w3 == h.x3 / 0x4_0000 + 0x100 * (h.x4 % 0x100_0000)
    ensures Val([w0, w1, w2, w3], WORD32) == Value(h) % TWO128
  {
    FourWords([w0, w1, w2, w3]);
    DivMod(h.x1, 0x40);
    DivMod(h.x2, 0x1000);
    DivMod(h.x3, 0x4_0000);
    DivMod(h.x4, 0x100_0000);
    DivModUnique(Value(h), h.x4 / 0x100_0000, Val([w0, w1, w2, w3], WORD32), TWO128);
  }

  // ------------------------------------------------------------ the tag

  /** f = h + pad + (f >> 32); h = f */
  method AddWord(h: u32, pad: u32, c: u32) returns (w: u32, c': u32)
    requires c <= 1
    ensures h + pad + c == w + WORD32 * c' && c' <= 1
  {
    var f: u64 := (h as u64) + (pad as u64) + (c as u64);
    DivMod(f, WORD32);
    w, c' := f % WORD32, f / WORD32;
  }

  /** The number that four words make. */
  function Quad(w0: int, w1: int, w2: int, w3: int): int {
    w0 + WORD32 * w1 + 0x1_0000_0000_0000_0000 * w2 + 0x1_0000_0000_0000_0000_0000_0000 * w3
  }

  lemma WordsAdded(h0: int, h1: int, h2: int, h3: int, p0: int, p1: int, p2: int, p3: int, w0: int, w1: int, w2: int, w3: int,
                   c0: int, c1: int, c2: int, c3: int)
    requires 0 <= w0 < WORD32 && 0 <= w1 < WORD32 && 0 <= w2 < WORD32 && 0 <= w3 < WORD32
    requires h0 + p0 == w0 + WORD32 * c0 && h1 + p1 + c0 == w1 + WORD32 * c1
    requires h2 + p2 + c1 == w2 + WORD32 * c2 && h3 + p3 + c2 == w3 + WORD32 * c3
    ensures Quad(w0, w1, w2, w3) == (Quad(h0, h1, h2, h3) + Quad(p0, p1, p2, p3)) % TWO128
  {
    DivModUnique(Quad(h0, h1, h2, h3) + Quad(p0, p1, p2, p3), c3, Quad(w0, w1, w2, w3), TWO128);
  }

  /** U32TO8 */
  method StoreWord(mac: array<u8>, i: nat, v: u32)
    requires i + 4 <= mac.Length
    modifies mac
    ensures Word(mac[..], i) == v
    ensures forall j :: 0 <= j < mac.Length && !(i <= j < i + 4) ==> mac[j] == old(mac[j])
  {
    BytesOfWord(v);
    mac[i] := ByteOf(v, 0);
    mac[i + 1] := ByteOf(v, 1);
    mac[i + 2] := ByteOf(v, 2);
    mac[i + 3] := ByteOf(v, 3);
  }

  /** mac = (h + pad) % (2^128) */
  method WriteTag(h: Five<u32>, pad: seq<u32>, mac: array<u8>)
    requires Small(h) && |pad| == 4 && mac.Length == 16
    modifies mac
    ensures Val(mac[..], 256) == (Value(h) + Val(pad, WORD32)) % TWO128
  {
    var h0, h1, h2, h3 := Pack(h);
    FourWords([h0, h1, h2, h3]);
    FourWords(pad);
    var w0, c0 := AddWord(h0, pad[0], 0);
    var w1, c1 := AddWord(h1, pad[1], c0);
    var w2, c2 := AddWord(h2, pad[2], c1);
    var w3, c3 := AddWord(h3, pad[3], c2);
    ghost var w: seq<u32> := [w0, w1, w2, w3];
    FourWords(w);
    WordsAdded(h0, h1, h2, h3, pad[0], pad[1], pad[2], pad[3], w0, w1, w2, w3, c0, c1, c2, c3);
    SumModulo(Value(h), Val(pad, WORD32));
    StoreWord(mac, 0, w0);
    StoreWord(mac, 4, w1);
    StoreWord(mac, 8, w2);
    StoreWord(mac, 12, w3);
    WordsOfBytes(mac[..], w);
  }

  lemma SumModulo(a: int, b: int)
    ensures (a % TWO128 + b) % TWO128 == (a + b) % TWO128
  {
    DivMod(a, TWO128);
    DivMod(a % TWO128 + b, TWO128);
    DivModUnique(a + b, a / TWO128 + (a % TWO128 + b) / TWO128, (a % TWO128 + b) % TWO128, TWO128);
  }
}
