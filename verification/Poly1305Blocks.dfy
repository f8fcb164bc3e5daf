/** Between the bytes of Poly1305 and its limbs of 26 bits. */
module Poly1305Blocks {
  import opened Arith
  import opened Words
  import opened Limbs
  import opened Powers
  import opened LittleEndian
  import opened Poly1305Spec
  import opened Poly1305Limbs

  // ------------------------------------------------------------ sixteen bytes

  /** The four bytes at i, less their low s bits and what is above 26 bits after that. */
  function Cut(b: seq<u8>, i: nat, q: nat): int
    requires i + 4 <= |b| && q > 0
  {
    Word(b, i) / q % X1
  }

  lemma WordParts(x: int, lo: int, b1: int, b2: int, hi: int, q: int, t: int, u: int, v: int, w: int)
    requires x == lo + 0x100 * b1 + 0x1_0000 * b2 + 0x100_0000 * hi
    requires 0 <= lo < 256 && 0 <= b1 < 256 && 0 <= b2 < 256 && 0 <= hi < 256
    requires q > 0 && t > 0 && q * u == 0x100 && q * v == 0x1_0000 && q * w == 0x100_0000 && w * t == X1
    requires lo / q + u * b1 + v * b2 + w * (hi % t) < X1 && u > 0 && v > 0 && w > 0
    ensures x / q % X1 == lo / q + u * b1 + v * b2 + w * (hi % t)
  {
    DivMod(lo, q);
    DivMod(hi, t);
    var y := lo / q + u * b1 + v * b2 + w * hi;
    assert q * y == q * (lo / q) + 0x100 * b1 + 0x1_0000 * b2 + 0x100_0000 * hi by {
      Distrib(q, lo / q + u * b1 + v * b2, w * hi);
      Distrib(q, lo / q + u * b1, v * b2);
      Distrib(q, lo / q, u * b1);
      Assoc(q, u, b1);
      Assoc(q, v, b2);
      Assoc(q, w, hi);
    }
    DivModUnique(x, y, lo % q, q);
    assert w * hi == X1 * (hi / t) + w * (hi % t) by {
      Distrib(w, t * (hi / t), hi % t);
      Assoc(w, t, hi / t);
    }
    Nonnegative(lo, b1, b2, hi, q, t, u, v, w);
    DivModUnique(y, hi / t, lo / q + u * b1 + v * b2 + w * (hi % t), X1);
  }

  lemma Nonnegative(lo: int, b1: int, b2: int, hi: int, q: int, t: int, u: int, v: int, w: int)
    requires 0 <= lo && 0 <= b1 && 0 <= b2 && q > 0 && t > 0 && u > 0 && v > 0 && w > 0
    ensures 0 <= lo / q + u * b1 + v * b2 + w * (hi % t)
  {
    DivBounds(lo, q, 0);
    MulNonNegative(u, b1);
    MulNonNegative(v, b2);
    DivMod(hi, t);
    MulNonNegative(w, hi % t);
  }

  /** One cut, in terms of its four bytes. */
  lemma CutParts(b: seq<u8>, c: seq<int>, i: nat, q: int, t: int, u: int, v: int, w: int)
    requires c == b && i + 4 <= |b| && q > 0 && t > 0 && u > 0 && v > 0 && w > 0
    requires q * u == 0x100 && q * v == 0x1_0000 && q * w == 0x100_0000 && w * t == X1
    requires c[i] / q + u * c[i + 1] + v * c[i + 2] + w * (c[i + 3] % t) < X1
    ensures Cut(b, i, q) == c[i] / q + u * c[i + 1] + v * c[i + 2] + w * (c[i + 3] % t)
  {
    WordParts(Word(b, i), c[i], c[i + 1], c[i + 2], c[i + 3], q, t, u, v, w);
  }

  lemma Cuts(b: seq<u8>, c: seq<int>)
    requires c == b && |b| == 16
    ensures Cut(b, 0, 1) == c[0] + 0x100 * c[1] + 0x1_0000 * c[2] + 0x100_0000 * (c[3] % 4)
    ensures Cut(b, 3, 4) == c[3] / 4 + 0x40 * c[4] + 0x4000 * c[5] + 0x40_0000 * (c[6] % 16)
    ensures Cut(b, 6, 16) == c[6] / 16 + 0x10 * c[7] + 0x1000 * c[8] + 0x10_0000 * (c[9] % 64)
    ensures Cut(b, 9, 64) == c[9] / 64 + 4 * c[10] + 0x400 * c[11] + 0x4_0000 * c[12]
    ensures Cut(b, 12, 256) == c[13] + 0x100 * c[14] + 0x1_0000 * c[15]
  {
    assert forall i :: 0 <= i < 16 ==> 0 <= c[i] < 256;
    CutParts(b, c, 0, 1, 4, 0x100, 0x1_0000, 0x100_0000);
    CutParts(b, c, 3, 4, 16, 0x40, 0x4000, 0x40_0000);
    CutParts(b, c, 6, 16, 64, 0x10, 0x1000, 0x10_0000);
    CutParts(b, c, 9, 64, 256, 4, 0x400, 0x4_0000);
    CutParts(b, c, 12, 256, 1024, 1, 0x100, 0x1_0000);
  }

  /** The five cuts are the bits of the sixteen bytes. */
  lemma CutsValue(b: seq<u8>)
    requires |b| == 16
    ensures Value(Five(Cut(b, 0, 1), Cut(b, 3, 4), Cut(b, 6, 16), Cut(b, 9, 64), Cut(b, 12, 256))) == Val(b, 256)
    ensures 0 <= Cut(b, 12, 256) < 0x100_0000
  {
    var x: seq<u32> := seq(4, j requires 0 <= j < 4 && |b| == 16 => Word(b, 4 * j));
    WordsOfBytes(b, x);
    FourWords(x);
    Cuts(b, b);
    Regrouped(b[0], b[1], b[2], b[3], b[4], b[5], b[6], b[7], b[8], b[9], b[10], b[11], b[12], b[13], b[14], b[15],
              x[0], x[1], x[2], x[3]);
  }

  lemma Regrouped(b0: int, b1: int, b2: int, b3: int, b4: int, b5: int, b6: int, b7: int, b8: int, b9: int,
                  b10: int, b11: int, b12: int, b13: int, b14: int, b15: int, x0: int, x1: int, x2: int, x3: int)
    requires x0 == b0 + 0x100 * b1 + 0x1_0000 * b2 + 0x100_0000 * b3
    requires x1 == b4 + 0x100 * b5 + 0x1_0000 * b6 + 0x100_0000 * b7
    requires x2 == b8 + 0x100 * b9 + 0x1_0000 * b10 + 0x100_0000 * b11
    requires x3 == b12 + 0x100 * b13 + 0x1_0000 * b14 + 0x100_0000 * b15
    ensures Value(Five(b0 + 0x100 * b1 + 0x1_0000 * b2 + 0x100_0000 * (b3 % 4),
                       b3 / 4 + 0x40 * b4 + 0x4000 * b5 + 0x40_0000 * (b6 % 16),
                       b6 / 16 + 0x10 * b7 + 0x1000 * b8 + 0x10_0000 * (b9 % 64),
                       b9 / 64 + 4 * b10 + 0x400 * b11 + 0x4_0000 * b12,
                       b13 + 0x100 * b14 + 0x1_0000 * b15))
         == x0 + WORD32 * x1 + 0x1_0000_0000_0000_0000 * x2 + 0x1_0000_0000_0000_0000_0000_0000 * x3
  {
    DivMod(b3, 4);
    DivMod(b6, 16);
    DivMod(b9, 64);
  }

  // ------------------------------------------------------------ one block

  lemma Masked26(x: u32, n: nat)
    requires n == 26
    ensures And(x, 0x3ff_ffff) == x % X1
  {
    assert Pow2(n) == X1 by {
      Pow2Literals();
      Pow2Add(n, 4);
      assert Pow2(4) == 16;
    }
    AndMask(x, n);
  }

  /** (U8TO32(b + i) >> s) & 0x3ffffff */
  method Limb(b: seq<u8>, i: nat, s: nat, ghost q: nat) returns (l: u32)
    requires i + 4 <= |b| && q == Pow2(s)
    ensures l == Cut(b, i, q) && l < X1
  {
    Shr32Value(Word(b, i), s);
    l := Shr32(Word(b, i), s);
    Masked26(l, 26);
    l := And(l, 0x3ff_ffff);
  }

  /** The high bit is above the 24 bits of the last three bytes. */
  lemma HighBit(x: u32, hibit: u32, n: nat)
    requires n == 24 && x < 0x100_0000 && (hibit == 0 || hibit == 0x100_0000)
    ensures Or(x, hibit) == x + hibit
  {
    assert Pow2(n) == 0x100_0000 by { Pow2Literals(); Pow2Add(8, 16); }
    if hibit == 0 { assert Or(x, 0) == x; } else { OrDisjoint(x, 1, n); }
  }

  /** h += m[i] */
  method AddBlock(h: Five<u32>, b: seq<u8>, final: bool) returns (h': Five<u32>)
    requires |b| == 16 && Partly(h)
    ensures h'.x0 <= TOP && h'.x1 <= TOP && h'.x2 <= TOP && h'.x3 <= TOP && h'.x4 <= TOP
    ensures Value(h') == Value(h) + Val(b, 256) + (if final then 0 else TWO128)
  {
    var hibit: u32 := if final then 0 else 0x100_0000;
    PowersOfFour();
    var l0 := Limb(b, 0, 0, 1);
    var l1 := Limb(b, 3, 2, 4);
    var l2 := Limb(b, 6, 4, 16);
    var l3 := Limb(b, 9, 6, 64);
    Shr32Value(Word(b, 12), 8);
    var l4 := Shr32(Word(b, 12), 8);
    CutsValue(b);
    LastCut(Word(b, 12));
    HighBit(l4, hibit, 24);
    l4 := Or(l4, hibit);
    h' := Five(h.x0 + l0, h.x1 + l1, h.x2 + l2, h.x3 + l3, h.x4 + l4);
  }

  lemma PowersOfFour()
    ensures Pow2(0) == 1 && Pow2(2) == 4 && Pow2(4) == 16 && Pow2(6) == 64 && Pow2(8) == 256
  {}

  lemma LastCut(w: u32)
    ensures w / 256 % X1 == w / 256
  {
    DivBounds(w, 256, X1);
    DivBounds(w, 256, 0);
    DivModUnique(w / 256, 0, w / 256, X1);
  }
}
