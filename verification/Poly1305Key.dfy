/** The multiplier of Poly1305: the first half of the key, with some bits cleared. */
module Poly1305Key {
  import opened Arith
  import opened Words
  import opened Limbs
  import opened LittleEndian
  import opened Poly1305Spec
  import opened Poly1305Limbs
  import opened Poly1305Blocks

  // ------------------------------------------------------------ masks

  /** The low n bits of a number and of a mask, r and lo, and the others, q and hi, meet separately. */
  lemma {:induction false} AndSplit(x: nat, q: nat, r: nat, m: nat, hi: nat, lo: nat, n: nat, p: nat)
    requires p == Pow2(n) && x == p * q + r && r < p && m == p * hi + lo && lo < p
    ensures And(x, m) == And(r, lo) + p * And(q, hi)
    decreases n
  {
    if n > 0 {
      var h := Pow2(n - 1);
      HalfOfSum(r, q, p, h, x);
      HalfOfSum(lo, hi, p, h, m);
      AndSplit(x / 2, q, r / 2, m / 2, hi, lo / 2, n - 1, h);
      AndHalf(x, m);
      AndHalf(r, lo);
      Assoc(2, h, And(q, hi));
    }
  }

  lemma AndHalf(a: nat, b: nat)
    ensures And(a, b) == 2 * And(a / 2, b / 2) + (if a % 2 == 1 && b % 2 == 1 then 1 else 0)
  {}

  /** A mask of a bits, and of d bits from bit c on. */
  lemma TwoFields(x: nat, q: nat, r: nat, mask: nat, a: nat, c: nat, d: nat, pa: nat, pc: nat, pd: nat)
    requires a <= c && pa == Pow2(a) && pc == Pow2(c) && pd == Pow2(d) && mask == pc * (pd - 1) + (pa - 1)
    requires x == pc * q + r && r < pc
    ensures And(x, mask) == r % pa + pc * (q % pd)
  {
    Pow2Monotone(a, c);
    AndSplit(x, q, r, mask, pd - 1, pa - 1, c, pc);
    AndMask(r, a);
    AndMask(q, d);
  }

  // ------------------------------------------------------------ the limbs

  lemma MaskPowers()
    ensures Pow2(2) == 4 && Pow2(6) == 0x40 && Pow2(8) == 0x100 && Pow2(12) == 0x1000 && Pow2(14) == 0x4000
    ensures Pow2(18) == 0x4_0000 && Pow2(20) == 0x10_0000
  {
    Pow2Add(6, 6);
    Pow2Add(6, 8);
    Pow2Add(6, 12);
    Pow2Add(6, 14);
  }

  lemma Limb1(b3: int, b4: int, b5: int, b6: int, w: int)
    requires 0 <= b3 < 256 && 0 <= b4 < 256 && 0 <= b5 < 256 && 0 <= b6 < 256
    requires w == b3 + 0x100 * b4 + 0x1_0000 * b5 + 0x100_0000 * b6
    ensures w / 4 >= 0 && And(w / 4, 0x3ff_ff03) == b3 % 16 / 4 + 0x40 * (b4 - b4 % 4) + 0x4000 * b5 + 0x40_0000 * (b6 % 16)
  {
    var y := b3 / 4 + 0x40 * b4 + 0x4000 * b5 + 0x40_0000 * b6;
    DivModUnique(w, y, b3 % 4, 4);
    var z, r := b4 / 4 + 0x40 * b5 + 0x4000 * b6, b3 / 4 + 0x40 * (b4 % 4);
    MaskPowers();
    TwoFields(y, z, r, 0x3ff_ff03, 2, 8, 18, 4, 0x100, 0x4_0000);
    DivModUnique(z, b6 / 16, b4 / 4 + 0x40 * b5 + 0x4000 * (b6 % 16), 0x4_0000);
    DivModUnique(r, b3 / 16 + 0x10 * (b4 % 4), b3 % 16 / 4, 4);
  }

  lemma Limb2(b6: int, b7: int, b8: int, b9: int, w: int)
    requires 0 <= b6 < 256 && 0 <= b7 < 256 && 0 <= b8 < 256 && 0 <= b9 < 256
    requires w == b6 + 0x100 * b7 + 0x1_0000 * b8 + 0x100_0000 * b9
    ensures w / 16 >= 0 && And(w / 16, 0x3ff_c0ff) == b6 / 16 + 0x10 * (b7 % 16) + 0x1000 * (b8 - b8 % 4) + 0x10_0000 * (b9 % 64)
  {
    var y := b6 / 16 + 0x10 * b7 + 0x1000 * b8 + 0x10_0000 * b9;
    DivModUnique(w, y, b6 % 16, 16);
    var z, r := b8 / 4 + 0x40 * b9, b6 / 16 + 0x10 * b7 + 0x1000 * (b8 % 4);
    MaskPowers();
    TwoFields(y, z, r, 0x3ff_c0ff, 8, 14, 12, 0x100, 0x4000, 0x1000);
    DivModUnique(z, b9 / 64, b8 / 4 + 0x40 * (b9 % 64), 0x1000);
    DivModUnique(r, b7 / 16 + 0x10 * (b8 % 4), b6 / 16 + 0x10 * (b7 % 16), 0x100);
  }

  lemma Limb3(b9: int, b10: int, b11: int, b12: int, w: int)
    requires 0 <= b9 < 256 && 0 <= b10 < 256 && 0 <= b11 < 256 && 0 <= b12 < 256
    requires w == b9 + 0x100 * b10 + 0x1_0000 * b11 + 0x100_0000 * b12
    ensures w / 64 >= 0 && And(w / 64, 0x3f0_3fff) == b9 / 64 + 4 * b10 + 0x400 * (b11 % 16) + 0x4_0000 * (b12 - b12 % 4)
  {
    var y := b9 / 64 + 4 * b10 + 0x400 * b11 + 0x4_0000 * b12;
    DivModUnique(w, y, b9 % 64, 64);
    var z, r := b12 / 4, b9 / 64 + 4 * b10 + 0x400 * b11 + 0x4_0000 * (b12 % 4);
    MaskPowers();
    TwoFields(y, z, r, 0x3f0_3fff, 14, 20, 6, 0x4000, 0x10_0000, 0x40);
    DivModUnique(z, 0, z, 0x40);
    DivModUnique(r, b11 / 16 + 0x10 * (b12 % 4), b9 / 64 + 4 * b10 + 0x400 * (b11 % 16), 0x4000);
  }

  lemma Limb4(b12: int, b13: int, b14: int, b15: int, w: int, n: nat)
    requires 0 <= b12 < 256 && 0 <= b13 < 256 && 0 <= b14 < 256 && 0 <= b15 < 256 && n == 20
    requires w == b12 + 0x100 * b13 + 0x1_0000 * b14 + 0x100_0000 * b15
    ensures w / 256 >= 0 && And(w / 256, 0xf_ffff) == b13 + 0x100 * b14 + 0x1_0000 * (b15 % 16)
  {
    var y := b13 + 0x100 * b14 + 0x1_0000 * b15;
    DivModUnique(w, y, b12, 256);
    MaskPowers();
    AndMask(y, n);
    DivModUnique(y, b15 / 16, b13 + 0x100 * b14 + 0x1_0000 * (b15 % 16), 0x10_0000);
  }

  lemma Limb0(b0: int, b1: int, b2: int, b3: int, w: u32)
    requires 0 <= b0 < 256 && 0 <= b1 < 256 && 0 <= b2 < 256 && 0 <= b3 < 256
    requires w == b0 + 0x100 * b1 + 0x1_0000 * b2 + 0x100_0000 * b3
    ensures And(w, 0x3ff_ffff) == b0 + 0x100 * b1 + 0x1_0000 * b2 + 0x100_0000 * (b3 % 16 % 4)
  {
    Masked26(w, 26);
    DivModUnique(b3, b3 / 4, b3 % 16 % 4, 4);
    DivModUnique(w, b3 / 4, b0 + 0x100 * b1 + 0x1_0000 * b2 + 0x100_0000 * (b3 % 16 % 4), X1);
  }

  lemma ClampedBytes(b: seq<u8>, c: seq<int>, d: seq<int>)
    requires |b| == 16 && c == Clamped(b) && d == b
    ensures |c| == 16 && c[0] == d[0] && c[1] == d[1] && c[2] == d[2] && c[3] == d[3] % 16
    ensures c[4] == d[4] - d[4] % 4 && c[5] == d[5] && c[6] == d[6] && c[7] == d[7] % 16
    ensures c[8] == d[8] - d[8] % 4 && c[9] == d[9] && c[10] == d[10] && c[11] == d[11] % 16
    ensures c[12] == d[12] - d[12] % 4 && c[13] == d[13] && c[14] == d[14] && c[15] == d[15] % 16
  {}

  /** The limbs of the multiplier are the cuts of the clamped bytes. */
  lemma MultiplierLimbs(b: seq<u8>, c: seq<u8>)
    requires |b| == 16 && c == Clamped(b)
    ensures And(Word(b, 0), 0x3ff_ffff) == Cut(c, 0, 1) && And(Word(b, 12) / 256, 0xf_ffff) == Cut(c, 12, 256)
    ensures And(Word(b, 3) / 4, 0x3ff_ff03) == Cut(c, 3, 4) && And(Word(b, 6) / 16, 0x3ff_c0ff) == Cut(c, 6, 16)
    ensures And(Word(b, 9) / 64, 0x3f0_3fff) == Cut(c, 9, 64)
  {
    Cuts(c, c);
    ClampedBytes(b, c, b);
    assert And(Word(b, 0), 0x3ff_ffff) == Cut(c, 0, 1) by { Limb0(b[0], b[1], b[2], b[3], Word(b, 0)); }
    assert And(Word(b, 3) / 4, 0x3ff_ff03) == Cut(c, 3, 4) by { Limb1(b[3], b[4], b[5], b[6], Word(b, 3)); }
    assert And(Word(b, 6) / 16, 0x3ff_c0ff) == Cut(c, 6, 16) by { Limb2(b[6], b[7], b[8], b[9], Word(b, 6)); }
    assert And(Word(b, 9) / 64, 0x3f0_3fff) == Cut(c, 9, 64) by { Limb3(b[9], b[10], b[11], b[12], Word(b, 9)); }
    assert And(Word(b, 12) / 256, 0xf_ffff) == Cut(c, 12, 256) by { Limb4(b[12], b[13], b[14], b[15], Word(b, 12), 20); }
  }

  /** (w >> s) & mask, for a limb whose value is known. */
  method KeyLimb(w: u32, s: nat, mask: u32, ghost q: nat, ghost y: nat, ghost v: u32) returns (l: u32)
    requires q == Pow2(s) && y == w / q && And(y, mask) == v
    ensures l == v
  {
    Shr32Value(w, s);
    l := And(Shr32(w, s), mask);
  }

  lemma MultiplierParts(b: seq<u8>) returns (v: Five<u32>)
    requires |b| == 16
    ensures Small(v) && Value(v) == Val(Clamped(b), 256)
    ensures And(Word(b, 0), 0x3ff_ffff) == v.x0 && And(Word(b, 3) / 4, 0x3ff_ff03) == v.x1
    ensures And(Word(b, 6) / 16, 0x3ff_c0ff) == v.x2 && And(Word(b, 9) / 64, 0x3f0_3fff) == v.x3
    ensures And(Word(b, 12) / 256, 0xf_ffff) == v.x4
  {
    var c := Clamped(b);
    v := CutsOf(c);
    MultiplierLimbs(b, c);
  }

  lemma CutsOf(c: seq<u8>) returns (v: Five<u32>)
    requires |c| == 16
    ensures Small(v) && Value(v) == Val(c, 256)
    ensures v == Five(Cut(c, 0, 1), Cut(c, 3, 4), Cut(c, 6, 16), Cut(c, 9, 64), Cut(c, 12, 256))
  {
    CutsValue(c);
    CutsSmall(c);
    v := Five(Cut(c, 0, 1), Cut(c, 3, 4), Cut(c, 6, 16), Cut(c, 9, 64), Cut(c, 12, 256));
  }

  lemma KeyParts(key: seq<u8>, w0: u32, w3: u32, w6: u32, w9: u32, w12: u32) returns (v: Five<u32>)
    requires |key| == 32 && w0 == Word(key, 0) && w3 == Word(key, 3) && w6 == Word(key, 6) && w9 == Word(key, 9)
    requires w12 == Word(key, 12)
    ensures Small(v) && Value(v) == Multiplier(key)
    ensures And(w0, 0x3ff_ffff) == v.x0 && And(w3 / 4, 0x3ff_ff03) == v.x1
    ensures And(w6 / 16, 0x3ff_c0ff) == v.x2 && And(w9 / 64, 0x3f0_3fff) == v.x3 && And(w12 / 256, 0xf_ffff) == v.x4
  {
    var b := key[..16];
    assert w0 == Word(b, 0) && w3 == Word(b, 3) && w6 == Word(b, 6) && w9 == Word(b, 9) && w12 == Word(b, 12);
    v := MultiplierParts(b);
  }

  /** r &= 0xffffffc0ffffffc0ffffffc0fffffff */
  method LoadMultiplier(key: seq<u8>) returns (r: Five<u32>)
    requires |key| == 32
    ensures Small(r) && Value(r) == Multiplier(key)
  {
    var w0, w3, w6, w9, w12 := Word(key, 0), Word(key, 3), Word(key, 6), Word(key, 9), Word(key, 12);
    ghost var v := KeyParts(key, w0, w3, w6, w9, w12);
    r := MaskLimbs(w0, w3, w6, w9, w12, v);
  }

  method MaskLimbs(w0: u32, w3: u32, w6: u32, w9: u32, w12: u32, ghost v: Five<u32>) returns (r: Five<u32>)
    requires And(w0, 0x3ff_ffff) == v.x0 && And(w3 / 4, 0x3ff_ff03) == v.x1
    requires And(w6 / 16, 0x3ff_c0ff) == v.x2 && And(w9 / 64, 0x3f0_3fff) == v.x3 && And(w12 / 256, 0xf_ffff) == v.x4
    ensures r == v
  {
    PowersOfFour();
    var r1 := KeyLimb(w3, 2, 0x3ff_ff03, 4, w3 / 4, v.x1);
    var r2 := KeyLimb(w6, 4, 0x3ff_c0ff, 16, w6 / 16, v.x2);
    var r3 := KeyLimb(w9, 6, 0x3f0_3fff, 64, w9 / 64, v.x3);
    var r4 := KeyLimb(w12, 8, 0xf_ffff, 256, w12 / 256, v.x4);
    r := Five(And(w0, 0x3ff_ffff), r1, r2, r3, r4);
  }

  lemma CutsSmall(c: seq<u8>)
    requires |c| == 16
    ensures 0 <= Cut(c, 0, 1) < X1 && 0 <= Cut(c, 3, 4) < X1 && 0 <= Cut(c, 6, 16) < X1
    ensures 0 <= Cut(c, 9, 64) < X1 && 0 <= Cut(c, 12, 256) < X1
  {}
}
