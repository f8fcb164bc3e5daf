/** Poly1305: section 2.5 of RFC 7539. */
module Poly1305Spec {
  import opened Arith
  import opened Modular
  import opened Words
  import opened Limbs

  /** 2^130 - 5 */
  const P1305: nat := 0x3_ffff_ffff_ffff_ffff_ffff_ffff_ffff_fffb

  const TWO128: nat := 0x1_0000_0000_0000_0000_0000_0000_0000_0000

  /** The bits of the key that are cleared: the top four of every fourth byte, the bottom two of the next. */
  function ClampedByte(i: nat, b: u8): u8 {
    if i % 4 == 3 then b % 16 else if i % 4 == 0 && i > 0 then b - b % 4 else b
  }

  function Clamped(s: seq<u8>): (r: seq<u8>)
    ensures |r| == |s| && forall i :: 0 <= i < |s| ==> r[i] == ClampedByte(i, s[i])
  {
    seq(|s|, i requires 0 <= i < |s| => ClampedByte(i, s[i]))
  }

  /** The multiplier: the first half of the key, clamped. */
  function Multiplier(key: seq<u8>): int
    requires |key| == 32
  {
    Val(Clamped(key[..16]), 256)
  }

  function BlockSize(m: seq<u8>): nat {
    if |m| < 16 then |m| else 16
  }

  /** A block of at most 16 bytes, with a one on top. */
  function BlockValue(b: seq<u8>): int {
    Val(b + [1], 256)
  }

  /** The accumulator after the blocks of a message; only the last block may be short. */
  function Accumulate(r: int, a: int, m: seq<u8>): int
    decreases |m|
  {
    if |m| == 0 then a
    else Accumulate(r, ((a + BlockValue(m[..BlockSize(m)])) * r) % P1305, m[BlockSize(m)..])
  }

  function Tag(key: seq<u8>, m: seq<u8>): int
    requires |key| == 32
  {
    (Accumulate(Multiplier(key), 0, m) + Val(key[16..], 256)) % TWO128
  }

  /** Whole blocks first. */
  lemma {:induction false} AccumulateConcat(r: int, a: int, x: seq<u8>, y: seq<u8>)
    requires |x| % 16 == 0
    ensures Accumulate(r, a, x + y) == Accumulate(r, Accumulate(r, a, x), y)
    decreases |x|
  {
    if |x| == 0 {
      assert x + y == y;
    } else {
      assert (x + y)[..16] == x[..16] && (x + y)[16..] == x[16..] + y;
      AccumulateConcat(r, ((a + BlockValue(x[..16])) * r) % P1305, x[16..], y);
    }
  }

  /** One block. */
  lemma AccumulateBlock(r: int, a: int, b: seq<u8>)
    requires 0 < |b| <= 16
    ensures Accumulate(r, a, b) == ((a + BlockValue(b)) * r) % P1305
  {
    assert b[..BlockSize(b)] == b && b[BlockSize(b)..] == [];
  }

  lemma {:induction false} AccumulateRange(r: int, a: int, m: seq<u8>)
    requires 0 <= a < P1305
    ensures 0 <= Accumulate(r, a, m) < P1305
    decreases |m|
  {
    if |m| > 0 {
      AccumulateRange(r, ((a + BlockValue(m[..BlockSize(m)])) * r) % P1305, m[BlockSize(m)..]);
    }
  }

  ghost function DigestIn(depth: nat, r: int, m: seq<u8>): int {
    if depth > 0 then DigestIn(depth - 1, r, m) else Accumulate(r, 0, m)
  }

  /** The accumulator after a message; folded (see Arith), DigestMeans unfolds it. */
  ghost function Digest(r: int, m: seq<u8>): int {
    DigestIn(FOLDS, r, m)
  }

  lemma {:induction false} DigestInMeans(depth: nat, r: int, m: seq<u8>)
    ensures DigestIn(depth, r, m) == Accumulate(r, 0, m)
  {
    if depth > 0 { DigestInMeans(depth - 1, r, m); }
  }

  lemma DigestMeans(r: int, m: seq<u8>)
    ensures Digest(r, m) == Accumulate(r, 0, m)
  {
    DigestInMeans(FOLDS, r, m);
  }

  /** More blocks. */
  lemma DigestConcat(r: int, x: seq<u8>, y: seq<u8>)
    requires |x| % 16 == 0
    ensures Digest(r, x + y) == Accumulate(r, Digest(r, x), y)
  {
    DigestMeans(r, x);
    DigestMeans(r, x + y);
    AccumulateConcat(r, 0, x, y);
  }

  /** A last block. */
  lemma DigestLast(r: int, x: seq<u8>, b: seq<u8>)
    requires |x| % 16 == 0 && 0 < |b| <= 16
    ensures Digest(r, x + b) == ((Digest(r, x) + BlockValue(b)) * r) % P1305
  {
    DigestConcat(r, x, b);
    AccumulateBlock(r, Digest(r, x), b);
  }
}
