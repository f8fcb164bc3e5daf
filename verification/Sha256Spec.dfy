/**
 SHA-256 over an unspecified compression function: the padding and the blocks of
 section 5 of FIPS 180-4.
 */
module Sha256Spec {
  import opened Arith
  import opened Words
  import opened BigEndian

  /** The initial hash value and sha256_Transform. */
  datatype Sha = Sha(iv: seq<u32>, transform: (seq<u32>, seq<u32>) -> seq<u32>)

  ghost predicate Proper(h: Sha) {
    |h.iv| == 8 && forall s, b :: |h.transform(s, b)| == 8
  }

  // ------------------------------------------------------------ bytes and words

  /** The word that four bytes make, most significant byte first. */
  function WordOf(b: seq<u8>): u32
    requires |b| >= 4
  {
    var x: int, y: int, z: int, w: int := b[0], b[1], b[2], b[3];
    0x100_0000 * x + 0x1_0000 * y + 0x100 * z + w
  }

  function WordsOf(b: seq<u8>): (s: seq<u32>)
    requires |b| % 4 == 0
    ensures |s| == |b| / 4
    decreases |b|
  {
    if |b| == 0 then [] else [WordOf(b)] + WordsOf(b[4..])
  }

  function BytesOfWord(v: u32): (b: seq<u8>)
    ensures |b| == 4
  {
    [v / 0x100_0000, v / 0x1_0000 % 0x100, v / 0x100 % 0x100, v % 0x100]
  }

  function BytesOf(s: seq<u32>): (b: seq<u8>)
    ensures |b| == 4 * |s|
  {
    if |s| == 0 then [] else BytesOfWord(s[0]) + BytesOf(s[1..])
  }

  lemma WordBack(v: u32)
    ensures WordOf(BytesOfWord(v)) == v
  {
    DivMod(v, 0x100);
    DivMod(v / 0x100, 0x100);
    DivDiv(v, 0x100, 0x100);
    DivMod(v / 0x1_0000, 0x100);
    DivDiv(v, 0x1_0000, 0x100);
  }

  lemma BytesBack(b: seq<u8>)
    requires |b| == 4
    ensures BytesOfWord(WordOf(b)) == b
  {
    Parts(b[0], b[1], b[2], b[3], WordOf(b));
  }

  lemma Parts(x: int, y: int, z: int, w: int, v: int)
    requires 0 <= x < 256 && 0 <= y < 256 && 0 <= z < 256 && 0 <= w < 256
    requires v == 0x100_0000 * x + 0x1_0000 * y + 0x100 * z + w
    ensures v / 0x100_0000 == x && v / 0x1_0000 % 0x100 == y && v / 0x100 % 0x100 == z && v % 0x100 == w
  {
    DivModUnique(v, x, 0x1_0000 * y + 0x100 * z + w, 0x100_0000);
    DivModUnique(v, 0x100 * x + y, 0x100 * z + w, 0x1_0000);
    DivModUnique(0x100 * x + y, x, y, 0x100);
    DivModUnique(v, 0x1_0000 * x + 0x100 * y + z, w, 0x100);
    DivModUnique(0x1_0000 * x + 0x100 * y + z, 0x100 * x + y, z, 0x100);
  }

  lemma {:induction false} WordsOfBytes(s: seq<u32>)
    ensures WordsOf(BytesOf(s)) == s
  {
    if |s| > 0 {
      var b, t := BytesOfWord(s[0]), BytesOf(s[1..]);
      WordBack(s[0]);
      WordsOfBytes(s[1..]);
      assert (b + t)[4..] == t && WordOf(b + t) == WordOf(b);
      assert s == [s[0]] + s[1..];
    }
  }

  lemma {:induction false} BytesOfWords(b: seq<u8>)
    requires |b| % 4 == 0
    ensures BytesOf(WordsOf(b)) == b
    decreases |b|
  {
    if |b| > 0 {
      BytesBack(b[..4]);
      BytesOfWords(b[4..]);
      assert WordsOf(b)[0] == WordOf(b) == WordOf(b[..4]) && WordsOf(b)[1..] == WordsOf(b[4..]);
      assert b == b[..4] + b[4..];
    }
  }

  lemma {:induction false} WordAt(b: seq<u8>, i: nat)
    requires |b| % 4 == 0 && 4 * i < |b|
    ensures WordsOf(b)[i] == WordOf(b[4 * i..])
  {
    if i > 0 {
      WordAt(b[4..], i - 1);
      assert b[4..][4 * (i - 1)..] == b[4 * i..];
    } else {
      assert b[0..] == b;
    }
  }

  lemma {:induction false} WordsConcat(x: seq<u8>, y: seq<u8>)
    requires |x| % 4 == 0 && |y| % 4 == 0
    ensures (|x| + |y|) % 4 == 0 && WordsOf(x + y) == WordsOf(x) + WordsOf(y)
    decreases |x|
  {
    if |x| == 0 {
      assert x + y == y;
    } else {
      WordsConcat(x[4..], y);
      assert (x + y)[4..] == x[4..] + y && WordOf(x + y) == WordOf(x);
    }
  }

  // ------------------------------------------------------------ hashing

  /** The state after whole blocks. */
  function Fold(h: Sha, s: seq<u32>, m: seq<u8>): seq<u32>
    requires |m| % 64 == 0
    decreases |m|
  {
    if |m| == 0 then s else Fold(h, h.transform(s, WordsOf(m[..64])), m[64..])
  }

  lemma {:induction false} FoldConcat(h: Sha, s: seq<u32>, x: seq<u8>, y: seq<u8>)
    requires |x| % 64 == 0 && |y| % 64 == 0
    ensures (|x| + |y|) % 64 == 0 && Fold(h, s, x + y) == Fold(h, Fold(h, s, x), y)
    decreases |x|
  {
    if |x| == 0 {
      assert x + y == y;
    } else {
      assert (x + y)[..64] == x[..64] && (x + y)[64..] == x[64..] + y;
      FoldConcat(h, h.transform(s, WordsOf(x[..64])), x[64..], y);
    }
  }

  lemma FoldBlock(h: Sha, s: seq<u32>, b: seq<u8>)
    requires |b| == 64
    ensures Fold(h, s, b) == h.transform(s, WordsOf(b))
  {
    assert b[..64] == b && b[64..] == [];
  }

  lemma {:induction false} FoldLength(h: Sha, s: seq<u32>, m: seq<u8>)
    requires Proper(h) && |s| == 8 && |m| % 64 == 0
    ensures |Fold(h, s, m)| == 8
    decreases |m|
  {
    if |m| > 0 { FoldLength(h, h.transform(s, WordsOf(m[..64])), m[64..]); }
  }

  function Zeros(n: nat): (s: seq<u8>)
    ensures |s| == n && forall i :: 0 <= i < n ==> s[i] == 0
  {
    seq(n, _ => 0)
  }

  /** How many zeros follow the byte 0x80. */
  function Gap(n: nat): nat {
    if n % 64 <= 55 then 55 - n % 64 else 119 - n % 64
  }

  /** The bit count of n bytes, in two words. */
  function Length(n: nat): seq<u8>
    requires 8 * n < 0x1_0000_0000_0000_0000
  {
    var bits := 8 * n;
    BytesOf([bits / 0x1_0000_0000, bits % 0x1_0000_0000])
  }

  /** What is appended to n bytes: a one bit, zeros, and the bit count, to the end of a block. */
  function Padding(n: nat): (p: seq<u8>)
    requires 8 * n < 0x1_0000_0000_0000_0000
    ensures (n + |p|) % 64 == 0 && |p| == 1 + Gap(n) + 8
  {
    [0x80] + Zeros(Gap(n)) + Length(n)
  }

  predicate Short(n: nat) {
    8 * n < 0x1_0000_0000_0000_0000
  }

  function Hash(h: Sha, m: seq<u8>): (d: seq<u8>)
    requires Short(|m|)
  {
    BytesOf(Fold(h, h.iv, m + Padding(|m|)))
  }

  lemma HashLength(h: Sha, m: seq<u8>)
    requires Proper(h) && Short(|m|)
    ensures |Hash(h, m)| == 32
  {
    FoldLength(h, h.iv, m + Padding(|m|));
  }

  ghost function BlocksIn(depth: nat, h: Sha, m: seq<u8>): seq<u32>
    requires |m| % 64 == 0
  {
    if depth > 0 then BlocksIn(depth - 1, h, m) else Fold(h, h.iv, m)
  }

  /** The state after whole blocks from the beginning; folded (see Arith), BlocksMean unfolds it. */
  ghost function Blocks(h: Sha, m: seq<u8>): seq<u32>
    requires |m| % 64 == 0
  {
    BlocksIn(FOLDS, h, m)
  }

  lemma {:induction false} BlocksInMean(depth: nat, h: Sha, m: seq<u8>)
    requires |m| % 64 == 0
    ensures BlocksIn(depth, h, m) == Fold(h, h.iv, m)
  {
    if depth > 0 { BlocksInMean(depth - 1, h, m); }
  }

  lemma BlocksMean(h: Sha, m: seq<u8>)
    requires |m| % 64 == 0
    ensures Blocks(h, m) == Fold(h, h.iv, m)
  {
    BlocksInMean(FOLDS, h, m);
  }

  /** One block more. */
  lemma NextBlock(h: Sha, x: seq<u8>, b: seq<u8>)
    requires |x| % 64 == 0 && |b| == 64
    ensures |x + b| % 64 == 0 && Blocks(h, x + b) == h.transform(Blocks(h, x), WordsOf(b))
  {
    BlocksMean(h, x);
    BlocksMean(h, x + b);
    FoldConcat(h, h.iv, x, b);
    FoldBlock(h, Fold(h, h.iv, x), b);
  }

  lemma HashIsBlocks(h: Sha, m: seq<u8>)
    requires Short(|m|)
    ensures Hash(h, m) == BytesOf(Blocks(h, m + Padding(|m|)))
  {
    BlocksMean(h, m + Padding(|m|));
  }

  lemma LengthWords(n: nat, bits: u64)
    requires Short(n) && bits == 8 * n
    ensures WordsOf(Length(n)) == [bits / WORD32, bits % WORD32]
  {
    WordsOfBytes([bits / WORD32, bits % WORD32]);
  }

  lemma LastBlock(h: Sha, x: seq<u8>, b: seq<u8>, n: nat, bits: u64)
    requires Short(n) && bits == 8 * n && |x| % 64 == 0 && |b| == 56
    ensures |x + (b + Length(n))| % 64 == 0
    ensures Blocks(h, x + (b + Length(n))) == h.transform(Blocks(h, x), WordsOf(b) + [bits / WORD32, bits % WORD32])
  {
    LengthWords(n, bits);
    WordsConcat(b, Length(n));
    NextBlock(h, x, b + Length(n));
  }

  // ------------------------------------------------------------ in the standard's terms

  /** Section 3.1 of FIPS 180-4: the most significant byte of a word is first. */
  lemma WordsMean(b: seq<u8>, c: seq<int>, i: nat)
    requires c == b && |b| % 4 == 0 && 4 * i + 4 <= |b|
    ensures WordsOf(b)[i] == 0x100_0000 * c[4 * i] + 0x1_0000 * c[4 * i + 1] + 0x100 * c[4 * i + 2] + c[4 * i + 3]
  {
    WordAt(b, i);
  }

  lemma LengthValue(n: nat)
    requires Short(n)
    ensures Big(Length(n), 256) == 8 * n
  {
    var bits := 8 * n;
    var x: u32, y: u32 := bits / WORD32, bits % WORD32;
    var b := Length(n);
    LengthWords(n, bits);
    BytesOfWords(b);
    WordsMean(b, b, 0);
    WordsMean(b, b, 1);
    DivMod(bits, WORD32);
    EightBytes(b);
  }

  lemma EightBytes(b: seq<int>)
    requires |b| == 8
    ensures Big(b, 256) == 0x1_0000_0000 * (0x100_0000 * b[0] + 0x1_0000 * b[1] + 0x100 * b[2] + b[3])
                         + (0x100_0000 * b[4] + 0x1_0000 * b[5] + 0x100 * b[6] + b[7])
  {
    BigPrefix(b, 0, 256);
    BigPrefix(b, 1, 256);
    BigPrefix(b, 2, 256);
    BigPrefix(b, 3, 256);
    BigPrefix(b, 4, 256);
    BigPrefix(b, 5, 256);
    BigPrefix(b, 6, 256);
    BigPrefix(b, 7, 256);
    assert b[..0] == [] && b[..8] == b;
  }

  /**
   Section 5.1.1: a one bit, the least number of zeros with l + 1 + k = 448 modulo 512, and
   the length l in 64 bits.
   */
  lemma PaddingMeans(n: nat) returns (zeros: nat)
    requires Short(n)
    ensures zeros < 64 && (n + 1 + zeros) % 64 == 56 && |Padding(n)| == 1 + zeros + 8
    ensures Padding(n)[0] == 0x80 && (forall i :: 1 <= i < 1 + zeros ==> Padding(n)[i] == 0)
    ensures Big(Padding(n)[1 + zeros..], 256) == 8 * n
  {
    zeros := Gap(n);
    DivMod(n, 64);
    DivModUnique(n + 1 + zeros, if n % 64 <= 55 then n / 64 else n / 64 + 1, 56, 64);
    assert Padding(n)[1 + zeros..] == Length(n);
    LengthValue(n);
  }

  lemma {:induction false} FoldMeans(h: Sha, s: seq<u32>, b: seq<u8>, n: nat, states: seq<seq<u32>>)
    requires |b| == 64 * n && |states| == n + 1 && states[0] == s
    requires forall i :: 0 <= i < n ==> states[i + 1] == h.transform(states[i], WordsOf(b[64 * i..64 * i + 64]))
    ensures Fold(h, s, b) == states[n]
    decreases n
  {
    if n > 0 {
      var t := states[1..];
      forall i | 0 <= i < n - 1 ensures t[i + 1] == h.transform(t[i], WordsOf(b[64..][64 * i..64 * i + 64])) {
        assert states[(i + 1) + 1] == h.transform(states[i + 1], WordsOf(b[64 * (i + 1)..64 * (i + 1) + 64]));
        assert b[64..][64 * i..64 * i + 64] == b[64 * (i + 1)..64 * (i + 1) + 64];
      }
      assert states[0 + 1] == h.transform(states[0], WordsOf(b[64 * 0..64 * 0 + 64]));
      FoldMeans(h, t[0], b[64..], n - 1, t);
    }
  }

  /** Section 6.2.2: the last of the intermediate hash values, from the initial one over the blocks in their order. */
  lemma HashMeans(h: Sha, m: seq<u8>, n: nat, states: seq<seq<u32>>)
    requires Short(|m|) && |m + Padding(|m|)| == 64 * n && |states| == n + 1 && states[0] == h.iv
    requires forall i :: 0 <= i < n ==> states[i + 1] == h.transform(states[i], WordsOf((m + Padding(|m|))[64 * i..64 * i + 64]))
    ensures |Hash(h, m)| == 4 * |states[n]| && WordsOf(Hash(h, m)) == states[n]
  {
    FoldMeans(h, h.iv, m + Padding(|m|), n, states);
    WordsOfBytes(states[n]);
  }
}
