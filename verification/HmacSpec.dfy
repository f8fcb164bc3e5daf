/**
 HMAC of RFC 2104 over the hash of Sha256Spec, and the form with precomputed digests: the
 two padded keys fill a block each, so that their states can be kept instead of the key.
 */
module HmacSpec {
  import opened Arith
  import opened Words
  import opened Sha256Spec

  // ------------------------------------------------------------ exclusive or

  function Mask(a: u8, b: u8): u8 {
    assert Pow2(8) == 0x100 by { Pow2Literals(); }
    XorBelow(a, b, 8);
    Xor(a, b)
  }

  lemma MaskBits(a: u8, b: u8, i: nat)
    ensures Bit(Mask(a, b), i) <==> Bit(a, i) != Bit(b, i)
  {
    BitXor(a, b, i);
  }

  function MaskWord(a: u32, b: u32): u32 {
    assert Pow2(32) == 0x1_0000_0000 by { Pow2Literals(); }
    XorBelow(a, b, 32);
    Xor(a, b)
  }

  function XorBytes(a: seq<u8>, b: seq<u8>): (r: seq<u8>)
    requires |a| == |b|
    ensures |r| == |a| && forall i :: 0 <= i < |a| ==> r[i] == Mask(a[i], b[i])
  {
    seq(|a|, i requires 0 <= i < |a| => Mask(a[i], b[i]))
  }

  function XorWords(a: seq<u32>, b: seq<u32>): (r: seq<u32>)
    requires |a| == |b|
    ensures |r| == |a| && forall i :: 0 <= i < |a| ==> r[i] == MaskWord(a[i], b[i])
  {
    seq(|a|, i requires 0 <= i < |a| => MaskWord(a[i], b[i]))
  }

  lemma XorStep(a: u8, b: nat, c: u8, d: nat, x: nat, y: nat)
    requires x == a + 0x100 * b && y == c + 0x100 * d
    ensures Xor(x, y) == Xor(a, c) + 0x100 * Xor(b, d)
  {
    Pow2Literals();
    XorParts(x, y, 8, 0x100, b, a, d, c);
  }

  /** A word of bytes, masked, is the word of the masked bytes. */
  lemma XorWordOf(a: seq<u8>, b: seq<u8>)
    requires |a| == |b| >= 4
    ensures WordOf(XorBytes(a, b)) == MaskWord(WordOf(a), WordOf(b))
  {
    var x: int, y: int, z: int, w: int := a[0], a[1], a[2], a[3];
    var x': int, y': int, z': int, w': int := b[0], b[1], b[2], b[3];
    var s, t := y + 0x100 * x, y' + 0x100 * x';
    XorStep(y, x, y', x', s, t);
    var u, v := z + 0x100 * s, z' + 0x100 * t;
    XorStep(z, s, z', t, u, v);
    XorStep(w, u, w', v, WordOf(a), WordOf(b));
  }

  lemma {:induction false} XorWordsOf(a: seq<u8>, b: seq<u8>)
    requires |a| == |b| && |a| % 4 == 0
    ensures WordsOf(XorBytes(a, b)) == XorWords(WordsOf(a), WordsOf(b))
    decreases |a|
  {
    if |a| > 0 {
      XorWordOf(a, b);
      XorWordsOf(a[4..], b[4..]);
      assert XorBytes(a, b)[4..] == XorBytes(a[4..], b[4..]);
      assert WordsOf(a)[1..] == WordsOf(a[4..]) && WordsOf(b)[1..] == WordsOf(b[4..]);
    }
  }

  lemma XorBytesOf(s: seq<u32>, t: seq<u32>)
    requires |s| == |t|
    ensures BytesOf(XorWords(s, t)) == XorBytes(BytesOf(s), BytesOf(t))
  {
    WordsOfBytes(s);
    WordsOfBytes(t);
    XorWordsOf(BytesOf(s), BytesOf(t));
    BytesOfWords(XorBytes(BytesOf(s), BytesOf(t)));
  }

  // ------------------------------------------------------------ HMAC

  function Repeat(n: nat, x: u8): (s: seq<u8>)
    ensures |s| == n && forall i :: 0 <= i < n ==> s[i] == x
  {
    seq(n, _ => x)
  }

  /** The key, hashed if it is longer than a block, filled up to a block. */
  ghost function KeyBlock(h: Sha, key: seq<u8>): (b: seq<u8>)
    requires Proper(h) && Short(|key|)
    ensures |b| == 64
  {
    if |key| > 64 then
      HashLength(h, key);
      Hash(h, key) + Zeros(32)
    else key + Zeros(64 - |key|)
  }

  ghost function InnerPad(h: Sha, key: seq<u8>): (b: seq<u8>)
    requires Proper(h) && Short(|key|)
    ensures |b| == 64
  {
    XorBytes(KeyBlock(h, key), Repeat(64, 0x36))
  }

  ghost function OuterPad(h: Sha, key: seq<u8>): (b: seq<u8>)
    requires Proper(h) && Short(|key|)
    ensures |b| == 64
  {
    XorBytes(KeyBlock(h, key), Repeat(64, 0x5c))
  }

  ghost predicate Fits(h: Sha, key: seq<u8>, m: seq<u8>) {
    Proper(h) && Short(|key|) && Short(64 + |m|)
  }

  ghost function HmacIn(depth: nat, h: Sha, key: seq<u8>, m: seq<u8>): (d: seq<u8>)
    requires Fits(h, key, m)
    ensures |d| == 32
  {
    HashLength(h, InnerPad(h, key) + m);
    HashLength(h, OuterPad(h, key) + Hash(h, InnerPad(h, key) + m));
    if depth > 0 then HmacIn(depth - 1, h, key, m)
    else Hash(h, OuterPad(h, key) + Hash(h, InnerPad(h, key) + m))
  }

  /** HMAC; folded (see Arith), HmacMeans unfolds it. */
  ghost function Hmac(h: Sha, key: seq<u8>, m: seq<u8>): (d: seq<u8>)
    requires Fits(h, key, m)
    ensures |d| == 32
  {
    HmacIn(FOLDS, h, key, m)
  }

  lemma {:induction false} HmacInMeans(depth: nat, h: Sha, key: seq<u8>, m: seq<u8>)
    requires Fits(h, key, m)
    ensures |Hash(h, InnerPad(h, key) + m)| == 32
    ensures HmacIn(depth, h, key, m) == Hash(h, OuterPad(h, key) + Hash(h, InnerPad(h, key) + m))
  {
    HashLength(h, InnerPad(h, key) + m);
    if depth > 0 { HmacInMeans(depth - 1, h, key, m); }
  }

  lemma HmacMeans(h: Sha, key: seq<u8>, m: seq<u8>)
    requires Fits(h, key, m)
    ensures |Hash(h, InnerPad(h, key) + m)| == 32
    ensures Hmac(h, key, m) == Hash(h, OuterPad(h, key) + Hash(h, InnerPad(h, key) + m))
  {
    HmacInMeans(FOLDS, h, key, m);
  }

  /** RFC 2104, section 2, for a key of at most a block. */
  lemma HmacOfKey(h: Sha, key: seq<u8>, m: seq<u8>)
    requires Proper(h) && |key| <= 64 && Short(64 + |m|)
    ensures Short(|key|)
    ensures var k := key + Zeros(64 - |key|);
            && |Hash(h, XorBytes(k, Repeat(64, 0x36)) + m)| == 32
            && Hmac(h, key, m) == Hash(h, XorBytes(k, Repeat(64, 0x5c)) + Hash(h, XorBytes(k, Repeat(64, 0x36)) + m))
  {
    HmacMeans(h, key, m);
  }

  /** And for a longer key, which is hashed first. */
  lemma HmacOfLongKey(h: Sha, key: seq<u8>, m: seq<u8>)
    requires Proper(h) && |key| > 64 && Short(|key|) && Short(64 + |m|)
    ensures |Hash(h, key)| == 32
    ensures var k := Hash(h, key) + Zeros(32);
            && |Hash(h, XorBytes(k, Repeat(64, 0x36)) + m)| == 32
            && Hmac(h, key, m) == Hash(h, XorBytes(k, Repeat(64, 0x5c)) + Hash(h, XorBytes(k, Repeat(64, 0x36)) + m))
  {
    HashLength(h, key);
    HmacMeans(h, key, m);
  }

  /** How many digests it takes to give that many bytes. */
  function Calls(length: nat): nat {
    length / 32 + (if length % 32 == 0 then 0 else 1)
  }

  lemma CallsAre(length: nat, n: nat)
    requires length <= 32 * n < length + 32
    ensures n == Calls(length)
  {
    DivMod(length, 32);
    if length % 32 == 0 {
      DivModUnique(length, n, 0, 32);
    } else {
      DivModUnique(length, n - 1, length - 32 * (n - 1), 32);
    }
  }

  // ------------------------------------------------------------ with precomputed digests

  /** The second half of a block: a word with the end of the message, and the bit count. */
  function Ends(x: u32, bits: u32): (s: seq<u32>)
    ensures |s| == 8
  {
    [x, 0, 0, 0, 0, 0, 0, bits]
  }

  /** After a block and eight words. */
  function Ending(): (s: seq<u32>)
    ensures |s| == 8
  {
    Ends(0x8000_0000, 768)
  }

  lemma {:induction false} ZeroWords(n: nat)
    ensures WordsOf(Zeros(4 * n)) == seq(n, _ => 0)
  {
    if n > 0 {
      ZeroWords(n - 1);
      assert Zeros(4 * n)[4..] == Zeros(4 * (n - 1));
    }
  }

  lemma OneWord(t: seq<u8>, x: u32)
    requires |t| == 4 && x == WordOf(t)
    ensures WordsOf(t) == [x]
  {
    assert t[4..] == [];
  }

  lemma TailBytes(b: seq<u8>, tail: seq<u8>, t: seq<u8>, z: seq<u8>)
    requires |tail| < 4 && t == tail + [0x80] + Zeros(3 - |tail|) && |z| == 20 && forall i :: 0 <= i < 20 ==> z[i] == 0
    ensures b + tail + [0x80] + Zeros(23 - |tail|) == b + (t + z)
  {}

  lemma WordsInARow(w: seq<u32>, t: seq<u8>, x: u32, n: nat)
    requires |t| == 4 && x == WordOf(t)
    ensures WordsOf(BytesOf(w) + (t + Zeros(4 * n))) == w + ([x] + seq(n, _ => 0))
  {
    OneWord(t, x);
    WordsOfBytes(w);
    ZeroWords(n);
    WordsConcat(t, Zeros(4 * n));
    WordsConcat(BytesOf(w), t + Zeros(4 * n));
  }

  /** Eight words, fewer than four bytes and their padding make the first 14 words of a block. */
  lemma TailWords(w: seq<u32>, tail: seq<u8>, x: u32, n: nat, b: seq<u8>)
    requires |w| == 8 && |tail| < 4 && x == WordOf(tail + [0x80] + Zeros(3 - |tail|)) && n == 5
    requires b == BytesOf(w) + tail + [0x80] + Zeros(23 - |tail|)
    ensures |b| == 56 && WordsOf(b) == w + ([x] + seq(n, _ => 0))
  {
    var t := tail + [0x80] + Zeros(3 - |tail|);
    WordsInARow(w, t, x, n);
    TailBytes(BytesOf(w), tail, t, Zeros(4 * n));
  }

  lemma TailPadding(a: seq<u8>, b: seq<u8>, tail: seq<u8>)
    requires |a| == 64 && |b| == 32 && |tail| < 4
    ensures Short(96 + |tail|)
    ensures a + (b + tail) + Padding(96 + |tail|) == a + (b + tail + [0x80] + Zeros(23 - |tail|) + Length(96 + |tail|))
  {
    assert Gap(96 + |tail|) == 23 - |tail|;
  }

  /** Hashing eight words and fewer than four bytes after a block takes one block. */
  lemma HashOfTail(h: Sha, a: seq<u8>, w: seq<u32>, tail: seq<u8>, x: u32, bits: u32)
    requires |a| == 64 && |w| == 8 && |tail| < 4 && bits == 8 * (96 + |tail|)
    requires x == WordOf(tail + [0x80] + Zeros(3 - |tail|))
    ensures Short(|a + (BytesOf(w) + tail)|)
    ensures Hash(h, a + (BytesOf(w) + tail)) == BytesOf(h.transform(Blocks(h, a), w + Ends(x, bits)))
  {
    var n := 96 + |tail|;
    var b := BytesOf(w) + tail + [0x80] + Zeros(23 - |tail|);
    TailWords(w, tail, x, 5, b);
    TailPadding(a, BytesOf(w), tail);
    LastBlock(h, a, b, n, bits);
    HashIsBlocks(h, a + (BytesOf(w) + tail));
    DivModUnique(bits, 0, bits, WORD32);
    assert w + ([x] + seq(5, _ => 0)) + [0, bits] == w + Ends(x, bits);
  }

  /** The second hash from the words of the first. */
  lemma HmacOfInner(h: Sha, key: seq<u8>, m: seq<u8>, s: seq<u32>)
    requires Fits(h, key, m) && |s| == 8
    requires Hash(h, InnerPad(h, key) + m) == BytesOf(s)
    ensures Hmac(h, key, m) == BytesOf(h.transform(Blocks(h, OuterPad(h, key)), s + Ending()))
  {
    HmacMeans(h, key, m);
    HashOfTail(h, OuterPad(h, key), s, [], 0x8000_0000, 768);
    assert BytesOf(s) + [] == BytesOf(s);
  }

  /** The whole HMAC of eight words and fewer than four bytes: two blocks. */
  lemma HmacOfTail(h: Sha, key: seq<u8>, w: seq<u32>, tail: seq<u8>, x: u32, bits: u32, s: seq<u32>)
    requires Proper(h) && Short(|key|) && |w| == 8 && |tail| < 4 && bits == 8 * (96 + |tail|)
    requires x == WordOf(tail + [0x80] + Zeros(3 - |tail|))
    requires s == h.transform(Blocks(h, InnerPad(h, key)), w + Ends(x, bits))
    ensures |s| == 8 && Fits(h, key, BytesOf(w) + tail)
    ensures Hmac(h, key, BytesOf(w) + tail) == BytesOf(h.transform(Blocks(h, OuterPad(h, key)), s + Ending()))
  {
    HashOfTail(h, InnerPad(h, key), w, tail, x, bits);
    HmacOfInner(h, key, BytesOf(w) + tail, s);
  }

  lemma HmacOfWords(h: Sha, key: seq<u8>, w: seq<u32>, s: seq<u32>)
    requires Proper(h) && Short(|key|) && |w| == 8
    requires s == h.transform(Blocks(h, InnerPad(h, key)), w + Ending())
    ensures |s| == 8 && Fits(h, key, BytesOf(w))
    ensures Hmac(h, key, BytesOf(w)) == BytesOf(h.transform(Blocks(h, OuterPad(h, key)), s + Ending()))
  {
    HmacOfTail(h, key, w, [], 0x8000_0000, 768, s);
    assert BytesOf(w) + [] == BytesOf(w);
  }

  lemma {:induction false} RepeatWords(n: nat, x: u8, v: u32)
    requires v == 0x101_0101 * x
    ensures WordsOf(Repeat(4 * n, x)) == seq(n, _ => v)
  {
    if n > 0 {
      RepeatWords(n - 1, x, v);
      assert Repeat(4 * n, x)[4..] == Repeat(4 * (n - 1), x);
    }
  }

  /** The state after a key block masked with the byte x. */
  lemma PadDigest(h: Sha, k: seq<u8>, x: u8, v: u32)
    requires |k| == 64 && v == 0x101_0101 * x
    ensures Blocks(h, XorBytes(k, Repeat(64, x))) == h.transform(h.iv, XorWords(WordsOf(k), seq(16, _ => v)))
  {
    RepeatWords(16, x, v);
    XorWordsOf(k, Repeat(64, x));
    BlocksMean(h, XorBytes(k, Repeat(64, x)));
    FoldBlock(h, h.iv, XorBytes(k, Repeat(64, x)));
  }
}
