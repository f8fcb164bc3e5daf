/**
 The deterministic random bit generator: instead of the key K it keeps the digests of the
 two padded keys, and V as the first half of a block with its padding.
 */
module HmacDrbg {
  import opened Arith
  import opened Words
  import opened Sha256Spec
  import opened Sha256
  import opened HmacSpec
  import opened HmacForms
  import opened DrbgSpec

  method MaskInPlace(block: array<u32>, m: u32)
    requires block.Length == 16
    modifies block
    ensures block[..] == XorWords(old(block[..]), seq(16, _ => m))
  {
    ghost var x, y := block[..], XorWords(block[..], seq(16, _ => m));
    var i := 0;
    while i < 16
      invariant 0 <= i <= 16 && block[..i] == y[..i] && block[i..] == x[i..]
    {
      assert block[i..][0] == x[i..][0];
      block[i] := MaskWord(block[i], m);
      assert block[i + 1..] == x[i..][1..];
      i := i + 1;
    }
    assert block[..] == y;
  }

  /** A key of eight words is filled up to a block. */
  lemma KeyWords(h: Sha, t: seq<u32>)
    requires Proper(h) && |t| == 8
    ensures WordsOf(KeyBlock(h, BytesOf(t))) == t + seq(8, _ => 0)
  {
    var n := |t|;
    WordsOfBytes(t);
    ZeroWords(n);
    WordsConcat(BytesOf(t), Zeros(4 * n));
    assert KeyBlock(h, BytesOf(t)) == BytesOf(t) + Zeros(4 * n);
  }

  /** The digests of the key 0 ... 0 */
  lemma ZeroKey(h: Sha, x: u8, v: u32)
    requires Proper(h) && v == 0x101_0101 * x
    ensures Blocks(h, XorBytes(KeyBlock(h, Zeros(32)), Repeat(64, x))) == h.transform(h.iv, seq(16, _ => v))
  {
    assert XorBytes(KeyBlock(h, Zeros(32)), Repeat(64, x)) == Repeat(64, x);
    RepeatWords(16, x, v);
    BlocksMean(h, Repeat(64, x));
    FoldBlock(h, h.iv, Repeat(64, x));
  }

  /** The result of HMAC, in the first half of a block of zeros. */
  method SecondHash(h: Sha, odig: seq<u32>, s: seq<u32>) returns (block: array<u32>)
    requires Proper(h) && |s| == 8
    ensures fresh(block) && block.Length == 16 && block[..8] == h.transform(odig, s + Ending())
    ensures block[..] == block[..8] + seq(8, _ => 0)
  {
    block := new u32[16](_ => 0);
    Store(block, s);
    block[8] := 0x8000_0000;
    block[15] := 768;
    assert block[..] == s + Ending();
    Store(block, h.transform(odig, block[..]));
    block[8] := 0;
    block[15] := 0;
  }

  /** The digests of the key whose words are in the block. */
  method DigestBlock(h: Sha, block: array<u32>, ghost key: seq<u8>) returns (idig: seq<u32>, odig: seq<u32>)
    requires block.Length == 16 && |key| == 64 && block[..] == WordsOf(key)
    modifies block
    ensures idig == Blocks(h, XorBytes(key, Repeat(64, 0x36))) && odig == Blocks(h, XorBytes(key, Repeat(64, 0x5c)))
  {
    MaskInPlace(block, 0x3636_3636);
    PadDigest(h, key, 0x36, 0x3636_3636);
    idig := h.transform(h.iv, block[..]);
    MaskAgain(block, WordsOf(key), 0x3636_3636, 0x5c5c_5c5c);
    PadDigest(h, key, 0x5c, 0x5c5c_5c5c);
    odig := h.transform(h.iv, block[..]);
  }

  lemma OnesValue(w: seq<u32>)
    requires |w| == 8 && forall i :: 0 <= i < 8 ==> w[i] == 0x101_0101
    ensures BytesOf(w) == Repeat(32, 1)
  {
    var n := |w|;
    RepeatWords(n, 1, 0x101_0101);
    BytesOfWords(Repeat(4 * n, 1));
    assert w == seq(n, _ => 0x101_0101);
    assert Repeat(4 * n, 1) == Repeat(32, 1);
  }

  lemma {:induction false} WordBytesAt(s: seq<u32>, j: nat)
    requires j < |s|
    ensures BytesOf(s)[4 * j..4 * j + 4] == BytesOfWord(s[j])
  {
    if j > 0 {
      WordBytesAt(s[1..], j - 1);
      assert BytesOf(s)[4 * j..4 * j + 4] == BytesOf(s[1..])[4 * (j - 1)..4 * (j - 1) + 4];
    }
  }

  lemma SliceGrows(s: seq<u8>, i: nat, n: nat)
    requires i + 4 <= |s| && n <= 4
    ensures s[..i + n] == s[..i] + s[i..i + 4][..n]
  {}

  ghost predicate Streaming(h: Sha, s: State, t: State, n: nat, i: nat, buf: seq<u8>) {
    && Sized(h, s) && t == State(s.k, Value(h, s, n))
    && i == (if 32 * n <= |buf| then 32 * n else |buf|) && 32 * n < |buf| + 32
    && buf[..i] == Stream(h, s, n)[..i]
  }

  ghost function StreamedIn(depth: nat, h: Sha, s: State, t: State, n: nat, i: nat, buf: seq<u8>): Verdict {
    if depth > 0 then StreamedIn(depth - 1, h, s, t, n, i, buf)
    else if Streaming(h, s, t, n, i, buf) then Holds else Fails
  }

  /** i bytes of the stream are in the buffer, which took n values; folded (see Arith). */
  ghost function Streamed(h: Sha, s: State, t: State, n: nat, i: nat, buf: seq<u8>): Verdict {
    StreamedIn(FOLDS, h, s, t, n, i, buf)
  }

  lemma {:induction false} StreamedInMeans(depth: nat, h: Sha, s: State, t: State, n: nat, i: nat, buf: seq<u8>)
    ensures StreamedIn(depth, h, s, t, n, i, buf).Holds? <==> Streaming(h, s, t, n, i, buf)
  {
    if depth > 0 { StreamedInMeans(depth - 1, h, s, t, n, i, buf); }
  }

  lemma StreamedMeans(h: Sha, s: State, t: State, n: nat, i: nat, buf: seq<u8>)
    ensures Streamed(h, s, t, n, i, buf).Holds? <==> Streaming(h, s, t, n, i, buf)
  {
    StreamedInMeans(FOLDS, h, s, t, n, i, buf);
  }

  /** One value more. */
  lemma NextStreamed(h: Sha, s: State, t: State, n: nat, i: nat, b: seq<u8>, t': State, i': nat, b': seq<u8>)
    requires Sized(h, t) && Streamed(h, s, t, n, i, b).Holds? && i < |b| == |b'|
    requires t' == State(t.k, Hmac(h, t.k, t.v)) && i' == (if i + 32 <= |b| then i + 32 else |b|)
    requires b'[..i'] == b[..i] + t'.v[..i' - i]
    ensures Streamed(h, s, t', n + 1, i', b').Holds?
  {
    StreamedMeans(h, s, t, n, i, b);
    PrefixGrows(Stream(h, s, n), t'.v, b, i, b', i', n);
    StreamedMeans(h, s, t', n + 1, i', b');
  }

  lemma PrefixGrows(x: seq<u8>, y: seq<u8>, b: seq<u8>, i: nat, b': seq<u8>, i': nat, n: nat)
    requires |x| == 32 * n && |y| == 32 && |b'| == |b| && i < |b|
    requires i == (if 32 * n <= |b| then 32 * n else |b|) && b[..i] == x[..i]
    requires i' == (if i + 32 <= |b| then i + 32 else |b|) && b'[..i'] == b[..i] + y[..i' - i]
    ensures i == 32 * n && b'[..i'] == (x + y)[..i']
    ensures i' == (if 32 * (n + 1) <= |b| then 32 * (n + 1) else |b|) && 32 * (n + 1) < |b| + 32
  {
    assert x[..i] == x;
    assert (x + y)[..i'] == x + y[..i' - i];
  }

  /** The full buffer. */
  lemma StreamedAll(h: Sha, s: State, t: State, n: nat, buf: seq<u8>)
    requires Sized(h, s) && Streamed(h, s, t, n, |buf|, buf).Holds?
    ensures t == State(s.k, Value(h, s, Calls(|buf|))) && buf == Generated(h, s, |buf|)
  {
    StreamedMeans(h, s, t, n, |buf|, buf);
    CallsAre(|buf|, n);
    assert buf[..|buf|] == buf;
  }

  class Drbg {
    const h: Sha
    var odig: seq<u32>
    var idig: seq<u32>
    const v: array<u32>
    ghost var k: seq<u8>

    ghost predicate Valid()
      reads this, v
    {
      && Proper(h) && |k| == 32 && Digests(h, k, idig, odig)
      && v.Length == 16 && v[8..] == Ending()
    }

    /** The state of the generator that these fields stand for. */
    ghost function Abstract(): (s: State)
      requires Valid()
      reads this, v
      ensures Sized(h, s)
    {
      State(k, BytesOf(v[..8]))
    }

    /** The words of the first hash of HMAC(K, V || domain || data1 || data2). */
    method FirstHash(domain: u8, data1: seq<u8>, data2: seq<u8>) returns (s: seq<u32>)
      requires Valid() && Room(data1 + data2) && (domain == 0 || |data1| + |data2| > 0)
      modifies v
      ensures Valid() && v[..] == old(v[..]) && |s| == 8
      ensures Hash(h, InnerPad(h, k) + (Abstract().v + [domain] + (data1 + data2))) == BytesOf(s)
    {
      ghost var w, before := v[..8], v[..];
      if |data1| + |data2| == 0 {
        v[8] := 0x0080_0000;
        v[15] := 776;
        assert v[..] == w + Ends(0x0080_0000, 776);
        HashOfTail(h, InnerPad(h, k), w, [0], 0x0080_0000, 776);
        s := h.transform(idig, v[..]);
        v[8] := 0x8000_0000;
        v[15] := 768;
        assert v[..] == before;
        assert BytesOf(w) + [domain] + (data1 + data2) == BytesOf(w) + [0];
      } else {
        var context := new Context.Resume(h, idig, BytesOf(v[..8]) + [domain], 776, InnerPad(h, k));
        context.Update(data1);
        context.Update(data2);
        ghost var m := BytesOf(w) + [domain] + (data1 + data2);
        assert InnerPad(h, k) + (BytesOf(w) + [domain]) + data1 + data2 == InnerPad(h, k) + m;
        var digest := context.Final();
        BytesOfWords(digest);
        s := WordsOf(digest);
      }
    }

    /** The second hash, and the digests of its result as the new key. */
    method Rekey(s: seq<u32>, ghost m: seq<u8>)
      requires Valid() && Fits(h, k, m) && |s| == 8
      requires Hash(h, InnerPad(h, k) + m) == BytesOf(s)
      modifies this
      ensures Valid() && v[..] == old(v[..]) && k == Hmac(h, old(k), m)
    {
      HmacOfInner(h, k, m, s);
      var block := SecondHash(h, odig, s);
      k := BytesOf(block[..8]);
      KeyWords(h, block[..8]);
      idig, odig := DigestBlock(h, block, KeyBlock(h, k));
    }

    /** update_k: without data the domain is taken to be 0. */
    method UpdateK(domain: u8, data1: seq<u8>, data2: seq<u8>)
      requires Valid() && Room(data1 + data2) && (domain == 0 || |data1| + |data2| > 0)
      modifies this, v
      ensures Valid()
      ensures Abstract() == State(Hmac(h, old(k), old(Abstract()).v + [domain] + (data1 + data2)), old(Abstract()).v)
    {
      var s := FirstHash(domain, data1, data2);
      Rekey(s, Abstract().v + [domain] + (data1 + data2));
    }

    /** update_v */
    method UpdateV()
      requires Valid()
      modifies v
      ensures Valid() && Abstract() == State(k, Hmac(h, k, old(Abstract()).v))
    {
      ghost var w := v[..8];
      assert v[..] == w + Ending();
      var s := h.transform(idig, v[..]);
      HmacOfWords(h, k, w, s);
      Store(v, s);
      assert v[..] == s + Ending();
      Store(v, h.transform(odig, v[..]));
    }

    /** update_k and update_v: half of an update. */
    method HalfUpdate(domain: u8, data1: seq<u8>, data2: seq<u8>)
      requires Valid() && Room(data1 + data2) && (domain == 0 || |data1| + |data2| > 0)
      modifies this, v
      ensures Valid() && Abstract() == Half(h, old(Abstract()), domain, data1 + data2)
    {
      UpdateK(domain, data1, data2);
      UpdateV();
    }

    /** hmac_drbg_reseed */
    method Reseed(entropy: seq<u8>, addin: seq<u8>)
      requires Valid() && Room(entropy + addin)
      modifies this, v
      ensures Valid() && Abstract() == Reseeded(h, old(Abstract()), entropy, addin)
    {
      HalfUpdate(0, entropy, addin);
      if |entropy| == 0 { return; }
      HalfUpdate(1, entropy, addin);
    }

    /** hmac_drbg_init */
    constructor (h: Sha, entropy: seq<u8>, nonce: seq<u8>)
      requires Proper(h) && Room(entropy + nonce)
      ensures Valid() && fresh(v) && this.h == h
      ensures Abstract() == Reseeded(h, State(Zeros(32), Repeat(32, 1)), entropy, nonce)
      ensures entropy != [] || nonce == [] ==> Abstract() == Instantiate(h, entropy + nonce)
    {
      this.h := h;
      idig := h.transform(h.iv, seq(16, _ => 0x3636_3636));
      odig := h.transform(h.iv, seq(16, _ => 0x5c5c_5c5c));
      v := new u32[16](i => if i < 8 then 0x101_0101 else if i == 8 then 0x8000_0000 else if i < 15 then 0 else 768);
      k := Zeros(32);
      new;
      ZeroKey(h, 0x36, 0x3636_3636);
      ZeroKey(h, 0x5c, 0x5c5c_5c5c);
      assert v[8..] == Ending();
      OnesValue(v[..8]);
      Reseed(entropy, nonce);
      assert entropy == [] && nonce == [] ==> entropy + nonce == [];
    }

    /** One word, most significant byte first, as far as the buffer goes. */
    method PutWord(buf: array<u8>, i: nat, r: u32) returns (i': nat)
      requires i <= buf.Length
      modifies buf
      ensures i' == (if i + 4 <= buf.Length then i + 4 else buf.Length)
      ensures buf[..i'] == old(buf[..i]) + BytesOfWord(r)[..i' - i]
    {
      ghost var x := buf[..i];
      i' := i;
      var b := 0;
      while b < 4 && i' < buf.Length
        modifies buf
        invariant 0 <= b <= 4 && i' == i + b <= buf.Length && buf[..i'] == x + BytesOfWord(r)[..b]
      {
        buf[i'] := BytesOfWord(r)[b];
        assert BytesOfWord(r)[..b + 1] == BytesOfWord(r)[..b] + [BytesOfWord(r)[b]];
        i', b := i' + 1, b + 1;
      }
    }

    /** V, as far as the buffer goes. */
    method PutValue(buf: array<u8>, i: nat) returns (i': nat)
      requires Valid() && i <= buf.Length
      modifies buf
      ensures i' == (if i + 32 <= buf.Length then i + 32 else buf.Length)
      ensures buf[..][..i'] == old(buf[..])[..i] + Abstract().v[..i' - i]
    {
      ghost var x := buf[..i];
      ghost var value := BytesOf(v[..8]);
      i' := i;
      var j := 0;
      while j < 8 && i' < buf.Length
        modifies buf
        invariant 0 <= j <= 8 && i' == (if i + 4 * j <= buf.Length then i + 4 * j else buf.Length)
        invariant buf[..i'] == x + value[..i' - i]
      {
        WordBytesAt(v[..8], j);
        ghost var i0 := i';
        i' := PutWord(buf, i', v[j]);
        SliceGrows(value, 4 * j, i' - i0);
        j := j + 1;
      }
    }

    /** One value more of the stream. */
    method NextValue(buf: array<u8>, i: nat, ghost s: State, ghost n: nat) returns (i': nat)
      requires Valid() && i < buf.Length && Streamed(h, s, Abstract(), n, i, buf[..]).Holds?
      modifies v, buf
      ensures Valid() && i < i' <= buf.Length && Streamed(h, s, Abstract(), n + 1, i', buf[..]).Holds?
    {
      ghost var t, b := Abstract(), buf[..];
      UpdateV();
      i' := PutValue(buf, i);
      NextStreamed(h, s, t, n, i, b, Abstract(), i', buf[..]);
    }

    method Fill(buf: array<u8>)
      requires Valid()
      modifies v, buf
      ensures Valid() && buf[..] == Generated(h, old(Abstract()), buf.Length)
      ensures Abstract() == State(k, Value(h, old(Abstract()), Calls(buf.Length)))
    {
      ghost var s, n := Abstract(), 0;
      var i := 0;
      StreamedMeans(h, s, Abstract(), n, i, buf[..]);
      while i < buf.Length
        modifies v, buf
        invariant Valid() && i <= buf.Length && Streamed(h, s, Abstract(), n, i, buf[..]).Holds?
        decreases buf.Length - i
      {
        i := NextValue(buf, i, s, n);
        n := n + 1;
      }
      StreamedAll(h, s, Abstract(), n, buf[..]);
    }

    /** hmac_drbg_generate */
    method Generate(buf: array<u8>)
      requires Valid()
      modifies this, v, buf
      ensures Valid() && Abstract() == Advanced(h, old(Abstract()), buf.Length)
      ensures buf[..] == Generated(h, old(Abstract()), buf.Length)
    {
      Fill(buf);
      HalfUpdate(0, [], []);
    }
  }
}
