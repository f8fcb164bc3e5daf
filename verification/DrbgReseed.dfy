/** When reseeding does what the standard says, whatever the compression function is. */
module DrbgReseed {
  import opened Arith
  import opened Words
  import opened Sha256Spec
  import opened HmacSpec
  import opened DrbgSpec

  // ------------------------------------------------------------ a compression function that marks domain 1

  /**
   The first word of the state: 0, after the block of the key 1, and after the next block
   2 or 3, by the domain or, at the end of the second hash, by the result of the first.
   */
  function Mark(s: seq<u32>, b: seq<u32>): u32 {
    if |s| != 8 || |b| != 16 then 0
    else if s[0] == 0 then 1
    else if s[0] > 1 then s[0]
    else if b[8] == 0x8000_0000 then 2 + b[0] % 2
    else 2 + b[8] / 0x100_0000 % 2
  }

  ghost function Marking(): (h: Sha)
    ensures Proper(h)
  {
    Sha([0, 0, 0, 0, 0, 0, 0, 0], (s, b) => [Mark(s, b), 0, 0, 0, 0, 0, 0, 0])
  }

  lemma AfterKey(x: seq<u8>)
    requires |x| == 64
    ensures |Blocks(Marking(), x)| == 8 && Blocks(Marking(), x)[0] == 1
  {
    BlocksMean(Marking(), x);
    FoldBlock(Marking(), Marking().iv, x);
  }

  lemma {:induction false} MarkStays(s: seq<u32>, m: seq<u8>)
    requires |s| == 8 && s[0] > 1 && |m| % 64 == 0
    ensures |Fold(Marking(), s, m)| == 8 && Fold(Marking(), s, m)[0] == s[0]
    decreases |m|
  {
    if |m| > 0 {
      MarkStays(Marking().transform(s, WordsOf(m[..64])), m[64..]);
    }
  }

  lemma DomainWord(b: seq<u8>, domain: u8)
    requires |b| == 64 && b[32] == domain && domain <= 1
    ensures WordsOf(b)[8] != 0x8000_0000 && WordsOf(b)[8] / 0x100_0000 % 2 == domain
  {
    WordAt(b, 8);
    var y: int, z: int, w: int := b[33], b[34], b[35];
    DivModUnique(WordOf(b[4 * 8..]), domain, 0x1_0000 * y + 0x100 * z + w, 0x100_0000);
  }

  /** x is the block of the key, y the block with the domain. */
  lemma InnerMark(x: seq<u8>, y: seq<u8>, z: seq<u8>, domain: u8)
    requires |x| == 64 && |y| == 64 && |z| % 64 == 0 && y[32] == domain && domain <= 1
    ensures |x + y + z| % 64 == 0
    ensures |Blocks(Marking(), x + y + z)| == 8 && Blocks(Marking(), x + y + z)[0] == 2 + domain
  {
    var h := Marking();
    AfterKey(x);
    NextBlock(h, x, y);
    DomainWord(y, domain);
    BlocksMean(h, x + y);
    FoldConcat(h, h.iv, x + y, z);
    MarkStays(Fold(h, h.iv, x + y), z);
    BlocksMean(h, x + y + z);
  }

  lemma PaddedSplit(x: seq<u8>, m: seq<u8>) returns (y: seq<u8>, z: seq<u8>)
    requires |x| == 64 && |m| > 32 && Short(64 + |m|)
    ensures |y| == 64 && y[32] == m[32] && |z| % 64 == 0 && x + m + Padding(64 + |m|) == x + y + z
  {
    var p := m + Padding(64 + |m|);
    var n := 64 + |m| + |Padding(64 + |m|)|;
    DivMod(n, 64);
    y, z := p[..64], p[64..];
    DivModUnique(|z|, n / 64 - 2, 0, 64);
    assert p == y + z;
  }

  lemma HmacMark(key: seq<u8>, m: seq<u8>)
    requires Short(|key|) && Short(64 + |m|) && |m| > 32 && m[32] <= 1
    ensures Hmac(Marking(), key, m)[3] == 2 + m[32]
  {
    var h := Marking();
    var x := InnerPad(h, key);
    var y, z := PaddedSplit(x, m);
    InnerMark(x, y, z, m[32]);
    HashIsBlocks(h, x + m);
    var s := Blocks(h, x + y + z);
    HmacOfInner(h, key, m, s);
    AfterKey(OuterPad(h, key));
  }

  lemma HalfMark(s: State, domain: u8, data: seq<u8>)
    requires Sized(Marking(), s) && Room(data) && domain <= 1
    ensures Half(Marking(), s, domain, data).k[3] == 2 + domain
  {
    HmacMark(s.k, s.v + [domain] + data);
  }

  // ------------------------------------------------------------ the condition

  ghost predicate AsSpecified(entropy: seq<u8>, addin: seq<u8>)
    requires Room(entropy + addin)
  {
    forall h, s | Sized(h, s) :: Reseeded(h, s, entropy, addin) == Reseed(h, s, entropy, addin)
  }

  /**
   Reseeding is that of the standard, for every hash and state, if and only if there is
   entropy or there is no additional input either.
   */
  lemma ReseedExact(entropy: seq<u8>, addin: seq<u8>)
    requires Room(entropy + addin)
    ensures AsSpecified(entropy, addin) <==> entropy != [] || addin == []
  {
    if entropy == [] {
      assert entropy + addin == addin;
      if addin != [] {
        var h, s := Marking(), State(Zeros(32), Repeat(32, 1));
        var t := Half(h, s, 0, addin);
        HalfMark(s, 0, addin);
        HalfMark(t, 1, addin);
        assert Reseeded(h, s, entropy, addin) == t;
        assert Reseed(h, s, entropy, addin) == Half(h, t, 1, addin);
        assert Sized(h, s);
      }
    }
  }
}
