/** HMAC-SHA-256: the simple form, and the preparation of its two precomputed digests. */
module HmacForms {
  import opened Arith
  import opened Words
  import opened Sha256Spec
  import opened Sha256
  import opened HmacSpec

  /** sha256_Raw */
  method Raw(h: Sha, data: seq<u8>) returns (digest: seq<u8>)
    requires Proper(h) && Short(|data|)
    ensures digest == Hash(h, data) && |digest| == 32
  {
    var context := new Context(h);
    context.Update(data);
    assert [] + data == data;
    digest := context.Final();
  }

  method FillKeyBlock(h: Sha, key: seq<u8>) returns (block: seq<u8>)
    requires Proper(h) && Short(|key|)
    ensures block == KeyBlock(h, key)
  {
    if |key| > 64 {
      var digest := Raw(h, key);
      block := digest + Zeros(32);
    } else {
      block := key + Zeros(64 - |key|);
    }
  }

  // ------------------------------------------------------------ the simple form

  method MaskKey(block: seq<u8>) returns (inner: seq<u8>, outer: seq<u8>)
    requires |block| == 64
    ensures inner == XorBytes(block, Repeat(64, 0x36)) && outer == XorBytes(block, Repeat(64, 0x5c))
  {
    ghost var x, y := XorBytes(block, Repeat(64, 0x36)), XorBytes(block, Repeat(64, 0x5c));
    inner, outer := [], [];
    var i := 0;
    while i < 64
      invariant 0 <= i <= 64 && inner == x[..i] && outer == y[..i]
    {
      outer := outer + [Mask(block[i], 0x5c)];
      inner := inner + [Mask(block[i], 0x36)];
      i := i + 1;
    }
  }

  class HmacContext {
    const h: Sha
    const outer: seq<u8>
    var ctx: Context
    ghost const key: seq<u8>
    ghost var message: seq<u8>

    ghost predicate Valid()
      reads this, ctx, ctx.buffer
    {
      && ctx.Valid() && ctx.h == h && Proper(h) && Short(|key|)
      && outer == OuterPad(h, key) && ctx.absorbed == InnerPad(h, key) + message
    }

    /** hmac_sha256_Init */
    constructor (h: Sha, key: seq<u8>)
      requires Proper(h) && Short(|key|)
      ensures Valid() && fresh(ctx) && fresh(ctx.buffer) && this.h == h && this.key == key && message == []
    {
      var block := FillKeyBlock(h, key);
      var x, y := MaskKey(block);
      var c := new Context(h);
      c.Update(x);
      assert [] + x == x == x + [];
      this.h, outer, ctx := h, y, c;
      this.key, message := key, [];
    }

    /** hmac_sha256_Update */
    method Update(msg: seq<u8>)
      requires Valid() && Short(64 + |message| + |msg|)
      modifies this, ctx, ctx.buffer
      ensures Valid() && ctx == old(ctx) && message == old(message) + msg
    {
      assert InnerPad(h, key) + message + msg == InnerPad(h, key) + (message + msg);
      ctx.Update(msg);
      message := message + msg;
    }

    /** hmac_sha256_Final: one context after the other in the same place. */
    method Final() returns (hmac: seq<u8>)
      requires Valid() && Fits(h, key, message)
      modifies this, ctx, ctx.buffer
      ensures Fits(h, key, old(message)) && hmac == Hmac(h, key, old(message))
    {
      HmacMeans(h, key, message);
      hmac := ctx.Final();
      ctx := new Context(h);
      ctx.Update(outer);
      assert [] + outer == outer;
      ctx.Update(hmac);
      hmac := ctx.Final();
    }
  }

  /** hmac_sha256 */
  method HmacSha256(h: Sha, key: seq<u8>, msg: seq<u8>) returns (hmac: seq<u8>)
    requires Fits(h, key, msg)
    ensures hmac == Hmac(h, key, msg)
  {
    var hctx := new HmacContext(h, key);
    hctx.Update(msg);
    assert [] + msg == msg;
    hmac := hctx.Final();
  }

  // ------------------------------------------------------------ precomputed digests

  /** The two digests of a key. */
  ghost predicate Digests(h: Sha, key: seq<u8>, inner: seq<u32>, outer: seq<u32>)
    requires Proper(h) && Short(|key|)
  {
    inner == Blocks(h, InnerPad(h, key)) && outer == Blocks(h, OuterPad(h, key))
  }

  /** They are the states after the key, filled up or hashed, masked with 0x36 inside and with 0x5c outside. */
  lemma DigestsMean(h: Sha, key: seq<u8>, inner: seq<u32>, outer: seq<u32>, k: seq<u8>)
    requires Proper(h) && Short(|key|)
    requires k == if |key| <= 64 then key + Zeros(64 - |key|) else Hash(h, key) + Zeros(32)
    ensures |k| == 64
    ensures Digests(h, key, inner, outer) <==>
              && inner == Fold(h, h.iv, XorBytes(k, Repeat(64, 0x36))) && outer == Fold(h, h.iv, XorBytes(k, Repeat(64, 0x5c)))
  {
    if |key| > 64 { HashLength(h, key); }
    BlocksMean(h, XorBytes(k, Repeat(64, 0x36)));
    BlocksMean(h, XorBytes(k, Repeat(64, 0x5c)));
  }

  method MaskWords(block: seq<u8>, pad: array<u32>)
    requires |block| == 64 && pad.Length == 16
    modifies pad
    ensures pad[..] == XorWords(WordsOf(block), seq(16, _ => 0x5c5c_5c5c))
  {
    ghost var x := XorWords(WordsOf(block), seq(16, _ => 0x5c5c_5c5c));
    var i := 0;
    while i < 16
      invariant 0 <= i <= 16 && pad[..i] == x[..i]
    {
      WordAt(block, i);
      pad[i] := MaskWord(WordOf(block[4 * i..]), 0x5c5c_5c5c);
      i := i + 1;
    }
    assert pad[..] == x;
  }

  /** Masked with a and then with a and b is masked with b. */
  lemma MaskTwice(x: u32, a: u32, b: u32)
    ensures MaskWord(MaskWord(MaskWord(x, a), a), b) == MaskWord(x, b)
  {
    XorComm(Xor(x, a), a);
    XorComm(x, a);
    XorTwice(a, x);
  }

  /** Masked with a, made masked with b. */
  method MaskAgain(pad: array<u32>, ghost words: seq<u32>, a: u32, b: u32)
    requires pad.Length == |words| == 16 && pad[..] == XorWords(words, seq(16, _ => a))
    modifies pad
    ensures pad[..] == XorWords(words, seq(16, _ => b))
  {
    ghost var x, y := XorWords(words, seq(16, _ => a)), XorWords(words, seq(16, _ => b));
    var i := 0;
    while i < 16
      invariant 0 <= i <= 16 && pad[..i] == y[..i] && pad[i..] == x[i..]
    {
      assert pad[i..][0] == x[i..][0] == MaskWord(words[i], a);
      MaskTwice(words[i], a, b);
      pad[i] := MaskWord(MaskWord(pad[i], a), b);
      assert pad[i + 1..] == x[i..][1..];
      i := i + 1;
    }
    assert pad[..] == y;
  }

  /** hmac_sha256_prepare */
  method Prepare(h: Sha, key: seq<u8>) returns (outer: seq<u32>, inner: seq<u32>)
    requires Proper(h) && Short(|key|)
    ensures Digests(h, key, inner, outer)
  {
    var block := FillKeyBlock(h, key);
    var pad := new u32[16];
    MaskWords(block, pad);
    PadDigest(h, block, 0x5c, 0x5c5c_5c5c);
    outer := h.transform(h.iv, pad[..]);
    MaskAgain(pad, WordsOf(block), 0x5c5c_5c5c, 0x3636_3636);
    PadDigest(h, block, 0x36, 0x3636_3636);
    inner := h.transform(h.iv, pad[..]);
  }

  /** Eight words into the first half of a block. */
  method Store(block: array<u32>, s: seq<u32>)
    requires block.Length == 16 && |s| == 8
    modifies block
    ensures block[..8] == s && block[8..] == old(block[8..])
  {
    var i := 0;
    while i < 8
      invariant 0 <= i <= 8 && block[..i] == s[..i]
      invariant forall j :: 8 <= j < 16 ==> block[j] == old(block[j])
    {
      block[i] := s[i];
      i := i + 1;
    }
  }
}
