/** PBKDF2: one block in a context that goes on from call to call, and all the blocks of a key. */
module Pbkdf2 {
  import opened Arith
  import opened Words
  import opened Sha256Spec
  import opened Sha256
  import opened HmacSpec
  import opened HmacForms
  import opened Pbkdf2Spec

  /** The words of g and f stand for U_c and F. */
  ghost predicate Iterated(h: Sha, x: Input, c: nat, g: seq<u32>, f: seq<u32>) {
    && Usable(h, x) && c > 0 && |g| == 8 && |f| == 8
    && BytesOf(g) == U(h, x, c) && BytesOf(f) == F(h, x, c)
  }

  /** The words of the first hash of U_1, from the prepared inner digest. */
  method FirstHash(h: Sha, pass: seq<u8>, salt: seq<u8>, blocknr: u32, idig: seq<u32>) returns (s: seq<u32>)
    requires Usable(h, Input(pass, salt, blocknr)) && idig == Blocks(h, InnerPad(h, pass))
    ensures |s| == 8 && Hash(h, InnerPad(h, pass) + (salt + BytesOfWord(blocknr))) == BytesOf(s)
  {
    var ctx := new Context.Resume(h, idig, [], 512, InnerPad(h, pass));
    ctx.Update(salt);
    ctx.Update(BytesOfWord(blocknr));
    assert InnerPad(h, pass) + [] + salt + BytesOfWord(blocknr) == InnerPad(h, pass) + (salt + BytesOfWord(blocknr));
    var digest := ctx.Final();
    BytesOfWords(digest);
    s := WordsOf(digest);
  }

  class Block {
    const h: Sha
    const odig: seq<u32>
    const idig: seq<u32>
    const f: array<u32>
    const g: array<u32>
    var first: u32
    ghost const input: Input
    ghost var count: nat

    ghost predicate Valid()
      reads this, f, g
    {
      && f != g && f.Length == 8 && g.Length == 16 && g[8..] == Ending() && first <= 1 && (first == 1 ==> count == 1)
      && Iterated(h, input, count, g[..8], f[..]) && Digests(h, input.password, idig, odig)
    }

    /** pbkdf2_hmac_sha256_Init */
    constructor (h: Sha, pass: seq<u8>, salt: seq<u8>, blocknr: u32)
      requires Usable(h, Input(pass, salt, blocknr))
      ensures Valid() && fresh(f) && fresh(g)
      ensures this.h == h && input == Input(pass, salt, blocknr) && first == 1 && count == 1
    {
      var o, i := Prepare(h, pass);
      var s := FirstHash(h, pass, salt, blocknr, i);
      var block := new u32[16](i => if i < 8 then 0 else if i == 8 then 0x8000_0000 else if i < 15 then 0 else 768);
      Store(block, s);
      assert block[..] == s + Ending();
      HmacOfInner(h, pass, salt + BytesOfWord(blocknr), s);
      var t := h.transform(o, block[..]);
      Store(block, t);
      var sum := new u32[8](i requires 0 <= i < 8 => t[i]);
      assert sum[..] == t;
      this.h, odig, idig, f, g := h, o, i, sum, block;
      first, input, count := 1, Input(pass, salt, blocknr), 1;
    }

    /** f ^= g */
    method AddUp()
      requires f != g && f.Length == 8 && g.Length == 16
      modifies f
      ensures f[..] == XorWords(old(f[..]), g[..8])
    {
      ghost var x, y := f[..], XorWords(f[..], g[..8]);
      var j := 0;
      while j < 8
        invariant 0 <= j <= 8 && f[..j] == y[..j] && f[j..] == x[j..]
      {
        assert f[j..][0] == x[j..][0];
        f[j] := MaskWord(f[j], g[j]);
        assert f[j + 1..] == x[j..][1..];
        j := j + 1;
      }
      assert f[..] == y;
    }

    /** One iteration. */
    method Iterate()
      requires Valid()
      modifies this, f, g
      ensures Valid() && first == 0 && count == old(count) + 1
    {
      ghost var w, x := g[..8], f[..];
      assert g[..] == w + Ending();
      var s := h.transform(idig, g[..]);
      HmacOfWords(h, input.password, w, s);
      Store(g, s);
      assert g[..] == s + Ending();
      Store(g, h.transform(odig, g[..]));
      AddUp();
      XorBytesOf(x, g[..8]);
      first, count := 0, count + 1;
    }

    /** pbkdf2_hmac_sha256_Update */
    method Update(iterations: u32)
      requires Valid()
      modifies this, f, g
      ensures Valid() && Progress(first == 1, count) == Next(old(Progress(first == 1, count)), iterations)
    {
      ghost var c := count;
      ghost var start: nat := first;
      var i := first;
      while i < iterations
        invariant Valid() && start <= i && count == c + i - start && (i <= iterations || i == start)
      {
        Iterate();
        i := i + 1;
      }
      first := 0;
    }

    /** pbkdf2_hmac_sha256_Final */
    method Final() returns (key: seq<u8>)
      requires Valid()
      ensures Usable(h, input) && count > 0 && key == F(h, input, count)
    {
      key := BytesOf(f[..]);
    }
  }

  /** memcpy(key + offset, digest, n) */
  method CopyBytes(key: array<u8>, offset: nat, digest: seq<u8>, n: nat)
    requires n <= |digest| && offset + n <= key.Length
    modifies key
    ensures key[..offset + n] == old(key[..offset]) + digest[..n]
  {
    ghost var x := key[..offset];
    var i := 0;
    while i < n
      invariant 0 <= i <= n && key[..offset + i] == x + digest[..i]
    {
      key[offset + i] := digest[i];
      i := i + 1;
    }
  }

  method BlockDigest(h: Sha, pass: seq<u8>, salt: seq<u8>, iterations: u32, blocknr: u32) returns (digest: seq<u8>)
    requires Usable(h, Input(pass, salt, blocknr))
    ensures digest == F(h, Input(pass, salt, blocknr), if iterations == 0 then 1 else iterations)
  {
    var pctx := new Block(h, pass, salt, blocknr);
    pctx.Update(iterations);
    digest := pctx.Final();
  }

  /** One block of the key, or the first n bytes of it. */
  method DeriveBlock(h: Sha, pass: seq<u8>, salt: seq<u8>, iterations: u32, blocknr: u32, key: array<u8>, n: nat, ghost c: nat)
    requires Usable(h, Input(pass, salt, 0)) && c == (if iterations == 0 then 1 else iterations)
    requires 0 < blocknr && n <= 32 && (blocknr - 1) * 32 + n <= key.Length < 0x8000_0000
    requires key[..32 * (blocknr - 1)] == Concatenated(h, pass, salt, c, blocknr - 1)
    modifies key
    ensures key[..32 * (blocknr - 1) + n] == Concatenated(h, pass, salt, c, blocknr)[..32 * (blocknr - 1) + n]
  {
    var digest := BlockDigest(h, pass, salt, iterations, blocknr);
    var offset: u32 := (blocknr - 1) * 32;
    CopyBytes(key, offset, digest, n);
    BlockAppended(Concatenated(h, pass, salt, c, blocknr - 1), digest, n);
  }

  lemma BlockAppended(x: seq<u8>, y: seq<u8>, n: nat)
    requires n <= |y|
    ensures (x + y)[..|x| + n] == x + y[..n]
  {}

  lemma LastBlockSize(length: nat, count: nat, last: nat)
    requires if length % 32 > 0 then count == length / 32 + 1 && last == length % 32 else count == length / 32 && last == 32
    ensures count == Calls(length) && 0 < last <= 32 && 32 * count == length + 32 - last
  {
    DivMod(length, 32);
  }

  /** pbkdf2_hmac_sha256 */
  method Derive(h: Sha, pass: seq<u8>, salt: seq<u8>, iterations: u32, key: array<u8>)
    requires Usable(h, Input(pass, salt, 0)) && key.Length < 0x8000_0000
    modifies key
    ensures key[..] == Key(h, pass, salt, if iterations == 0 then 1 else iterations, key.Length)
  {
    ghost var c: nat := if iterations == 0 then 1 else iterations;
    var last: u32, count: u32 := key.Length % 32, key.Length / 32;
    if last > 0 {
      count := count + 1;
    } else {
      last := 32;
    }
    LastBlockSize(key.Length, count, last);
    var blocknr: u32 := 1;
    ghost var end := 0;
    while blocknr <= count
      invariant 1 <= blocknr <= count + 1
      invariant end == (if blocknr <= count then 32 * (blocknr - 1) else key.Length)
      invariant key[..end] == Concatenated(h, pass, salt, c, blocknr - 1)[..end]
    {
      var n := if blocknr < count then 32 else last;
      assert Concatenated(h, pass, salt, c, blocknr - 1)[..end] == Concatenated(h, pass, salt, c, blocknr - 1);
      DeriveBlock(h, pass, salt, iterations, blocknr, key, n, c);
      end := 32 * (blocknr - 1) + n;
      blocknr := blocknr + 1;
    }
    assert key[..key.Length] == key[..];
  }
}
