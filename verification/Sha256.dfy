/** The SHA-256 context: blocks are hashed as they are completed, and padded at the end. */
module Sha256 {
  import opened Arith
  import opened Words
  import opened Sha256Spec

  ghost predicate Holding(h: Sha, state: seq<u32>, bitcount: u64, buffer: seq<u8>, absorbed: seq<u8>) {
    var used := |absorbed| % 64;
    && Proper(h) && |buffer| == 64 && bitcount == 8 * |absorbed|
    && buffer[..used] == absorbed[|absorbed| - used..]
    && (|absorbed| - used) % 64 == 0 && state == Blocks(h, absorbed[..|absorbed| - used])
  }

  ghost function ConsistentIn(depth: nat, h: Sha, state: seq<u32>, bitcount: u64, buffer: seq<u8>, absorbed: seq<u8>): Verdict {
    if depth > 0 then ConsistentIn(depth - 1, h, state, bitcount, buffer, absorbed)
    else if Holding(h, state, bitcount, buffer, absorbed) then Holds else Fails
  }

  /** All that was absorbed is hashed, but for the bytes in the buffer; folded (see Arith). */
  ghost function Consistent(h: Sha, state: seq<u32>, bitcount: u64, buffer: seq<u8>, absorbed: seq<u8>): Verdict {
    ConsistentIn(FOLDS, h, state, bitcount, buffer, absorbed)
  }

  lemma {:induction false} ConsistentInMeans(depth: nat, h: Sha, state: seq<u32>, bitcount: u64, buffer: seq<u8>, absorbed: seq<u8>)
    ensures ConsistentIn(depth, h, state, bitcount, buffer, absorbed).Holds? <==> Holding(h, state, bitcount, buffer, absorbed)
  {
    if depth > 0 { ConsistentInMeans(depth - 1, h, state, bitcount, buffer, absorbed); }
  }

  lemma ConsistentMeans(h: Sha, state: seq<u32>, bitcount: u64, buffer: seq<u8>, absorbed: seq<u8>)
    ensures Consistent(h, state, bitcount, buffer, absorbed).Holds? <==> Holding(h, state, bitcount, buffer, absorbed)
  {
    ConsistentInMeans(FOLDS, h, state, bitcount, buffer, absorbed);
  }

  /** x behind the last bytes of a, those of its incomplete block. */
  lemma Extended(a: seq<u8>, x: seq<u8>, buf: seq<u8>)
    requires |a| % 64 + |x| < 64 && buf == a[|a| - |a| % 64..] + x
    ensures |a + x| % 64 == |a| % 64 + |x|
    ensures (a + x)[..|a + x| - |a + x| % 64] == a[..|a| - |a| % 64] && (a + x)[|a + x| - |a + x| % 64..] == buf
  {
    DivMod(|a|, 64);
    DivModUnique(|a| + |x|, |a| / 64, |a| % 64 + |x|, 64);
  }

  /** x completes the last block of a. */
  lemma Completed(a: seq<u8>, x: seq<u8>, buf: seq<u8>)
    requires |a| % 64 + |x| == 64 && buf == a[|a| - |a| % 64..] + x
    ensures |a + x| % 64 == 0 && (|a| - |a| % 64) % 64 == 0 && a + x == a[..|a| - |a| % 64] + buf
  {
    DivMod(|a|, 64);
    DivModUnique(|a| + |x|, |a| / 64 + 1, 0, 64);
    DivModUnique(|a| - |a| % 64, |a| / 64, 0, 64);
  }

  class Context {
    const h: Sha
    var state: seq<u32>
    var bitcount: u64
    const buffer: array<u8>
    ghost var absorbed: seq<u8>

    ghost predicate Valid()
      reads this, buffer
    {
      buffer.Length == 64 && Consistent(h, state, bitcount, buffer[..], absorbed).Holds?
    }

    /** sha256_Init */
    constructor (h: Sha)
      requires Proper(h)
      ensures Valid() && fresh(buffer) && this.h == h && absorbed == []
    {
      this.h := h;
      state := h.iv;
      bitcount := 0;
      buffer := new u8[64](_ => 0);
      absorbed := [];
      new;
      BlocksMean(h, []);
      ConsistentMeans(h, state, bitcount, buffer[..], absorbed);
    }

    /** A context set up by hand: a state after whole blocks, and some bytes more. */
    constructor Resume(h: Sha, state: seq<u32>, rest: seq<u8>, bitcount: u64, ghost before: seq<u8>)
      requires Proper(h) && |before| % 64 == 0 && state == Blocks(h, before) && |rest| < 64 && bitcount == 8 * (|before| + |rest|)
      ensures Valid() && fresh(buffer) && this.h == h && absorbed == before + rest
    {
      this.h, this.state, this.bitcount := h, state, bitcount;
      var b := new u8[64](i => if 0 <= i < |rest| then rest[i] else 0);
      buffer := b;
      absorbed := before + rest;
      new;
      assert buffer[..|rest|] == rest;
      assert before[|before| - 0..] == [] && before[..|before| - 0] == before;
      Extended(before, rest, rest);
      ConsistentMeans(h, this.state, this.bitcount, buffer[..], absorbed);
    }

    /** memcpy(buffer + used, data + pos, n) */
    method Copy(used: nat, data: seq<u8>, pos: nat, n: nat)
      requires buffer.Length == 64 && used + n <= 64 && pos + n <= |data|
      modifies buffer
      ensures buffer[..used + n] == old(buffer[..used]) + data[pos..pos + n]
    {
      ghost var x := buffer[..used];
      var i := 0;
      while i < n
        modifies buffer
        invariant 0 <= i <= n && buffer[..used + i] == x + data[pos..pos + i]
      {
        buffer[used + i] := data[pos + i];
        assert data[pos..pos + i + 1] == data[pos..pos + i] + [data[pos + i]];
        i := i + 1;
      }
    }

    /** The rest of an incomplete block; the block is hashed if the data complete it. */
    method TopUp(data: seq<u8>) returns (pos: nat)
      requires Valid() && |absorbed| % 64 > 0 && Short(|absorbed| + |data|)
      modifies this, buffer
      ensures Valid() && pos <= |data| && absorbed == old(absorbed) + data[..pos]
      ensures |absorbed| % 64 == 0 || pos == |data|
    {
      ConsistentMeans(h, state, bitcount, buffer[..], absorbed);
      ghost var a := absorbed;
      var used: nat := (bitcount / 8) % 64;
      var freespace := 64 - used;
      if |data| >= freespace {
        Copy(used, data, 0, freespace);
        bitcount := bitcount + freespace * 8;
        absorbed := absorbed + data[..freespace];
        assert buffer[..64] == buffer[..];
        Completed(a, data[..freespace], buffer[..]);
        NextBlock(h, a[..|a| - |a| % 64], buffer[..]);
        state := h.transform(state, WordsOf(buffer[..]));
        assert absorbed[..|absorbed| - 0] == absorbed;
        ConsistentMeans(h, state, bitcount, buffer[..], absorbed);
        return freespace;
      }
      Copy(used, data, 0, |data|);
      bitcount := bitcount + |data| * 8;
      absorbed := absorbed + data[..|data|];
      Extended(a, data[..|data|], buffer[..used + |data|]);
      ConsistentMeans(h, state, bitcount, buffer[..], absorbed);
      return |data|;
    }

    /** One whole block of the data. */
    method WholeBlock(data: seq<u8>, pos: nat)
      requires Valid() && |absorbed| % 64 == 0 && pos + 64 <= |data| && Short(|absorbed| + 64)
      modifies this, buffer
      ensures Valid() && absorbed == old(absorbed) + data[pos..pos + 64] && |absorbed| % 64 == 0
    {
      ConsistentMeans(h, state, bitcount, buffer[..], absorbed);
      ghost var a := absorbed;
      Copy(0, data, pos, 64);
      assert buffer[..0 + 64] == buffer[..] == data[pos..pos + 64];
      assert a[..|a| - 0] == a;
      NextBlock(h, a, buffer[..]);
      state := h.transform(state, WordsOf(buffer[..]));
      bitcount := bitcount + 64 * 8;
      absorbed := absorbed + data[pos..pos + 64];
      assert absorbed[..|absorbed| - 0] == absorbed;
      ConsistentMeans(h, state, bitcount, buffer[..], absorbed);
    }

    /** What is left of the data. */
    method Keep(data: seq<u8>, pos: nat)
      requires Valid() && |absorbed| % 64 == 0 && pos <= |data| < pos + 64 && Short(|absorbed| + |data| - pos)
      modifies this, buffer
      ensures Valid() && absorbed == old(absorbed) + data[pos..]
    {
      ConsistentMeans(h, state, bitcount, buffer[..], absorbed);
      ghost var a := absorbed;
      Copy(0, data, pos, |data| - pos);
      bitcount := bitcount + (|data| - pos) * 8;
      absorbed := absorbed + data[pos..];
      assert data[pos..] == data[pos..|data|] && a[|a| - 0..] == [];
      Extended(a, data[pos..], buffer[..|data| - pos]);
      ConsistentMeans(h, state, bitcount, buffer[..], absorbed);
    }

    /** sha256_Update */
    method Update(data: seq<u8>)
      requires Valid() && Short(|absorbed| + |data|)
      modifies this, buffer
      ensures Valid() && absorbed == old(absorbed) + data
    {
      ghost var a := absorbed;
      if |data| == 0 {
        assert a + data == a;
        return;
      }
      var pos := 0;
      assert a + data[..0] == a;
      ConsistentMeans(h, state, bitcount, buffer[..], absorbed);
      if (bitcount / 8) % 64 > 0 {
        pos := TopUp(data);
        ConsistentMeans(h, state, bitcount, buffer[..], absorbed);
        if (bitcount / 8) % 64 > 0 {
          assert data[..pos] == data;
          return;
        }
      }
      while |data| - pos >= 64
        invariant Valid() && pos <= |data| && absorbed == a + data[..pos] && |absorbed| % 64 == 0
      {
        assert data[..pos + 64] == data[..pos] + data[pos..pos + 64];
        WholeBlock(data, pos);
        pos := pos + 64;
      }
      assert data == data[..pos] + data[pos..];
      if |data| - pos > 0 {
        Keep(data, pos);
      }
    }

    /** Zeros from used on, up to n. */
    method Clear(used: nat, n: nat)
      requires buffer.Length == 64 && used <= n <= 64
      modifies buffer
      ensures buffer[..n] == old(buffer[..used]) + Zeros(n - used)
    {
      ghost var x := buffer[..used];
      var i := used;
      while i < n
        modifies buffer
        invariant used <= i <= n && buffer[..used] == x && forall j :: used <= j < i ==> buffer[j] == 0
      {
        buffer[i] := 0;
        i := i + 1;
      }
      assert buffer[..n] == x + Zeros(n - used);
    }

    /** The one bit after the rest; the block is hashed if the bit count does not fit it. */
    method StartPadding(used0: nat, ghost whole: seq<u8>, ghost rest: seq<u8>) returns (used: nat, ghost first: seq<u8>)
      requires buffer.Length == 64 && used0 == |rest| < 64 && buffer[..used0] == rest
      requires |whole| % 64 == 0 && state == Blocks(h, whole)
      modifies `state, buffer
      ensures |whole + first| % 64 == 0 && state == Blocks(h, whole + first) && used <= 56
      ensures if |rest| <= 55 then first == [] && used == |rest| + 1 && buffer[..used] == rest + [0x80]
              else first == rest + [0x80] + Zeros(63 - |rest|) && used == 0
    {
      used := used0;
      buffer[used] := 0x80;
      assert buffer[..used + 1] == rest + [0x80];
      used := used + 1;
      first := [];
      assert whole + [] == whole;
      if used > 56 {
        Clear(used, 64);
        first := buffer[..];
        assert buffer[..64] == buffer[..];
        NextBlock(h, whole, first);
        state := h.transform(state, WordsOf(buffer[..]));
        used := 0;
      }
    }

    /** sha256_Final: the hash of all that was absorbed; the context is cleared. */
    method Final() returns (digest: seq<u8>)
      requires Valid() && Short(|absorbed|)
      modifies this, buffer
      ensures digest == Hash(h, old(absorbed)) && |digest| == 32
    {
      ConsistentMeans(h, state, bitcount, buffer[..], absorbed);
      HashLength(h, absorbed);
      var used: nat := (bitcount / 8) % 64;
      ghost var whole, rest := absorbed[..|absorbed| - used], absorbed[|absorbed| - used..];
      assert absorbed == whole + rest;
      ghost var first: seq<u8>;
      used, first := StartPadding(used, whole, rest);
      assert used == 0 ==> buffer[..used] == [];
      Clear(used, 56);
      assert Zeros(56) == [] + Zeros(56);
      LastBlocks(h, absorbed, whole, rest, first, buffer[..56], bitcount);
      var block := WordsOf(buffer[..56]) + [bitcount / WORD32, bitcount % WORD32];
      state := h.transform(state, block);
      digest := BytesOf(state);
      state, bitcount := [0, 0, 0, 0, 0, 0, 0, 0], 0;
      Clear(0, 64);
    }
  }

  lemma BlockLengths(whole: seq<u8>, rest: seq<u8>, first: seq<u8>)
    requires |whole| % 64 == 0 && |rest| < 64 && (|first| == 0 || |first| == 64)
    ensures |whole + rest| % 64 == |rest| && |whole + first| % 64 == 0
  {
    DivMod(|whole|, 64);
    DivModUnique(|whole + rest|, |whole| / 64, |rest|, 64);
    DivModUnique(|whole + first|, |whole| / 64 + |first| / 64, 0, 64);
  }

  /** The padded message: whole blocks, one more if the padding needs it, and the last. */
  lemma LastBlocks(h: Sha, a: seq<u8>, whole: seq<u8>, rest: seq<u8>, first: seq<u8>, b: seq<u8>, bits: u64)
    requires Short(|a|) && bits == 8 * |a| && a == whole + rest && |whole| % 64 == 0 && |rest| < 64
    requires if |rest| <= 55 then first == [] && b == rest + [0x80] + Zeros(55 - |rest|)
             else first == rest + [0x80] + Zeros(63 - |rest|) && b == Zeros(56)
    ensures |b| == 56 && |whole + first| % 64 == 0
    ensures Hash(h, a) == BytesOf(h.transform(Blocks(h, whole + first), WordsOf(b) + [bits / WORD32, bits % WORD32]))
  {
    BlockLengths(whole, rest, first);
    LastBlock(h, whole + first, b, |a|, bits);
    PaddedParts(a, whole, rest, first, b);
    HashIsBlocks(h, a);
  }

  lemma PaddedParts(a: seq<u8>, whole: seq<u8>, rest: seq<u8>, first: seq<u8>, b: seq<u8>)
    requires Short(|a|) && a == whole + rest && |whole| % 64 == 0 && |rest| < 64 && |a| % 64 == |rest|
    requires if |rest| <= 55 then first == [] && b == rest + [0x80] + Zeros(55 - |rest|)
             else first == rest + [0x80] + Zeros(63 - |rest|) && b == Zeros(56)
    ensures a + Padding(|a|) == whole + first + (b + Length(|a|))
  {
    if |rest| > 55 {
      assert Zeros(Gap(|a|)) == Zeros(63 - |rest|) + Zeros(56);
    }
  }
}
