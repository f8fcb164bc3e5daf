/** The Poly1305 state: blocks are absorbed as they are completed, and the tag is made at the end. */
module Poly1305 {
  import opened Arith
  import opened Modular
  import opened Words
  import opened Limbs
  import opened LittleEndian
  import opened Poly1305Spec
  import opened Poly1305Limbs
  import opened Poly1305Blocks
  import opened Poly1305Key
  import opened Poly1305Tag

  // ------------------------------------------------------------ the blocks

  /** (h + b) r, from congruent numbers. */
  lemma BlockStep(h: int, a: int, b: int, r: int, h': int)
    requires Cong(h, a, P1305) && Cong(h', (h + b) * r, P1305)
    ensures Cong(h', ((a + b) * r) % P1305, P1305)
  {
    CongAdd(h, a, b, b, P1305);
    CongMul(h + b, a + b, r, r, P1305);
    CongMod((a + b) * r, P1305);
  }

  /** A whole block with its high bit. */
  lemma WholeBlock(b: seq<u8>)
    requires |b| == 16
    ensures BlockValue(b) == Val(b, 256) + TWO128
  {
    ValSnoc(b, 1, 256);
    SixteenBytes(16);
  }

  lemma SixteenBytes(n: nat)
    requires n == 16
    ensures Pow(256, n) == TWO128
  {
    assert Pow(256, 4) == 0x1_0000_0000;
    PowAdd(256, 4, 4);
    PowAdd(256, 8, 8);
  }

  /** poly1305_blocks: h := (h + block) r for every block of m. */
  method Blocks(h0: Five<u32>, r: Five<u32>, m: seq<u8>, final: bool, ghost a: int) returns (h: Five<u32>)
    requires Partly(h0) && Small(r) && |m| % 16 == 0 && (final ==> |m| == 16) && Cong(Value(h0), a, P1305)
    ensures Partly(h)
    ensures !final ==> Cong(Value(h), Accumulate(Value(r), a, m), P1305)
    ensures final ==> Cong(Value(h), ((a + Val(m, 256)) * Value(r)) % P1305, P1305)
  {
    var s1: u32, s2: u32, s3: u32, s4: u32 := r.x1 * 5, r.x2 * 5, r.x3 * 5, r.x4 * 5;
    h := h0;
    var i := 0;
    assert m[..0] == [];
    while |m| - i >= 16
      invariant 0 <= i <= |m| && i % 16 == 0 && Partly(h)
      invariant !final ==> Cong(Value(h), Accumulate(Value(r), a, m[..i]), P1305)
      invariant final && i == 0 ==> Cong(Value(h), a, P1305)
      invariant final && i == 16 ==> Cong(Value(h), ((a + Val(m, 256)) * Value(r)) % P1305, P1305)
    {
      h := OneBlock(h, r, s1, s2, s3, s4, m, i, final, a);
      i := i + 16;
    }
    assert m[..i] == m;
  }

  method OneBlock(h: Five<u32>, r: Five<u32>, s1: u32, s2: u32, s3: u32, s4: u32, m: seq<u8>, i: nat, final: bool, ghost a: int)
    returns (h': Five<u32>)
    requires Partly(h) && Small(r) && s1 == 5 * r.x1 && s2 == 5 * r.x2 && s3 == 5 * r.x3 && s4 == 5 * r.x4
    requires i + 16 <= |m| && i % 16 == 0 && (final ==> |m| == 16)
    requires if final then Cong(Value(h), a, P1305) else Cong(Value(h), Accumulate(Value(r), a, m[..i]), P1305)
    ensures Partly(h')
    ensures if final then Cong(Value(h'), ((a + Val(m, 256)) * Value(r)) % P1305, P1305)
            else Cong(Value(h'), Accumulate(Value(r), a, m[..i + 16]), P1305)
  {
    ghost var b := m[i..i + 16];
    var t := AddBlock(h, m[i..i + 16], final);
    h' := Multiply(t, r, s1, s2, s3, s4);
    if final {
      assert b == m;
      BlockStep(Value(h), a, Val(m, 256), Value(r), Value(h'));
    } else {
      WholeBlock(b);
      assert m[..i + 16] == m[..i] + b;
      AccumulateConcat(Value(r), a, m[..i], b);
      AccumulateBlock(Value(r), Accumulate(Value(r), a, m[..i]), b);
      BlockStep(Value(h), Accumulate(Value(r), a, m[..i]), BlockValue(b), Value(r), Value(h'));
    }
  }

  // ------------------------------------------------------------ the state

  ghost predicate Sums(h: Five<u32>, r: Five<u32>, blocks: seq<u8>) {
    |blocks| % 16 == 0 && Small(r) && Partly(h) && Cong(Value(h), Digest(Value(r), blocks), P1305)
  }

  ghost function SumsIn(depth: nat, h: Five<u32>, r: Five<u32>, blocks: seq<u8>): Verdict {
    if depth > 0 then SumsIn(depth - 1, h, r, blocks) else if Sums(h, r, blocks) then Holds else Fails
  }

  /** The accumulator after whole blocks, partly reduced; folded (see Arith), AccumulatedMeans unfolds it. */
  ghost function Accumulated(h: Five<u32>, r: Five<u32>, blocks: seq<u8>): Verdict {
    SumsIn(FOLDS, h, r, blocks)
  }

  lemma {:induction false} SumsInMeans(depth: nat, h: Five<u32>, r: Five<u32>, blocks: seq<u8>)
    ensures SumsIn(depth, h, r, blocks).Holds? <==> Sums(h, r, blocks)
  {
    if depth > 0 { SumsInMeans(depth - 1, h, r, blocks); }
  }

  lemma AccumulatedMeans(h: Five<u32>, r: Five<u32>, blocks: seq<u8>)
    ensures Accumulated(h, r, blocks).Holds? <==> Sums(h, r, blocks)
  {
    SumsInMeans(FOLDS, h, r, blocks);
  }

  predicate Loaded(r: Five<u32>, pad: seq<u32>, key: seq<u8>)
    requires |key| == 32
  {
    Value(r) == Multiplier(key) && |pad| == 4 && Val(pad, WORD32) == Val(key[16..], 256)
  }

  ghost function KeyedIn(depth: nat, r: Five<u32>, pad: seq<u32>, key: seq<u8>): Verdict
    requires |key| == 32
  {
    if depth > 0 then KeyedIn(depth - 1, r, pad, key) else if Loaded(r, pad, key) then Holds else Fails
  }

  /** The multiplier and the pad are those of the key; folded. */
  ghost function Keyed(r: Five<u32>, pad: seq<u32>, key: seq<u8>): Verdict
    requires |key| == 32
  {
    KeyedIn(FOLDS, r, pad, key)
  }

  lemma {:induction false} KeyedInMeans(depth: nat, r: Five<u32>, pad: seq<u32>, key: seq<u8>)
    requires |key| == 32
    ensures KeyedIn(depth, r, pad, key).Holds? <==> Loaded(r, pad, key)
  {
    if depth > 0 { KeyedInMeans(depth - 1, r, pad, key); }
  }

  lemma KeyedMeans(r: Five<u32>, pad: seq<u32>, key: seq<u8>)
    requires |key| == 32
    ensures Keyed(r, pad, key).Holds? <==> Loaded(r, pad, key)
  {
    KeyedInMeans(FOLDS, r, pad, key);
  }

  /** More blocks. */
  method Continue(h0: Five<u32>, r: Five<u32>, m: seq<u8>, ghost before: seq<u8>) returns (h: Five<u32>)
    requires Accumulated(h0, r, before).Holds? && |m| % 16 == 0
    ensures Accumulated(h, r, before + m).Holds?
  {
    AccumulatedMeans(h0, r, before);
    DigestConcat(Value(r), before, m);
    h := Blocks(h0, r, m, false, Digest(Value(r), before));
    AccumulatedMeans(h, r, before + m);
  }

  /** The last, short block, filled up with a one and zeros. */
  method LastBlock(h0: Five<u32>, r: Five<u32>, b: seq<u8>, ghost rest: seq<u8>, ghost before: seq<u8>) returns (h: Five<u32>)
    requires Accumulated(h0, r, before).Holds? && 0 < |rest| < 16 && |b| == 16
    requires b[..|rest| + 1] == rest + [1] && forall i :: |rest| < i < 16 ==> b[i] == 0
    ensures Partly(h) && Cong(Value(h), Digest(Value(r), before + rest), P1305)
  {
    AccumulatedMeans(h0, r, before);
    DigestLast(Value(r), before, rest);
    ValTrailingZeros(b, |rest| + 1, 256);
    h := Blocks(h0, r, b, true, Digest(Value(r), before));
  }

  /** The state of a new key. */
  method Load(key: seq<u8>) returns (r: Five<u32>, pad: seq<u32>)
    requires |key| == 32
    ensures Keyed(r, pad, key).Holds? && |pad| == 4 && Accumulated(Five(0, 0, 0, 0, 0), r, []).Holds?
  {
    r := LoadMultiplier(key);
    pad := [Word(key, 16), Word(key, 20), Word(key, 24), Word(key, 28)];
    ghost var k := key[16..];
    assert pad[0] == Word(k, 0) && pad[1] == Word(k, 4) && pad[2] == Word(k, 8) && pad[3] == Word(k, 12);
    WordsOfBytes(k, pad);
    KeyedMeans(r, pad, key);
    DigestMeans(Value(r), []);
    AccumulatedMeans(Five(0, 0, 0, 0, 0), r, []);
  }

  ghost predicate Holding(r: Five<u32>, h: Five<u32>, pad: seq<u32>, leftover: nat, buffer: seq<u8>, key: seq<u8>, absorbed: seq<u8>) {
    && |key| == 32 && Keyed(r, pad, key).Holds? && |pad| == 4 && |buffer| == 16 && leftover < 16 && leftover <= |absorbed|
    && buffer[..leftover] == absorbed[|absorbed| - leftover..]
    && Accumulated(h, r, absorbed[..|absorbed| - leftover]).Holds?
  }

  ghost function ConsistentIn(depth: nat, r: Five<u32>, h: Five<u32>, pad: seq<u32>, leftover: nat, buffer: seq<u8>,
                              key: seq<u8>, absorbed: seq<u8>): Verdict {
    if depth > 0 then ConsistentIn(depth - 1, r, h, pad, leftover, buffer, key, absorbed)
    else if Holding(r, h, pad, leftover, buffer, key, absorbed) then Holds else Fails
  }

  /** All that was absorbed is accumulated, but for the bytes in the buffer; folded. */
  ghost function Consistent(r: Five<u32>, h: Five<u32>, pad: seq<u32>, leftover: nat, buffer: seq<u8>,
                            key: seq<u8>, absorbed: seq<u8>): Verdict {
    ConsistentIn(FOLDS, r, h, pad, leftover, buffer, key, absorbed)
  }

  lemma {:induction false} ConsistentInMeans(depth: nat, r: Five<u32>, h: Five<u32>, pad: seq<u32>, leftover: nat, buffer: seq<u8>,
                                             key: seq<u8>, absorbed: seq<u8>)
    ensures ConsistentIn(depth, r, h, pad, leftover, buffer, key, absorbed).Holds? <==> Holding(r, h, pad, leftover, buffer, key, absorbed)
  {
    if depth > 0 { ConsistentInMeans(depth - 1, r, h, pad, leftover, buffer, key, absorbed); }
  }

  lemma ConsistentMeans(r: Five<u32>, h: Five<u32>, pad: seq<u32>, leftover: nat, buffer: seq<u8>, key: seq<u8>, absorbed: seq<u8>)
    ensures Consistent(r, h, pad, leftover, buffer, key, absorbed).Holds? <==> Holding(r, h, pad, leftover, buffer, key, absorbed)
  {
    ConsistentInMeans(FOLDS, r, h, pad, leftover, buffer, key, absorbed);
  }

  /** The tag, from a number congruent to the accumulator. */
  lemma TagMeans(key: seq<u8>, m: seq<u8>, v: int)
    requires |key| == 32 && Cong(v, Digest(Multiplier(key), m), P1305)
    ensures Tag(key, m) == (v % P1305 + Val(key[16..], 256)) % TWO128
  {
    DigestMeans(Multiplier(key), m);
    AccumulateRange(Multiplier(key), 0, m);
    CongIsMod(v, Accumulate(Multiplier(key), 0, m), P1305);
    DivModUnique(Accumulate(Multiplier(key), 0, m), 0, Accumulate(Multiplier(key), 0, m), P1305);
  }

  /** The tag from the accumulator. */
  method Emit(h: Five<u32>, pad: seq<u32>, mac: array<u8>, ghost r: Five<u32>, ghost key: seq<u8>, ghost m: seq<u8>)
    requires |key| == 32 && Keyed(r, pad, key).Holds? && |pad| == 4 && mac.Length == 16
    requires Partly(h) && Cong(Value(h), Digest(Value(r), m), P1305)
    modifies mac
    ensures Val(mac[..], 256) == Tag(key, m)
  {
    var f := FullCarry(h);
    KeyedMeans(r, pad, key);
    TagMeans(key, m, Value(f));
    f := FullReduce(f);
    WriteTag(f, pad, mac);
  }

  /** x behind the last n bytes of a. */
  lemma Extended(a: seq<u8>, n: nat, buf: seq<u8>, x: seq<u8>)
    requires n <= |a| && buf == a[|a| - n..] + x
    ensures a + x == a[..|a| - n] + buf && (a + x)[..|a + x| - |buf|] == a[..|a| - n] && (a + x)[|a + x| - |buf|..] == buf
  {}

  class State {
    var r: Five<u32>
    var h: Five<u32>
    var pad: seq<u32>
    var leftover: nat
    const buffer: array<u8>
    ghost var key: seq<u8>
    /** What has been absorbed so far. */
    ghost var absorbed: seq<u8>

    ghost predicate Valid()
      reads this, buffer
    {
      buffer.Length == 16 && Consistent(r, h, pad, leftover, buffer[..], key, absorbed).Holds?
    }

    /** poly1305_init */
    constructor (key: seq<u8>)
      requires |key| == 32
      ensures Valid() && fresh(buffer) && this.key == key && absorbed == []
    {
      buffer := new u8[16](_ => 0);
      h := Five(0, 0, 0, 0, 0);
      leftover := 0;
      this.key, absorbed := key, [];
      var limbs, words := Load(key);
      r, pad := limbs, words;
      new;
      ConsistentMeans(r, h, pad, leftover, buffer[..], key, absorbed);
    }

    /** Copies m[pos..pos + n] behind what the buffer holds. */
    method Store(m: seq<u8>, pos: nat, n: nat)
      requires buffer.Length == 16 && pos + n <= |m| && leftover + n <= 16
      modifies buffer
      ensures buffer[..leftover + n] == old(buffer[..leftover]) + m[pos..pos + n]
    {
      ghost var x := buffer[..leftover];
      var i := 0;
      while i < n
        invariant 0 <= i <= n && buffer[..leftover + i] == x + m[pos..pos + i]
      {
        buffer[leftover + i] := m[pos + i];
        assert m[pos..pos + i + 1] == m[pos..pos + i] + [m[pos + i]];
        i := i + 1;
      }
    }

    /** Fills up the buffer from m, and absorbs it if it becomes full. */
    method TopUp(m: seq<u8>) returns (want: nat)
      requires Valid() && leftover > 0
      modifies this, buffer
      ensures Valid() && key == old(key) && want <= |m| && absorbed == old(absorbed) + m[..want]
      ensures leftover > 0 ==> want == |m|
    {
      ConsistentMeans(r, h, pad, leftover, buffer[..], key, absorbed);
      want := 16 - leftover;
      if want > |m| {
        want := |m|;
      }
      Store(m, 0, want);
      ghost var before := absorbed[..|absorbed| - leftover];
      Extended(absorbed, leftover, buffer[..leftover + want], m[..want]);
      leftover := leftover + want;
      absorbed := absorbed + m[..want];
      if leftover < 16 {
        ConsistentMeans(r, h, pad, leftover, buffer[..], key, absorbed);
        return;
      }
      assert buffer[..16] == buffer[..];
      h := Continue(h, r, buffer[..], before);
      leftover := 0;
      assert absorbed[..|absorbed| - 0] == absorbed;
      ConsistentMeans(r, h, pad, leftover, buffer[..], key, absorbed);
    }

    /** Absorbs the whole blocks of m from pos on. */
    method WholeBlocks(m: seq<u8>, pos: nat) returns (pos': nat)
      requires Valid() && leftover == 0 && pos <= |m|
      modifies this
      ensures Valid() && leftover == 0 && key == old(key) && pos <= pos' <= |m| && |m| - pos' < 16
      ensures absorbed == old(absorbed) + m[pos..pos']
    {
      ConsistentMeans(r, h, pad, leftover, buffer[..], key, absorbed);
      pos' := pos;
      assert absorbed == absorbed + m[pos..pos'] && absorbed[..|absorbed| - 0] == absorbed;
      if |m| - pos >= 16 {
        var want := (|m| - pos) - (|m| - pos) % 16;
        h := Continue(h, r, m[pos..pos + want], absorbed);
        absorbed := absorbed + m[pos..pos + want];
        assert absorbed[..|absorbed| - 0] == absorbed;
        pos' := pos + want;
        ConsistentMeans(r, h, pad, leftover, buffer[..], key, absorbed);
      }
    }

    /** Keeps the rest of m. */
    method Keep(m: seq<u8>, pos: nat)
      requires Valid() && leftover == 0 && pos <= |m| && |m| - pos < 16
      modifies this, buffer
      ensures Valid() && key == old(key) && absorbed == old(absorbed) + m[pos..]
    {
      ConsistentMeans(r, h, pad, leftover, buffer[..], key, absorbed);
      ghost var done := absorbed;
      assert done[..|done| - 0] == done;
      Store(m, pos, |m| - pos);
      leftover := leftover + (|m| - pos);
      absorbed := absorbed + m[pos..];
      assert absorbed[..|absorbed| - leftover] == done && absorbed[|absorbed| - leftover..] == m[pos..] == m[pos..|m|];
      ConsistentMeans(r, h, pad, leftover, buffer[..], key, absorbed);
    }

    /** poly1305_update */
    method Update(m: seq<u8>)
      requires Valid()
      modifies this, buffer
      ensures Valid() && key == old(key) && absorbed == old(absorbed) + m
    {
      ghost var before := absorbed;
      var pos := 0;
      if leftover > 0 {
        pos := TopUp(m);
        if leftover > 0 {
          assert m[..pos] == m;
          return;
        }
      }
      var pos' := WholeBlocks(m, pos);
      Joined(before, m, pos, pos');
      if |m| - pos' > 0 {
        Keep(m, pos');
      }
    }

    /** The bytes still in the buffer, as a last block. */
    method Flush()
      requires Valid()
      modifies this, buffer
      ensures r == old(r) && pad == old(pad) && key == old(key) && absorbed == old(absorbed)
      ensures |pad| == 4 && |key| == 32 && Keyed(r, pad, key).Holds?
      ensures Partly(h) && Cong(Value(h), Digest(Value(r), absorbed), P1305)
    {
      ConsistentMeans(r, h, pad, leftover, buffer[..], key, absorbed);
      ghost var before, rest := absorbed[..|absorbed| - leftover], absorbed[|absorbed| - leftover..];
      assert absorbed == before + rest;
      if leftover > 0 {
        var i := leftover;
        buffer[i] := 1;
        i := i + 1;
        while i < 16
          modifies buffer
          invariant leftover < i <= 16 && buffer[..leftover] == rest && buffer[leftover] == 1
          invariant forall j :: leftover < j < i ==> buffer[j] == 0
        {
          buffer[i] := 0;
          i := i + 1;
        }
        assert buffer[..][..leftover + 1] == rest + [1];
        h := LastBlock(h, r, buffer[..], rest, before);
      } else {
        assert before == absorbed;
        AccumulatedMeans(h, r, absorbed);
      }
    }

    /** poly1305_finish: the tag of all that was absorbed; the state is cleared. */
    method Finish(mac: array<u8>)
      requires Valid() && mac.Length == 16 && mac != buffer
      modifies this, buffer, mac
      ensures |old(key)| == 32 && Val(mac[..], 256) == Tag(old(key), old(absorbed))
    {
      Flush();
      Emit(h, pad, mac, r, key, absorbed);
      h, r, pad := Five(0, 0, 0, 0, 0), Five(0, 0, 0, 0, 0), [0, 0, 0, 0];
    }
  }

  /** poly1305_auth */
  method Auth(mac: array<u8>, m: seq<u8>, key: seq<u8>)
    requires |key| == 32 && mac.Length == 16
    modifies mac
    ensures Val(mac[..], 256) == Tag(key, m)
  {
    var ctx := new State(key);
    ctx.Update(m);
    assert [] + m == m;
    ctx.Finish(mac);
  }

  lemma Joined(a: seq<u8>, m: seq<u8>, p: nat, q: nat)
    requires p <= q <= |m|
    ensures a + m[..0] == a && a + m[..p] + m[p..q] + m[q..] == a + m
    ensures q == |m| ==> a + m[..p] + m[p..q] == a + m
  {}
}
