/** convert_bits: regrouping a bit string from bytes to five-bit symbols and back. */
module ConvertBits {
  import opened Arith
  import opened Words
  import opened Wrappers
  import opened Limbs
  import opened Powers
  import opened BigEndian

  /** The two group sizes in use. */
  predicate GroupSize(bits: nat) {
    bits == 5 || bits == 8
  }

  /**
   The groups of `input` are the groups of `out` and r more bits with the value rem: the bit
   strings are compared as numbers, most significant bit first.
   */
  ghost predicate Regrouped(input: seq<nat>, inbits: nat, out: seq<nat>, outbits: nat, r: nat, rem: nat) {
    && Normalized(input, Two(inbits)) && Normalized(out, Two(outbits))
    && |input| * inbits == |out| * outbits + r && rem < Two(r)
    && Big(input, Two(inbits)) == Big(out, Two(outbits)) * Two(r) + rem
  }

  lemma StartRegrouped(inbits: nat, outbits: nat)
    ensures Regrouped([], inbits, [], outbits, 0, 0)
  {
    TwoMeans(0);
  }

  /** One more group comes in. */
  lemma Pushed(input: seq<nat>, inbits: nat, out: seq<nat>, outbits: nat, r: nat, rem: nat, v: nat, rem': nat)
    requires Regrouped(input, inbits, out, outbits, r, rem) && v < Two(inbits) && rem' == rem * Two(inbits) + v
    ensures Regrouped(input + [v], inbits, out, outbits, r + inbits, rem')
  {
    var b, x, y, w := Two(inbits), Big(input, Two(inbits)), Big(out, Two(outbits)), Two(r);
    assert Big(input + [v], b) == b * x + v by { BigSnoc(input, v, b); }
    assert Two(r + inbits) == w * b by { TwoAdd(r, inbits); }
    assert |input + [v]| * inbits == |input| * inbits + inbits by { Distrib(inbits, |input|, 1); }
    PushValue(b, x, y, w, rem, v);
    PushRange(b, w, rem, v);
  }

  lemma PushValue(b: int, x: int, y: int, w: int, rem: int, v: int)
    requires x == y * w + rem
    ensures b * x + v == y * (w * b) + (rem * b + v)
  {
    Distrib(b, y * w, rem);
    Assoc(b, y, w);
    Assoc(y, w, b);
    Rotate(y, w, b);
  }

  lemma PushRange(b: int, w: int, rem: int, v: int)
    requires 0 <= rem < w && 0 <= v < b
    ensures 0 <= rem * b + v < w * b
  {
    MulLe(b, rem, w - 1);
    Distrib(b, w, 1);
    MulNonNegative(rem, b);
  }

  /** One group goes out: the top outbits of the r pending bits. */
  lemma Taken(input: seq<nat>, inbits: nat, out: seq<nat>, outbits: nat, r: nat, rem: nat, d: nat, r': nat, rem': nat)
    requires Regrouped(input, inbits, out, outbits, r, rem) && r == r' + outbits
    requires d < Two(outbits) && rem' < Two(r') && rem == d * Two(r') + rem'
    ensures Regrouped(input, inbits, out + [d], outbits, r', rem')
  {
    var b, y, w := Two(outbits), Big(out, Two(outbits)), Two(r');
    assert Big(out + [d], b) == b * y + d by { BigSnoc(out, d, b); }
    assert Two(r) == w * b by { TwoAdd(r', outbits); }
    assert |out + [d]| * outbits == |out| * outbits + outbits by { Distrib(outbits, |out|, 1); }
    TakeValue(b, y, w, d, rem');
  }

  lemma TakeValue(b: int, y: int, w: int, d: int, rem: int)
    ensures y * (w * b) + (d * w + rem) == (b * y + d) * w + rem
  {
    Distrib(w, b * y, d);
    Assoc(y, w, b);
    Rotate(y, w, b);
    Assoc(w, b, y);
  }

  /** The pending bits of the accumulator. */
  ghost function Rest(val: nat, bits: nat): (rem: nat)
    ensures rem < Two(bits)
  {
    DivMod(val, Two(bits));
    val % Two(bits)
  }

  // ------------------------------------------------------------ the loops

  /** val << inbits | v: of the accumulator only the lowest bits matter. */
  method Push(val: u32, inbits: nat, v: nat, ghost r: nat) returns (val': u32)
    requires GroupSize(inbits) && r < 8 && v < Two(inbits)
    ensures Rest(val', r + inbits) == Rest(val, r) * Two(inbits) + v
  {
    TwoMeans(inbits);
    ShiftedIn(val, inbits, v, r);
    val' := Or(Shl32(val, inbits), v);
  }

  lemma ShiftedIn(val: u32, inbits: nat, v: nat, r: nat)
    requires GroupSize(inbits) && r < 8 && v < Two(inbits) && Two(inbits) == Pow2(inbits)
    ensures Or(Shl32(val, inbits), v) < WORD32
    ensures Rest(Or(Shl32(val, inbits), v), r + inbits) == Rest(val, r) * Two(inbits) + v
  {
    var p, n := Pow2(inbits), 32 - inbits - r;
    var q, w, u := Pow2(32 - inbits), Pow2(r), Pow2(n);
    Shl32Value(val, inbits);
    OrDisjoint(v, val % q, inbits);
    assert p * q == WORD32 by { Pow2Literals(); Pow2Add(inbits, 32 - inbits); }
    assert q == w * u by { Pow2Add(r, n); }
    assert Two(r + inbits) == w * p && Two(r) == w by { TwoMeans(r + inbits); TwoMeans(r); Pow2Add(r, inbits); }
    ShiftedParts(val, p, q, w, u, v);
  }

  lemma ShiftedParts(val: int, p: int, q: int, w: int, u: int, v: int)
    requires p > 0 && q > 0 && w > 0 && u > 0 && q == w * u && 0 <= v < p && 0 <= val
    ensures 0 <= v + p * (val % q) < p * q
    ensures w * p > 0 && (v + p * (val % q)) % (w * p) == (val % w) * p + v
  {
    DivMod(val, q);
    MulLe(p, val % q, q - 1);
    MulNonNegative(p, val % q);
    Distrib(p, q, 1);
    DivDiv(val, w, u);
    var l, h := val % w, (val / w) % u;
    assert val % q == w * h + l;
    DivMod(val, w);
    Distrib(p, w * h, l);
    Assoc(p, w, h);
    PushRange(p, w, l, v);
    MulPositive(w, p);
    DivModUnique(v + p * (val % q), h, l * p + v, w * p);
  }

  /** (val >> bits) & maxv: the group above the lowest bits. */
  method Take(val: u32, bits: nat, outbits: nat) returns (d: nat)
    requires GroupSize(outbits) && bits < 16
    ensures d < Two(outbits)
    ensures Rest(val, bits + outbits) == d * Two(bits) + Rest(val, bits)
  {
    TwoMeans(bits);
    TwoMeans(outbits);
    TwoAdd(bits, outbits);
    Shr32Value(val, bits);
    AndMask(Shr32(val, bits), outbits);
    DivDiv(val, Two(bits), Two(outbits));
    DivMod(val / Two(bits), Two(outbits));
    d := And(Shr32(val, bits), Pow2(outbits) - 1);
  }

  /** All groups that are complete go out. */
  method TakeAll(val: u32, bits0: nat, outbits: nat, out0: seq<nat>, ghost input: seq<nat>, ghost inbits: nat)
    returns (bits: nat, out: seq<nat>)
    requires GroupSize(outbits) && bits0 < 16
    requires Regrouped(input, inbits, out0, outbits, bits0, Rest(val, bits0))
    ensures bits < outbits && Regrouped(input, inbits, out, outbits, bits, Rest(val, bits))
  {
    bits, out := bits0, out0;
    while bits >= outbits
      invariant bits < 16 && Regrouped(input, inbits, out, outbits, bits, Rest(val, bits))
    {
      bits, out := TakeOne(val, bits, outbits, out, input, inbits);
    }
  }

  method TakeOne(val: u32, bits0: nat, outbits: nat, out0: seq<nat>, ghost input: seq<nat>, ghost inbits: nat)
    returns (bits: nat, out: seq<nat>)
    requires GroupSize(outbits) && outbits <= bits0 < 16
    requires Regrouped(input, inbits, out0, outbits, bits0, Rest(val, bits0))
    ensures bits == bits0 - outbits && Regrouped(input, inbits, out, outbits, bits, Rest(val, bits))
  {
    bits := bits0 - outbits;
    var d := Take(val, bits, outbits);
    TwoMeans(bits);
    ghost var rem, rem' := Rest(val, bits0), Rest(val, bits);
    Taken(input, inbits, out0, outbits, bits0, rem, d, bits, rem');
    out := out0 + [d];
  }

  /** One group of the input. */
  method Group(val0: u32, bits0: nat, v: nat, inbits: nat, outbits: nat, out0: seq<nat>, ghost input: seq<nat>)
    returns (val: u32, bits: nat, out: seq<nat>)
    requires GroupSize(inbits) && GroupSize(outbits) && bits0 < outbits && v < Two(inbits)
    requires Regrouped(input, inbits, out0, outbits, bits0, Rest(val0, bits0))
    ensures bits < outbits && Regrouped(input + [v], inbits, out, outbits, bits, Rest(val, bits))
  {
    val := Push(val0, inbits, v, bits0);
    ghost var rem, rem' := Rest(val0, bits0), Rest(val, bits0 + inbits);
    Pushed(input, inbits, out0, outbits, bits0, rem, v, rem');
    bits, out := TakeAll(val, bits0 + inbits, outbits, out0, input + [v], inbits);
  }

  /** The main loop; the pending bits are the remainder. */
  method Regroup(input: seq<nat>, inbits: nat, outbits: nat) returns (val: u32, bits: nat, out: seq<nat>)
    requires GroupSize(inbits) && GroupSize(outbits) && Normalized(input, Two(inbits))
    ensures bits < outbits && Regrouped(input, inbits, out, outbits, bits, Rest(val, bits))
  {
    val, bits, out := 0, 0, [];
    var i := 0;
    StartRegrouped(inbits, outbits);
    TwoMeans(0);
    assert input[..0] == [] && Rest(val, 0) == 0;
    while i < |input|
      invariant 0 <= i <= |input| && bits < outbits
      invariant Regrouped(input[..i], inbits, out, outbits, bits, Rest(val, bits))
    {
      val, bits, out := Group(val, bits, input[i], inbits, outbits, out, input[..i]);
      assert input[..i + 1] == input[..i] + [input[i]];
      i := i + 1;
    }
    assert input[..i] == input;
  }

  // ------------------------------------------------------------ the ends

  /** The symbols are the bytes' bits and fewer than five zeros. */
  ghost predicate Packed(bytes: seq<nat>, symbols: seq<nat>) {
    exists p: nat :: p < 5 && Regrouped(symbols, 5, bytes, 8, p, 0)
  }

  /** As numbers, most significant bit first: the symbols are the bytes and fewer than five zero bits. */
  lemma PackedMeans(bytes: seq<nat>, symbols: seq<nat>)
    ensures Packed(bytes, symbols) <==>
      && (forall i :: 0 <= i < |bytes| ==> bytes[i] < 256) && (forall i :: 0 <= i < |symbols| ==> symbols[i] < 32)
      && 8 * |bytes| <= 5 * |symbols| < 8 * |bytes| + 5
      && Big(symbols, 32) == Big(bytes, 256) * Pow2(5 * |symbols| - 8 * |bytes|)
  {
    var p: int := 5 * |symbols| - 8 * |bytes|;
    TwoMeans(5);
    TwoMeans(8);
    Pow2Literals();
    if 0 <= p < 5 {
      TwoMeans(p);
      assert Packed(bytes, symbols) <==> Regrouped(symbols, 5, bytes, 8, p, 0);
    }
  }

  /** Counts of groups determine the number of bits left over. */
  lemma LengthsUnique(n: nat, a: nat, p: nat, b: nat, q: nat)
    requires n == 8 * a + p && n == 8 * b + q && p < 8 && q < 8
    ensures a == b && p == q
  {}

  /** Regrouping has one result. */
  lemma RegroupedUnique(s: seq<nat>, x: seq<nat>, p: nat, rem: nat, y: seq<nat>, q: nat, rem': nat)
    requires Regrouped(s, 5, x, 8, p, rem) && Regrouped(s, 5, y, 8, q, rem') && p < 8 && q < 8
    ensures x == y && p == q && rem == rem'
  {
    LengthsUnique(|s| * 5, |x|, p, |y|, q);
    var w := Two(p);
    assert Big(x, Two(8)) * w == w * Big(x, Two(8)) && Big(y, Two(8)) * w == w * Big(y, Two(8));
    SplitUnique(rem, Big(x, Two(8)), rem', Big(y, Two(8)), w);
    BigInjective(x, y, Two(8));
  }

  /** Symbols are packed from at most one byte string. */
  lemma UnpackedUnique(x: seq<nat>, y: seq<nat>, s: seq<nat>)
    requires Packed(x, s) && Packed(y, s)
    ensures x == y
  {
    var p: nat :| p < 5 && Regrouped(s, 5, x, 8, p, 0);
    var q: nat :| q < 5 && Regrouped(s, 5, y, 8, q, 0);
    RegroupedUnique(s, x, p, 0, y, q, 0);
  }

  /** A byte string is packed into one string of symbols. */
  lemma PackedUnique(x: seq<nat>, s: seq<nat>, t: seq<nat>)
    requires Packed(x, s) && Packed(x, t)
    ensures s == t
  {
    var p: nat :| p < 5 && Regrouped(s, 5, x, 8, p, 0);
    var q: nat :| q < 5 && Regrouped(t, 5, x, 8, q, 0);
    assert |s| == |t| && p == q;
    BigInjective(s, t, Two(5));
  }

  /** (val << (outbits - bits)) & maxv: the pending bits, filled up with zeros. */
  method Leftover(val: u32, bits: nat, outbits: nat) returns (d: nat)
    requires GroupSize(outbits) && bits < outbits
    ensures d == Rest(val, bits) * Two(outbits - bits) < Two(outbits)
  {
    var k := outbits - bits;
    TwoMeans(outbits);
    TwoMeans(k);
    LeftoverValue(val, bits, k);
    AndMask(Shl32(val, k), outbits);
    d := And(Shl32(val, k), Pow2(outbits) - 1);
  }

  lemma LeftoverValue(val: u32, bits: nat, k: nat)
    requires bits + k <= 8
    ensures Shl32(val, k) % Pow2(bits + k) == Rest(val, bits) * Two(k) < Two(bits + k)
  {
    var p, w, u := Pow2(k), Pow2(bits), Pow2(32 - k - bits);
    assert Shl32(val, k) == p * (val % Pow2(32 - k)) by { Shl32Value(val, k); }
    assert Pow2(32 - k) == w * u by { Pow2Add(bits, 32 - k - bits); }
    assert Pow2(bits + k) == w * p == Two(bits + k) && Two(k) == p && Two(bits) == w by {
      Pow2Add(bits, k);
      TwoMeans(bits + k);
      TwoMeans(k);
      TwoMeans(bits);
    }
    ShiftedParts(val, p, w * u, w, u, 0);
    PushRange(p, w, val % w, 0);
  }

  /** The pending bits and zeros make the last symbol. */
  lemma LastSymbol(bytes: seq<nat>, out: seq<nat>, r: nat, rem: nat, d: nat)
    requires Regrouped(bytes, 8, out, 5, r, rem) && 0 < r < 5 && d == rem * Two(5 - r) < Two(5)
    ensures Packed(bytes, out + [d])
  {
    var k, x, y := 5 - r, Big(bytes, Two(8)), Big(out, Two(5));
    assert Big(out + [d], Two(5)) == Two(5) * y + d by { BigSnoc(out, d, Two(5)); }
    assert Two(5) == Two(r) * Two(k) by { TwoAdd(r, k); }
    LastValue(x, y, Two(r), Two(k), rem);
    assert Regrouped(out + [d], 5, bytes, 8, k, 0);
  }

  lemma LastValue(x: int, y: int, w: int, u: int, rem: int)
    requires x == y * w + rem
    ensures (w * u) * y + rem * u == x * u
  {
    Distrib(u, y * w, rem);
    Assoc(u, y, w);
    Rotate(w, u, y);
  }

  lemma NoSymbol(bytes: seq<nat>, out: seq<nat>)
    requires Regrouped(bytes, 8, out, 5, 0, 0)
    ensures Packed(bytes, out)
  {
    TwoMeans(0);
    assert Regrouped(out, 5, bytes, 8, 0, 0);
  }

  /** convert_bits from bytes to symbols, with padding. */
  method ToSymbols(bytes: seq<nat>) returns (out: seq<nat>)
    requires Normalized(bytes, Two(8))
    ensures Packed(bytes, out)
  {
    var val: u32, bits: nat;
    val, bits, out := Regroup(bytes, 8, 5);
    if bits > 0 {
      var d := Leftover(val, bits, 5);
      LastSymbol(bytes, out, bits, Rest(val, bits), d);
      out := out + [d];
    } else {
      TwoMeans(0);
      NoSymbol(bytes, out);
    }
  }

  /**
   convert_bits from symbols to bytes, without padding: the bytes, for exactly the symbols
   that are packed bytes, that is, with fewer than five bits left over, and all of them 0.
   */
  method ToBytes(symbols: seq<nat>) returns (out: Option<seq<nat>>)
    requires Normalized(symbols, Two(5))
    ensures out.Some? <==> exists bytes :: Packed(bytes, symbols)
    ensures out.Some? ==> Packed(out.value, symbols)
  {
    var val: u32, bits: nat, bytes: seq<nat> := Regroup(symbols, 5, 8);
    var d := Leftover(val, bits, 8);
    LeftoverZero(Rest(val, bits), Two(8 - bits));
    if d != 0 || bits >= 5 {
      NotPacked(symbols, bytes, bits, Rest(val, bits));
      return None;
    }
    assert Regrouped(symbols, 5, bytes, 8, bits, 0);
    assert Packed(bytes, symbols);
    return Some(bytes);
  }

  lemma LeftoverZero(rem: nat, w: nat)
    requires w > 0
    ensures rem * w == 0 <==> rem == 0
  {
    if rem > 0 { MulPositive(rem, w); }
  }

  lemma NotPacked(symbols: seq<nat>, out: seq<nat>, r: nat, rem: nat)
    requires Regrouped(symbols, 5, out, 8, r, rem) && r < 8 && (rem != 0 || r >= 5)
    ensures forall bytes :: !Packed(bytes, symbols)
  {
    forall bytes | Packed(bytes, symbols) ensures false {
      var p: nat :| p < 5 && Regrouped(symbols, 5, bytes, 8, p, 0);
      RegroupedUnique(symbols, out, r, rem, bytes, p, 0);
    }
  }
}
