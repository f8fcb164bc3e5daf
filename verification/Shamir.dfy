/** Recovering a shared secret: bytes in, bitsliced Lagrange interpolation, bytes out. */
module Shamir {
  import opened Words
  import opened Gf256
  import opened Gf256Inverse
  import opened Lagrange
  import opened ShamirSpec
  import opened Bitslice
  import Arith

  /** The field element a byte stands for. */
  function Element(b: nat): F {
    seq(8, k requires 0 <= k < 8 => Bit(b, k))
  }

  function Elements(s: seq<u8>): (r: seq<F>)
    ensures |r| == |s|
  {
    seq(|s|, i requires 0 <= i < |s| => Element(s[i]))
  }

  /** The byte 1 is the element 1. */
  lemma ElementOne()
    ensures Element(1) == One
  {
    forall k: nat | k < 8 ensures Element(1)[k] == One[k] { if k > 0 { BitZero(k - 1); } }
  }

  /** The exclusive or of bytes is the sum of their elements. */
  lemma ElementXor(a: nat, b: nat)
    ensures Element(Xor(a, b)) == Add(Element(a), Element(b))
  {
    forall k: nat | k < 8 ensures Element(Xor(a, b))[k] == Add(Element(a), Element(b))[k] { BitXor(a, b, k); }
  }

  /** Doubling a byte below 128 is multiplication by x. */
  lemma ElementDouble(b: nat)
    requires b < 128
    ensures Element(2 * b) == XTime(Element(b))
  {
    assert Pow2(7) == 128;
    BelowBit(b, 7);
    forall k: nat | k < 8 ensures Element(2 * b)[k] == XTime(Element(b))[k] {
      if k > 0 { assert Bit(2 * b, k) == Bit(b, k - 1); }
    }
  }

  lemma {:induction false} BelowBit(b: nat, n: nat)
    requires b < Pow2(n)
    ensures !Bit(b, n)
    decreases n
  {
    if n > 0 { BelowBit(b / 2, n - 1); }
  }

  /** The byte 0x1b is x^8 modulo the polynomial of the field. */
  lemma ElementOfModulus()
    ensures Element(0x1b) == XTime(Element(128)) == Of({0, 1, 3, 4})
  {
    assert Bit(0x1b, 0) && Bit(0x1b, 1) && !Bit(0x1b, 2) && Bit(0x1b, 3) && Bit(0x1b, 4) && !Bit(0x1b, 5) && !Bit(0x1b, 6) && !Bit(0x1b, 7);
    assert !Bit(128, 0) && !Bit(128, 1) && !Bit(128, 2) && !Bit(128, 3) && !Bit(128, 4) && !Bit(128, 5) && !Bit(128, 6) && Bit(128, 7);
  }

  /** Multiplying any byte by x: doubling, and reduction by 0x11b if there is a ninth bit. */
  lemma ElementTimesX(b: u8)
    ensures XTime(Element(b)) == Element(if b < 128 then 2 * b else Xor(2 * (b - 128), 0x1b))
  {
    var low: nat, n := if b < 128 then b else b - 128, 7;
    ElementDouble(low);
    if b >= 128 {
      assert Pow2(n) == 128;
      XorParts(low, 128, n, 128, 0, low, 1, 0);
      assert b == Xor(low, 128);
      ElementXor(low, 128);
      XTimeLinear(Element(low), Element(128));
      ElementOfModulus();
      ElementXor(2 * low, 0x1b);
    }
  }

  // ------------------------------------------------------------ bits of words

  /** (x & (1 << b)) >> b */
  function BitOf(x: nat, b: nat): nat {
    if Bit(x, b) then 1 else 0
  }

  lemma {:induction false} BitOfMasked(x: nat, b: nat)
    ensures And(x, Pow2(b)) / Pow2(b) == BitOf(x, b)
    decreases b
  {
    var p := Pow2(b);
    if x == 0 {
      BitZero(b);
      Arith.DivModUnique(0, 0, 0, p);
    } else if b == 0 {
      assert And(x, 1) == x % 2;
    } else {
      var q := Pow2(b - 1);
      BitOfMasked(x / 2, b - 1);
      assert And(x, p) == 2 * And(x / 2, q);
      Arith.DivDiv(2 * And(x / 2, q), 2, q);
    }
  }

  lemma {:induction false} SingleBit(c: nat, n: nat, l: nat)
    requires c <= 1
    ensures Bit(c * Pow2(n), l) <==> c == 1 && l == n
    decreases l
  {
    if c == 0 {
      BitZero(l);
    } else if l > 0 && n > 0 {
      assert c * Pow2(n) / 2 == c * Pow2(n - 1);
      SingleBit(c, n - 1, l - 1);
    } else if l > 0 {
      BitZero(l - 1);
    }
  }

  /** w | (((x & (1 << b)) >> b) << n) in a word of `size` bits */
  function SetBit(w: nat, x: nat, b: nat, n: nat, size: nat): (r: nat)
    requires n < size && w < Pow2(size)
    ensures r < Pow2(size)
    ensures forall l: nat :: Bit(r, l) <==> Bit(w, l) || (l == n && Bit(x, b))
  {
    var v := And(x, Pow2(b)) / Pow2(b) * Pow2(n);
    SetBitCorrect(w, x, b, n, size);
    Or(w, v)
  }

  lemma SetBitCorrect(w: nat, x: nat, b: nat, n: nat, size: nat)
    requires n < size && w < Pow2(size)
    ensures var v := And(x, Pow2(b)) / Pow2(b) * Pow2(n);
            && v >= 0 && Or(w, v) < Pow2(size)
            && forall l: nat :: Bit(Or(w, v), l) <==> Bit(w, l) || (l == n && Bit(x, b))
  {
    BitOfMasked(x, b);
    var c := BitOf(x, b);
    var v := c * Pow2(n);
    Pow2Monotone(n + 1, size);
    OrBelow(w, v, size);
    forall l: nat ensures Bit(Or(w, v), l) <==> Bit(w, l) || (l == n && Bit(x, b)) {
      BitOr(w, v, l);
      SingleBit(c, n, l);
    }
  }

  /** bitslice: lane l of r is byte l of x. */
  method BitsliceBytes(r: array<u32>, x: seq<u8>, len: nat)
    requires r.Length == 8 && len <= |x| && len <= 32
    modifies r
    ensures forall l: nat :: Lane(r[..], l) == if l < len then Element(x[l]) else Zero
  {
    var word := WordSize();
    var k := 0;
    while k < 8
      invariant 0 <= k <= 8 && forall j :: 0 <= j < k ==> r[j] == 0
    {
      r[k] := 0;
      k := k + 1;
    }
    ZeroLanes(r[..]);
    var n := 0;
    while n < len
      invariant 0 <= n <= len
      invariant forall l: nat :: Lane(r[..], l) == if l < n then Element(x[l]) else Zero
    {
      SliceByte(r, x[n], n, word);
      n := n + 1;
    }
  }

  method WordSize() returns (n: nat)
    ensures n == 32 && Pow2(n) == 0x1_0000_0000
  {
    ghost var m := ThirtyTwo();
    n := 32;
  }

  lemma ZeroLanes(r: seq<u32>)
    requires |r| == 8 && forall k :: 0 <= k < 8 ==> r[k] == 0
    ensures forall l: nat :: Lane(r, l) == Zero
  {
    forall l: nat ensures Lane(r, l) == Zero {
      forall k | 0 <= k < 8 ensures !Lane(r, l)[k] { BitZero(l); }
      assert Lane(r, l) == Zero;
    }
  }

  /** One byte, into the empty lane n. */
  method SliceByte(r: array<u32>, cur: u8, n: nat, word: nat)
    requires r.Length == 8 && n < word == 32 && Pow2(word) == 0x1_0000_0000 && Lane(r[..], n) == Zero
    modifies r
    ensures forall l: nat :: Lane(r[..], l) == if l == n then Element(cur) else Lane(old(r[..]), l)
  {
    var bit := 0;
    while bit < 8
      invariant 0 <= bit <= 8
      invariant forall j :: bit <= j < 8 ==> r[j] == old(r[j])
      invariant forall j :: 0 <= j < bit ==> r[j] == SetBit(old(r[j]), cur, j, n, word)
    {
      r[bit] := SetBit(r[bit], cur, bit, n, word);
      bit := bit + 1;
    }
    forall l: nat ensures Lane(r[..], l) == if l == n then Element(cur) else Lane(old(r[..]), l) {
      forall k | 0 <= k < 8 ensures Lane(r[..], l)[k] == if l == n then Bit(cur, k) else Lane(old(r[..]), l)[k] {
        assert !Zero[k] && Lane(old(r[..]), n)[k] == Bit(old(r[k]), n);
      }
    }
  }

  /** bitslice_setall: every lane of r is the byte x. */
  method SetAll(r: array<u32>, x: u8)
    requires r.Length == 8
    modifies r
    ensures forall l: nat :: l < 32 ==> Lane(r[..], l) == Element(x)
  {
    var k := 0;
    while k < 8
      invariant 0 <= k <= 8
      invariant forall j :: 0 <= j < k ==> r[j] == if Bit(x, j) then 0xFFFF_FFFF else 0
    {
      BitOfShifted(x, k);
      // -((x >> k) & 1) in 32 bits
      r[k] := (0x1_0000_0000 - And(x / Pow2(k), 1)) % 0x1_0000_0000;
      k := k + 1;
    }
    forall l: nat | l < 32 ensures Lane(r[..], l) == Element(x) {
      BitZero(l);
      AllOnes(l);
    }
  }

  lemma {:induction false} BitOfShifted(x: nat, b: nat)
    ensures x / Pow2(b) >= 0 && And(x / Pow2(b), 1) == BitOf(x, b)
    decreases b
  {
    if b == 0 {
    } else {
      BitOfShifted(x / 2, b - 1);
      Arith.DivDiv(x, 2, Pow2(b - 1));
    }
  }

  lemma AllOnes(l: nat)
    requires l < 32
    ensures Bit(0xFFFF_FFFF, l)
  {
    var n := ThirtyTwo();
    OnesBit(n, l);
  }

  lemma {:induction false} OnesBit(n: nat, l: nat)
    requires l < n
    ensures Bit(Pow2(n) - 1, l)
    decreases l
  {
    HalveMask(Pow2(n - 1));
    if l > 0 { OnesBit(n - 1, l - 1); }
  }

  /** unbitslice: byte l of r is lane l of x. */
  method UnbitsliceBytes(r: array<u8>, x: array<u32>, len: nat)
    requires x.Length == 8 && len <= r.Length
    modifies r
    ensures forall l :: 0 <= l < len ==> Element(r[l]) == Lane(x[..], l)
    ensures forall l :: len <= l < r.Length ==> r[l] == old(r[l])
  {
    var k := 0;
    while k < len
      invariant 0 <= k <= len
      invariant forall l :: 0 <= l < k ==> r[l] == 0
      invariant forall l :: len <= l < r.Length ==> r[l] == old(r[l])
    {
      r[k] := 0;
      k := k + 1;
    }
    ghost var words := x[..];
    var bit, size := 0, 8;
    NoBits(words);
    while bit < 8
      invariant 0 <= bit <= 8 && x[..] == words
      invariant forall l :: 0 <= l < len ==> LowBits(r[l], words, l, bit)
      invariant forall l :: len <= l < r.Length ==> r[l] == old(r[l])
    {
      UnsliceBit(r, words, x[bit], bit, len, size);
      bit := bit + 1;
    }
    forall l | 0 <= l < len ensures Element(r[l]) == Lane(x[..], l) {
      assert LowBits(r[l], words, l, 8);
    }
  }

  /** The bits of b below `bit` are those of lane l, the others 0. */
  predicate LowBits(b: nat, x: seq<u32>, l: nat, bit: nat)
    requires |x| == 8
  {
    forall k: nat :: k < 8 ==> (Bit(b, k) <==> k < bit && Bit(x[k], l))
  }

  lemma NoBits(x: seq<u32>)
    requires |x| == 8
    ensures forall l: nat :: LowBits(0, x, l, 0)
  {
    forall l: nat ensures LowBits(0, x, l, 0) {
      forall k: nat | k < 8 ensures !Bit(0, k) { BitZero(k); }
    }
  }

  /** One coefficient, out of every lane. */
  method UnsliceBit(r: array<u8>, ghost x: seq<u32>, cur: u32, bit: nat, len: nat, size: nat)
    requires |x| == 8 && bit < 8 == size && cur == x[bit] && len <= r.Length
    requires forall l :: 0 <= l < len ==> LowBits(r[l], x, l, bit)
    modifies r
    ensures forall l :: 0 <= l < len ==> LowBits(r[l], x, l, bit + 1)
    ensures forall l :: len <= l < r.Length ==> r[l] == old(r[l])
  {
    Pow2Literals();
    var n := 0;
    while n < len
      invariant 0 <= n <= len
      invariant forall l :: 0 <= l < n ==> LowBits(r[l], x, l, bit + 1)
      invariant forall l :: n <= l < r.Length ==> r[l] == old(r[l])
    {
      r[n] := SetBit(r[n], cur, n, bit, size);
      n := n + 1;
    }
  }

  // ------------------------------------------------------------ interpolation

  const MAX_LEN := 32

  /** Every lane of the register holds v. */
  ghost predicate Everywhere(r: seq<u32>, v: F) {
    |r| == 8 && forall l: nat :: l < 32 ==> Lane(r, l) == v
  }

  lemma AllLanesZero(r: seq<u32>)
    requires Everywhere(r, Zero)
    ensures forall k :: 0 <= k < 8 ==> r[k] == 0
  {
    forall k | 0 <= k < 8 ensures r[k] == 0 {
      var n := ThirtyTwo();
      forall i: nat | i < n ensures Bit(r[k], i) <==> Bit(0, i) {
        BitZero(i);
        assert Lane(r, i)[k] == Bit(r[k], i) && !Zero[k];
      }
      BitsDetermine(r[k], 0, n);
    }
  }

  /** The test that all eight words are 0. */
  method IsZero(r: array<u32>, ghost v: F) returns (zero: bool)
    requires r.Length == 8 && Everywhere(r[..], v)
    ensures zero <==> v == Zero
  {
    var acc: nat, k := 0, 0;
    while k < 8
      invariant 0 <= k <= 8
      invariant acc == 0 <==> forall j :: 0 <= j < k ==> r[j] == 0
    {
      OrZero(acc, r[k]);
      acc := Or(acc, r[k]);
      k := k + 1;
    }
    if acc == 0 {
      ZeroLanes(r[..]);
      assert Lane(r[..], 0) == v;
    } else if v == Zero {
      AllLanesZero(r[..]);
      assert false;
    }
    return acc == 0;
  }

  method NewRegister() returns (r: array<u32>)
    ensures fresh(r) && r.Length == 8 && forall k :: 0 <= k < 8 ==> r[k] == 0
  {
    r := new u32[8](_ => 0);
  }

  method CopyRegister(r: array<u32>, x: array<u32>)
    requires r.Length == 8 && x.Length == 8
    modifies r
    ensures r[..] == old(x[..])
  {
    var k := 0;
    while k < 8
      invariant 0 <= k <= 8
      invariant forall j :: 0 <= j < k ==> r[j] == old(x[j])
      invariant forall j :: k <= j < 8 ==> x[j] == old(x[j])
    {
      r[k] := x[k];
      k := k + 1;
    }
  }

  /** r := a - b in every lane. */
  method Difference(r: array<u32>, a: array<u32>, b: array<u32>, ghost u: F, ghost v: F)
    requires r.Length == 8 && a.Length == 8 && b.Length == 8 && r != a && r != b
    requires Everywhere(a[..], u) && Everywhere(b[..], v)
    modifies r
    ensures Everywhere(r[..], Add(u, v))
  {
    CopyRegister(r, a);
    AddInto(r, b);
  }

  method MultiplyEverywhere(r: array<u32>, b: array<u32>, ghost u: F, ghost v: F)
    requires r.Length == 8 && b.Length == 8 && r != b && Everywhere(r[..], u) && Everywhere(b[..], v)
    modifies r
    ensures Everywhere(r[..], Mul(u, v))
  {
    Multiply(r, r, b);
  }

  /** The registers of the share indices. */
  ghost predicate IndexRegisters(xs: seq<array<u32>>, es: seq<F>)
    reads xs
  {
    && |xs| == |es|
    && (|xs| > 0 ==> xs[0].Length == 8 && Everywhere(xs[0][..], es[0]) && IndexRegisters(xs[1..], es[1..]))
  }

  lemma {:induction false} IndexRegisterAt(xs: seq<array<u32>>, es: seq<F>, i: nat)
    requires IndexRegisters(xs, es) && i < |xs|
    ensures xs[i].Length == 8 && Everywhere(xs[i][..], es[i])
  {
    if i > 0 { IndexRegisterAt(xs[1..], es[1..], i - 1); }
  }

  lemma {:induction false} AppendIndexRegister(xs: seq<array<u32>>, es: seq<F>, r: array<u32>, e: F)
    requires IndexRegisters(xs, es) && r.Length == 8 && Everywhere(r[..], e)
    ensures IndexRegisters(xs + [r], es + [e])
  {
    if |xs| == 0 {
      assert (xs + [r])[1..] == [] && (es + [e])[1..] == [];
    } else {
      AppendIndexRegister(xs[1..], es[1..], r, e);
      assert (xs + [r])[1..] == xs[1..] + [r] && (es + [e])[1..] == es[1..] + [e];
    }
  }

  /** num := the product of x - x_i. */
  method ComputeNumerator(num: array<u32>, tmp: array<u32>, x: array<u32>, xs: seq<array<u32>>, ghost es: seq<F>, ghost u: F)
    requires num.Length == 8 && tmp.Length == 8 && x.Length == 8 && num != tmp && num != x && tmp != x
    requires IndexRegisters(xs, es) && num !in xs && tmp !in xs && Everywhere(x[..], u)
    requires num[0] == 0xFFFF_FFFF && forall k :: 1 <= k < 8 ==> num[k] == 0
    modifies num, tmp
    ensures Everywhere(num[..], Numerator(es, u))
  {
    OneEverywhere(num[..]);
    var i := 0;
    while i < |xs|
      invariant 0 <= i <= |xs| && Everywhere(num[..], Differences(es, u, -1, i))
      invariant IndexRegisters(xs, es) && Everywhere(x[..], u)
    {
      IndexRegisterAt(xs, es, i);
      Difference(tmp, x, xs[i], u, es[i]);
      MultiplyEverywhere(num, tmp, Differences(es, u, -1, i), Add(u, es[i]));
      i := i + 1;
    }
  }

  lemma OneEverywhere(r: seq<u32>)
    requires |r| == 8 && r[0] == 0xFFFF_FFFF && forall k :: 1 <= k < 8 ==> r[k] == 0
    ensures Everywhere(r, One)
  {
    forall l: nat | l < 32 ensures Lane(r, l) == One {
      AllOnes(l);
      BitZero(l);
      assert forall k :: 0 <= k < 8 ==> Lane(r, l)[k] == One[k];
    }
  }

  /** The products d (x_i - x_0) (x_i - x_1) ..., leaving out x_i itself. */
  function PartialProducts(es: seq<F>, i: nat, d: F): (ps: seq<F>)
    requires i < |es|
    ensures |ps| == |es| + 1
  {
    seq(|es| + 1, j requires 0 <= j <= |es| => Mul(d, Differences(es, es[i], i, j)))
  }

  ghost predicate ProductStep(es: seq<F>, i: nat, ps: seq<F>, j: nat) {
    i < |es| && j < |es| && |ps| == |es| + 1
    && ps[j + 1] == if j == i then ps[j] else Mul(ps[j], Add(es[i], es[j]))
  }

  lemma ProductSteps(es: seq<F>, i: nat, d: F, ps: seq<F>)
    requires i < |es| && ps == PartialProducts(es, i, d)
    ensures ps[0] == d && forall j :: 0 <= j < |es| ==> ProductStep(es, i, ps, j)
  {
    MulOne(d);
    forall j | 0 <= j < |es| ensures ProductStep(es, i, ps, j) {
      MulAssoc(d, Differences(es, es[i], i, j), Add(es[i], es[j]));
    }
  }

  /** denom := denom times the product of x_i - x_j over j != i. */
  method MultiplyDifferences(denom: array<u32>, tmp: array<u32>, xs: seq<array<u32>>, i: nat, ghost es: seq<F>, ghost ps: seq<F>)
    requires denom.Length == 8 && tmp.Length == 8 && denom != tmp && i < |xs|
    requires IndexRegisters(xs, es) && denom !in xs && tmp !in xs
    requires |ps| == |es| + 1 && Everywhere(denom[..], ps[0]) && forall j :: 0 <= j < |es| ==> ProductStep(es, i, ps, j)
    modifies denom, tmp
    ensures Everywhere(denom[..], ps[|es|])
  {
    var j := 0;
    while j < |xs|
      invariant 0 <= j <= |xs| && Everywhere(denom[..], ps[j])
      invariant IndexRegisters(xs, es)
    {
      assert ProductStep(es, i, ps, j);
      if i != j {
        MultiplyDifference(denom, tmp, xs, i, j, es, ps[j]);
      }
      j := j + 1;
    }
  }

  method MultiplyDifference(denom: array<u32>, tmp: array<u32>, xs: seq<array<u32>>, i: nat, j: nat,
                            ghost es: seq<F>, ghost p: F)
    requires denom.Length == 8 && tmp.Length == 8 && denom != tmp && i < |xs| && j < |xs|
    requires IndexRegisters(xs, es) && denom !in xs && tmp !in xs && Everywhere(denom[..], p)
    modifies denom, tmp
    ensures Everywhere(denom[..], Mul(p, Add(es[i], es[j])))
  {
    IndexRegisterAt(xs, es, i);
    IndexRegisterAt(xs, es, j);
    Difference(tmp, xs[i], xs[j], es[i], es[j]);
    MultiplyEverywhere(denom, tmp, p, Add(es[i], es[j]));
  }

  ghost predicate Usable(values: seq<seq<u8>>, len: nat) {
    forall i :: 0 <= i < |values| ==> len <= |values[i]|
  }

  /** The values of the shares in lane l; lanes from len on hold 0. */
  ghost function Values(values: seq<seq<u8>>, len: nat, l: nat): (ys: seq<F>)
    requires Usable(values, len)
    ensures |ys| == |values|
  {
    seq(|values|, i requires 0 <= i < |values| => if l < len then Element(values[i][l]) else Zero)
  }

  /** The register of a share's bytes. */
  ghost predicate Sliced(r: seq<u32>, value: seq<u8>, len: nat) {
    && |r| == 8 && len <= |value|
    && forall l: nat :: Lane(r, l) == if l < len then Element(value[l]) else Zero
  }

  /** The registers of the share values. */
  ghost predicate ValueRegisters(ys: seq<array<u32>>, values: seq<seq<u8>>, len: nat)
    reads ys
  {
    && |ys| == |values|
    && (|ys| > 0 ==> ys[0].Length == 8 && Sliced(ys[0][..], values[0], len) && ValueRegisters(ys[1..], values[1..], len))
  }

  lemma {:induction false} ValueRegisterAt(ys: seq<array<u32>>, values: seq<seq<u8>>, len: nat, i: nat)
    requires ValueRegisters(ys, values, len) && i < |ys|
    ensures ys[i].Length == 8 && Sliced(ys[i][..], values[i], len)
  {
    if i > 0 { ValueRegisterAt(ys[1..], values[1..], len, i - 1); }
  }

  lemma {:induction false} AppendValueRegister(ys: seq<array<u32>>, values: seq<seq<u8>>, len: nat, r: array<u32>, v: seq<u8>)
    requires ValueRegisters(ys, values, len) && r.Length == 8 && Sliced(r[..], v, len)
    ensures ValueRegisters(ys + [r], values + [v], len)
  {
    if |ys| == 0 {
      assert (ys + [r])[1..] == [] && (values + [v])[1..] == [];
    } else {
      AppendValueRegister(ys[1..], values[1..], len, r, v);
      assert (ys + [r])[1..] == ys[1..] + [r] && (values + [v])[1..] == values[1..] + [v];
    }
  }

  lemma ElementInjective(a: u8, b: u8)
    ensures Element(a) == Element(b) ==> a == b
  {
    if Element(a) == Element(b) {
      Pow2Literals();
      forall i: nat | i < 8 ensures Bit(a, i) <==> Bit(b, i) { assert Element(a)[i] == Element(b)[i]; }
      BitsDetermine(a, b, 8);
    }
  }

  /** The first factor of the denominator; the requested share itself is added to the secret. */
  method StartDenominator(denom: array<u32>, secret: array<u32>, x: array<u32>, xi: array<u32>, y: array<u32>,
                          same: bool, ghost u: F, ghost v: F)
    requires denom.Length == 8 && secret.Length == 8 && x.Length == 8 && xi.Length == 8 && y.Length == 8
    requires denom != secret && denom != x && denom != xi && denom != y && secret != y
    requires Everywhere(x[..], u) && Everywhere(xi[..], v) && (same <==> v == u)
    modifies denom, secret
    ensures Everywhere(denom[..], if v == u then One else Add(u, v))
    ensures forall l: nat :: Lane(secret[..], l) == if same then Add(Lane(old(secret[..]), l), Lane(y[..], l)) else Lane(old(secret[..]), l)
  {
    if !same {
      Difference(denom, x, xi, u, v);
    } else {
      SetAll(denom, 1);
      ElementOne();
      AddInto(secret, y);
    }
  }

  /** secret += denom^-1 num y */
  method AddTerm(secret: array<u32>, tmp: array<u32>, denom: array<u32>, num: array<u32>, y: array<u32>,
                 ghost d: F, ghost n: F)
    requires secret.Length == 8 && tmp.Length == 8 && denom.Length == 8 && num.Length == 8 && y.Length == 8
    requires tmp != secret && tmp != denom && tmp != num && tmp != y
    requires Everywhere(denom[..], d) && Everywhere(num[..], n)
    modifies secret, tmp
    ensures forall l: nat :: l < 32 ==>
      Lane(secret[..], l) == Add(Lane(old(secret[..]), l), Mul(Mul(Inverse(d), n), Lane(old(y[..]), l)))
  {
    Invert(tmp, denom);
    Multiply(tmp, tmp, num);
    Multiply(tmp, tmp, y);
    AddInto(secret, tmp);
  }

  /** What every lane is to add for each share, and which denominators are nonzero. */
  datatype Plan = Plan(hits: seq<seq<F>>, terms: seq<seq<F>>, regular: seq<bool>)

  predicate Sized(plan: Plan, n: nat) {
    && |plan.hits| == |plan.terms| == 32 && |plan.regular| == n
    && forall l :: 0 <= l < 32 ==> |plan.hits[l]| == |plan.terms[l]| == n
  }

  predicate AllTrue(s: seq<bool>, n: nat)
    requires n <= |s|
  {
    n == 0 || (s[n - 1] && AllTrue(s, n - 1))
  }

  lemma {:induction false} AllTrueMeans(s: seq<bool>, n: nat)
    requires n <= |s|
    ensures AllTrue(s, n) <==> forall i :: 0 <= i < n ==> s[i]
  {
    if n > 0 { AllTrueMeans(s, n - 1); }
  }

  /** The plan's entries for share i. */
  ghost predicate Planned(plan: Plan, es: seq<F>, values: seq<seq<u8>>, len: nat, u: F, i: nat)
    requires |es| == |values| && Usable(values, len) && Sized(plan, |es|)
  {
    i < |es| && forall l: nat :: l < 32 ==>
      && plan.hits[l][i] == (if es[i] == u then Values(values, len, l)[i] else Zero)
      && plan.terms[l][i] == Term(es, u, i, Values(values, len, l)[i])
      && (plan.regular[i] <==> Denominator(es, u, i, |es|) != Zero)
  }

  lemma RegularEntry(plan: Plan, es: seq<F>, values: seq<seq<u8>>, len: nat, u: F, i: nat)
    requires |es| == |values| && Usable(values, len) && Sized(plan, |es|) && Planned(plan, es, values, len, u, i)
    ensures plan.regular[i] <==> Denominator(es, u, i, |es|) != Zero
  {
    assert plan.hits[0][i] == if es[i] == u then Values(values, len, 0)[i] else Zero;
  }

  /** The secret after the first i shares, in every lane. */
  ghost predicate Accumulated(secret: seq<u32>, plan: Plan, n: nat, i: nat)
    requires Sized(plan, n) && i <= n
  {
    |secret| == 8 && forall l: nat :: l < 32 ==> Lane(secret, l) == Accumulate(plan.hits[l], plan.terms[l], i)
  }

  function WithShare(s: F, es: seq<F>, u: F, i: nat, y: F): F
    requires i < |es|
  {
    Add(if es[i] == u then Add(s, y) else s, Term(es, u, i, y))
  }

  /** The sum over one more share. */
  lemma NextShare(before: seq<u32>, after: seq<u32>, y: seq<u32>, es: seq<F>, values: seq<seq<u8>>,
                  len: nat, u: F, plan: Plan, i: nat)
    requires |es| == |values| && Usable(values, len) && i < |values| && |after| == |y| == 8 && Sized(plan, |es|)
    requires Accumulated(before, plan, |es|, i) && Planned(plan, es, values, len, u, i)
    requires Sliced(y, values[i], len)
    requires forall l: nat :: l < 32 ==> Lane(after, l) == WithShare(Lane(before, l), es, u, i, Lane(y, l))
    ensures Accumulated(after, plan, |es|, i + 1)
  {
    forall l: nat | l < 32 ensures Lane(after, l) == Accumulate(plan.hits[l], plan.terms[l], i + 1) {
      AddLaws(Lane(before, l), Zero, Zero);
      assert Lane(y, l) == Values(values, len, l)[i];
    }
  }

  /** The denominator of share i; the requested share itself is added to the secret. */
  method ShareDenominator(i: nat, secret: array<u32>, denom: array<u32>, tmp: array<u32>, x: array<u32>,
                          xs: seq<array<u32>>, y: array<u32>, same: bool, ghost es: seq<F>, ghost u: F)
    requires i < |es| && secret.Length == 8 && denom.Length == 8 && tmp.Length == 8 && x.Length == 8 && y.Length == 8
    requires secret != denom && secret != tmp && denom != tmp && {secret, denom, tmp} !! {x, y}
    requires IndexRegisters(xs, es) && secret !in xs && denom !in xs && tmp !in xs
    requires Everywhere(x[..], u) && (same <==> es[i] == u)
    modifies secret, denom, tmp
    ensures Everywhere(denom[..], Denominator(es, u, i, |es|))
    ensures forall l: nat :: Lane(secret[..], l) == if same then Add(Lane(old(secret[..]), l), Lane(y[..], l)) else Lane(old(secret[..]), l)
  {
    IndexRegisterAt(xs, es, i);
    StartDenominator(denom, secret, x, xs[i], y, same, u, es[i]);
    ghost var ps := PartialProducts(es, i, if es[i] == u then One else Add(u, es[i]));
    ProductSteps(es, i, if es[i] == u then One else Add(u, es[i]), ps);
    MultiplyDifferences(denom, tmp, xs, i, es, ps);
  }

  /** One round of the main loop; false if the index of share i occurs again. */
  method AddShare(i: nat, secret: array<u32>, denom: array<u32>, tmp: array<u32>, num: array<u32>, x: array<u32>,
                  xs: seq<array<u32>>, y: array<u32>, same: bool, ghost es: seq<F>, ghost u: F) returns (ok: bool)
    requires i < |es| && secret.Length == 8 && denom.Length == 8 && tmp.Length == 8
    requires num.Length == 8 && x.Length == 8 && y.Length == 8
    requires {secret, denom, tmp} !! {num, x, y} && secret != denom && secret != tmp && denom != tmp
    requires IndexRegisters(xs, es) && secret !in xs && denom !in xs && tmp !in xs
    requires Everywhere(x[..], u) && Everywhere(num[..], Numerator(es, u)) && (same <==> es[i] == u)
    modifies secret, denom, tmp
    ensures ok <==> Denominator(es, u, i, |es|) != Zero
    ensures ok ==> forall l: nat :: l < 32 ==>
      Lane(secret[..], l) == WithShare(Lane(old(secret[..]), l), es, u, i, Lane(y[..], l))
  {
    ShareDenominator(i, secret, denom, tmp, x, xs, y, same, es, u);
    ghost var d := Denominator(es, u, i, |es|);
    var zero := IsZero(denom, d);
    if zero {
      return false;
    }
    AddTerm(secret, tmp, denom, num, y, d, Numerator(es, u));
    return true;
  }

  /** The indices and values, bitsliced. */
  method SliceShares(indices: seq<u8>, values: seq<seq<u8>>, len: nat)
    returns (xs: seq<array<u32>>, ys: seq<array<u32>>)
    requires |indices| == |values| && Usable(values, len) && len <= 32
    ensures forall r :: r in xs || r in ys ==> fresh(r)
    ensures IndexRegisters(xs, Elements(indices)) && ValueRegisters(ys, values, len)
  {
    xs := SliceIndices(indices);
    ys := SliceValues(values, len);
  }

  method SliceIndices(indices: seq<u8>) returns (xs: seq<array<u32>>)
    ensures IndexRegisters(xs, Elements(indices)) && forall r :: r in xs ==> fresh(r)
  {
    xs := [];
    var i := 0;
    while i < |indices|
      invariant 0 <= i <= |indices| && IndexRegisters(xs, Elements(indices[..i])) && forall r :: r in xs ==> fresh(r)
    {
      var r := NewRegister();
      SetAll(r, indices[i]);
      AppendIndexRegister(xs, Elements(indices[..i]), r, Element(indices[i]));
      assert Elements(indices[..i + 1]) == Elements(indices[..i]) + [Element(indices[i])];
      xs := xs + [r];
      i := i + 1;
    }
    assert indices[..i] == indices;
  }

  method SliceValues(values: seq<seq<u8>>, len: nat) returns (ys: seq<array<u32>>)
    requires Usable(values, len) && len <= 32
    ensures ValueRegisters(ys, values, len) && forall r :: r in ys ==> fresh(r)
  {
    ys := [];
    var i := 0;
    while i < |values|
      invariant 0 <= i <= |values| && ValueRegisters(ys, values[..i], len) && forall r :: r in ys ==> fresh(r)
    {
      var r := NewRegister();
      BitsliceBytes(r, values[i], len);
      AppendValueRegister(ys, values[..i], len, r, values[i]);
      assert values[..i + 1] == values[..i] + [values[i]];
      ys := ys + [r];
      i := i + 1;
    }
    assert values[..i] == values;
  }

  /** Every share index occurs once. */
  predicate Unique(indices: seq<u8>) {
    forall i, j :: 0 <= i < j < |indices| ==> indices[i] != indices[j]
  }

  lemma UniqueElements(indices: seq<u8>)
    ensures Unique(indices) <==> Distinct(Elements(indices))
  {
    var es := Elements(indices);
    if Unique(indices) {
      forall i, j | 0 <= i < j < |es| ensures es[i] != es[j] { ElementInjective(indices[i], indices[j]); }
    } else {
      var i, j :| 0 <= i < j < |indices| && indices[i] == indices[j];
      assert es[i] == es[j];
    }
  }

  /** What stays the same through the main loop. */
  ghost predicate Inputs(num: array<u32>, x: array<u32>, xs: seq<array<u32>>, ys: seq<array<u32>>,
                         es: seq<F>, values: seq<seq<u8>>, u: F, len: nat)
    reads num, x, xs, ys
  {
    && num.Length == 8 && x.Length == 8 && Everywhere(x[..], u) && Everywhere(num[..], Numerator(es, u))
    && IndexRegisters(xs, es) && ValueRegisters(ys, values, len)
  }

  method NextRound(i: nat, secret: array<u32>, denom: array<u32>, tmp: array<u32>, num: array<u32>, x: array<u32>,
                   xs: seq<array<u32>>, ys: seq<array<u32>>, same: bool,
                   ghost es: seq<F>, ghost values: seq<seq<u8>>, ghost u: F, ghost len: nat, ghost plan: Plan) returns (ok: bool)
    requires i < |es| == |values| && Usable(values, len) && Sized(plan, |es|)
    requires secret.Length == 8 && denom.Length == 8 && tmp.Length == 8 && (same <==> es[i] == u)
    requires secret != denom && secret != tmp && denom != tmp && {secret, denom, tmp} !! {num, x}
    requires secret !in xs && denom !in xs && tmp !in xs && secret !in ys && denom !in ys && tmp !in ys
    requires Inputs(num, x, xs, ys, es, values, u, len)
    requires Accumulated(secret[..], plan, |es|, i)
    requires Planned(plan, es, values, len, u, i)
    requires AllTrue(plan.regular, i)
    modifies secret, denom, tmp
    ensures Inputs(num, x, xs, ys, es, values, u, len)
    ensures AllTrue(plan.regular, if ok then i + 1 else |es|) == ok
    ensures ok ==> Accumulated(secret[..], plan, |es|, i + 1)
  {
    ValueRegisterAt(ys, values, len, i);
    assert ys[i] in ys;
    ghost var before := secret[..];
    ok := AddShare(i, secret, denom, tmp, num, x, xs, ys[i], same, es, u);
    RegularEntry(plan, es, values, len, u, i);
    AllTrueMeans(plan.regular, |es|);
    if ok { NextShare(before, secret[..], ys[i][..], es, values, len, u, plan, i); }
  }

  /** The plan of the Lagrange sum. */
  ghost function MakePlan(es: seq<F>, values: seq<seq<u8>>, len: nat, u: F): (plan: Plan)
    requires |es| == |values| && Usable(values, len)
    ensures Sized(plan, |es|)
  {
    Plan(seq(32, l requires 0 <= l < 32 => Hits(es, Values(values, len, l), u)),
         seq(32, l requires 0 <= l < 32 => Terms(es, Values(values, len, l), u)),
         Regularities(es, u))
  }

  lemma PlanEntries(es: seq<F>, values: seq<seq<u8>>, len: nat, u: F)
    requires |es| == |values| && Usable(values, len)
    ensures forall i :: 0 <= i < |es| ==> Planned(MakePlan(es, values, len, u), es, values, len, u, i)
  {
    forall i | 0 <= i < |es| ensures Planned(MakePlan(es, values, len, u), es, values, len, u, i) {
      assert Regular(es, u, Regularities(es, u), i);
    }
  }

  lemma NothingAccumulated(secret: seq<u32>, plan: Plan, n: nat)
    requires |secret| == 8 && Sized(plan, n) && forall k :: 0 <= k < 8 ==> secret[k] == 0
    ensures Accumulated(secret, plan, n, 0)
  {
    ZeroLanes(secret);
  }

  lemma RegularUnique(indices: seq<u8>, u: F, regular: seq<bool>)
    requires regular == Regularities(Elements(indices), u)
    ensures |regular| == |indices| && (Unique(indices) <==> AllTrue(regular, |indices|))
  {
    UniqueElements(indices);
    RegularDistinct(Elements(indices), u, regular);
    AllTrueMeans(regular, |regular|);
  }

  /** The main loop; false if an index occurs twice. */
  method SumShares(secret: array<u32>, denom: array<u32>, tmp: array<u32>, num: array<u32>, x: array<u32>,
                   xs: seq<array<u32>>, ys: seq<array<u32>>, indices: seq<u8>, index: u8,
                   ghost es: seq<F>, ghost values: seq<seq<u8>>, ghost u: F, ghost len: nat, ghost plan: Plan) returns (ok: bool)
    requires es == Elements(indices) && u == Element(index)
    requires |es| == |values| && Usable(values, len) && Sized(plan, |es|)
    requires forall i :: 0 <= i < |es| ==> Planned(plan, es, values, len, u, i)
    requires secret.Length == 8 && denom.Length == 8 && tmp.Length == 8
    requires secret != denom && secret != tmp && denom != tmp && {secret, denom, tmp} !! {num, x}
    requires secret !in xs && denom !in xs && tmp !in xs && secret !in ys && denom !in ys && tmp !in ys
    requires Inputs(num, x, xs, ys, es, values, u, len)
    requires Accumulated(secret[..], plan, |es|, 0)
    modifies secret, denom, tmp
    ensures ok <==> AllTrue(plan.regular, |es|)
    ensures ok ==> Accumulated(secret[..], plan, |es|, |es|)
  {
    var i := 0;
    while i < |indices|
      invariant 0 <= i <= |es| && Accumulated(secret[..], plan, |es|, i)
      invariant Inputs(num, x, xs, ys, es, values, u, len)
      invariant AllTrue(plan.regular, i)
    {
      ElementInjective(indices[i], index);
      ok := NextRound(i, secret, denom, tmp, num, x, xs, ys, indices[i] == index, es, values, u, len, plan);
      if !ok {
        return false;
      }
      i := i + 1;
    }
    return true;
  }

  /** The registers the main loop starts from. */
  method Prepare(indices: seq<u8>, values: seq<seq<u8>>, index: u8, len: nat)
    returns (num: array<u32>, x: array<u32>, xs: seq<array<u32>>, ys: seq<array<u32>>)
    requires |indices| == |values| && Usable(values, len) && len <= 32
    ensures Inputs(num, x, xs, ys, Elements(indices), values, Element(index), len)
    ensures fresh(num) && fresh(x) && forall r :: r in xs || r in ys ==> fresh(r)
  {
    xs, ys := SliceShares(indices, values, len);
    x := NewRegister();
    SetAll(x, index);
    num := NewRegister();
    num[0] := 0xFFFF_FFFF;
    var tmp := NewRegister();
    ComputeNumerator(num, tmp, x, xs, Elements(indices), Element(index));
  }

  /** The bitsliced secret. */
  method RecoverLanes(indices: seq<u8>, values: seq<seq<u8>>, index: u8, len: nat, ghost plan: Plan)
    returns (ok: bool, secret: array<u32>)
    requires |indices| == |values| && Usable(values, len) && len <= 32
    requires plan == MakePlan(Elements(indices), values, len, Element(index))
    ensures fresh(secret) && secret.Length == 8 && Sized(plan, |indices|)
    ensures ok <==> Unique(indices)
    ensures ok ==> Accumulated(secret[..], plan, |indices|, |indices|)
  {
    var num, x, xs, ys := Prepare(indices, values, index, len);
    var denom := NewRegister();
    var tmp := NewRegister();
    secret := NewRegister();
    PlanEntries(Elements(indices), values, len, Element(index));
    NothingAccumulated(secret[..], plan, |indices|);
    RegularUnique(indices, Element(index), plan.regular);
    ok := SumShares(secret, denom, tmp, num, x, xs, ys, indices, index, Elements(indices), values, Element(index), len, plan);
  }

  /** The byte l of the result lies on every polynomial of low degree through the shares. */
  ghost predicate Recovers(b: u8, indices: seq<u8>, values: seq<seq<u8>>, len: nat, index: u8, l: nat)
    requires |indices| == |values| && Usable(values, len)
  {
    forall f: seq<F> :: |f| <= |indices| && Through(f, Elements(indices), Values(values, len, l)) ==>
      Element(b) == Eval(f, Element(index))
  }

  /** Byte by byte: the value at the requested index of any f of low degree with the shares' values at their indices. */
  lemma RecoversMeans(b: u8, indices: seq<u8>, values: seq<seq<u8>>, len: nat, index: u8, l: nat, f: seq<F>)
    requires |indices| == |values| && (forall i :: 0 <= i < |values| ==> l < len <= |values[i]|)
    requires Recovers(b, indices, values, len, index, l) && |f| <= |indices|
    requires forall i :: 0 <= i < |indices| ==> Eval(f, Element(indices[i])) == Element(values[i][l])
    ensures Element(b) == Eval(f, Element(index))
  {}

  lemma TwoTimes(a: F)
    ensures Mul(Element(2), a) == XTime(a) && Mul(Element(1), a) == a
  {
    ElementOne();
    ElementDouble(1);
    OneLeft(a);
    MulBitsX(One, a);
    MulIsBits(XTime(One), a);
    MulIsBits(One, a);
  }

  lemma XorsOfF6(a: nat, b: nat, c: nat, d: nat)
    requires a == 0xec && b == 0x1b && c == 0xf6 && d == 0xf7
    ensures Xor(a, b) == d && Xor(c, d) == 1
  {
    assert Xor(3, 0) == 3 && Xor(7, 0) == 7 && Xor(14, 1) == 15 && Xor(29, 3) == 30 && Xor(59, 6) == 61 && Xor(118, 13) == 123;
    assert Xor(15, 15) == 0 && Xor(30, 30) == 0 && Xor(61, 61) == 0 && Xor(123, 123) == 0;
  }

  /** The byte 0xf6 is the inverse of 3. */
  lemma InverseOfThree(a: F, b: u8)
    requires a == Element(b) && b == 0xf6
    ensures Add(a, Mul(Element(2), a)) == One && Mul(Element(1), a) == a && Add(a, a) == Zero
  {
    TwoTimes(a);
    AddLaws(a, a, a);
    XorsOfF6(0xec, 0x1b, 0xf6, 0xf7);
    ElementTimesX(b);
    ElementXor(b, 0xf7);
    ElementOne();
  }

  /** The secret of the shares (1, 0) and (2, 1) is the inverse of 3. */
  lemma TwoShares(b: u8)
    requires Recovers(b, [1, 2], [[0], [1]], 1, 0, 0)
    ensures b == 0xf6
  {
    var a := Element(0xf6);
    var f: seq<F> := [a, a];
    InverseOfThree(a, 0xf6);
    ElementOne();
    ElementZero();
    LineAt(a, Element(1));
    LineAt(a, Element(2));
    LineAt(a, Element(0));
    RecoversMeans(b, [1, 2], [[0], [1]], 1, 0, 0, f);
    MulZero(a);
    AddLaws(a, Zero, Zero);
    ElementInjective(b, 0xf6);
  }

  lemma ElementZero()
    ensures Element(0) == Zero
  {
    forall k: nat | k < 8 ensures Element(0)[k] == Zero[k] { BitZero(k); }
  }

  lemma LineAt(a: F, x: F)
    ensures Eval([a, a], x) == Add(a, Mul(x, a))
  {
    MulZero(x);
    AddLaws(a, Zero, Zero);
    assert [a, a][1..] == [a] && [a][1..] == [];
    assert Eval([a], x) == Add(a, Mul(x, Eval([], x)));
  }

  /**
   shamir_interpolate: false exactly for more than 32 bytes or a repeated index; otherwise
   every byte of the result is the value at result_index of the polynomial through the
   shares, also when result_index is the index of a share.
   */
  method Interpolate(result: array<u8>, index: u8, indices: seq<u8>, values: seq<seq<u8>>, len: nat) returns (ok: bool)
    requires |indices| == |values| && Usable(values, len) && len <= result.Length
    modifies result
    ensures ok <==> len <= 32 && forall i, j :: 0 <= i < j < |indices| ==> indices[i] != indices[j]
    ensures ok ==> forall l :: 0 <= l < len ==> Recovers(result[l], indices, values, len, index, l)
    ensures forall l :: 0 <= l < result.Length && (ok ==> l >= len) ==> result[l] == old(result[l])
  {
    if len > MAX_LEN {
      return false;
    }
    ghost var plan := MakePlan(Elements(indices), values, len, Element(index));
    var secret: array<u32>;
    ok, secret := RecoverLanes(indices, values, index, len, plan);
    if ok {
      UnbitsliceBytes(result, secret, len);
      forall l | 0 <= l < len ensures Recovers(result[l], indices, values, len, index, l) {
        RecoveredLane(result[l], secret[..], indices, values, len, index, plan, l);
      }
    }
  }

  lemma RecoveredLane(b: u8, secret: seq<u32>, indices: seq<u8>, values: seq<seq<u8>>, len: nat, index: u8, plan: Plan, l: nat)
    requires |indices| == |values| && Usable(values, len) && Unique(indices) && l < 32
    requires plan == MakePlan(Elements(indices), values, len, Element(index))
    requires Accumulated(secret, plan, |indices|, |indices|) && Element(b) == Lane(secret, l)
    ensures Recovers(b, indices, values, len, index, l)
  {
    UniqueElements(indices);
    forall f: seq<F> | |f| <= |indices| && Through(f, Elements(indices), Values(values, len, l))
      ensures Element(b) == Eval(f, Element(index))
    {
      SecretIsValue(f, Elements(indices), Values(values, len, l), Element(index));
    }
  }
}
