/** Signed-digit forms of a scalar: contract256_slidingwindow_modm and contract256_window4_modm. */
module ModmRecode {
  import opened Arith
  import opened Words
  import opened Limbs
  import opened Powers
  import opened BignumSpec
  import opened SignedDigits

  type i8 = x: int | -128 <= x < 128

  /** A reduced scalar: nine limbs of 30 bits, the top one of 16. */
  ghost predicate Scalar(s: array<u32>)
    reads s
  {
    s.Length == 9 && Normalized(s[..], WORD30) && s[8] < 0x1_0000
  }

  lemma ZeroOnTop(low: seq<int>, b: nat)
    ensures Val(low + [0], b) == Val(low, b)
  {
    ValSnoc(low, 0, b);
  }

  /** The number so far, with the limb's remaining bits v on top. */
  ghost predicate Expanding(digits: seq<int>, v: int, left: nat, total: int, b: nat) {
    0 <= v < Pow(b, left) && Normalized(digits, b) && Val(digits + [v], b) == total
  }

  lemma ExpandStep(digits: seq<int>, v: int, left: nat, total: int, b: nat)
    requires left > 0 && b > 0 && Expanding(digits, v, left, total, b)
    ensures Expanding(digits + [v % b], v / b, left - 1, total, b)
  {
    CarryStep(digits, v, v, b);
    assert Pow(b, |digits|) * (v - v) == 0;
    DivBounds(v, b, Pow(b, left - 1));
    DivBounds(v, b, 0);
    DivMod(v, b);
  }

  lemma ExpandDone(digits: seq<int>, v: int, total: int, b: nat)
    requires Expanding(digits, v, 0, total, b)
    ensures Normalized(digits, b) && Val(digits, b) == total
  {
    ZeroOnTop(digits, b);
  }

  // ------------------------------------------------------------ sliding window

  /** The lowest bits of v from position pos on. */
  method LimbBits(r: array<i8>, pos: nat, v0: u32, count: nat)
    requires pos + count <= r.Length && Normalized(r[..pos], 2) && v0 < Two(count)
    modifies r
    ensures Normalized(r[..pos + count], 2)
    ensures Val(r[..pos + count], 2) == Val(old(r[..pos]), 2) + Two(pos) * v0
  {
    TwoMeans(pos);
    TwoMeans(count);
    ghost var total := Val(r[..pos] + [v0], 2);
    ValSnoc(r[..pos], v0, 2);
    var v: u32, j := v0, 0;
    while j < count
      invariant 0 <= j <= count && Expanding(r[..pos + j], v, count - j, total, 2)
    {
      ghost var digits := r[..pos + j];
      ExpandStep(digits, v, count - j, total, 2);
      r[pos + j] := v % 2;
      v := v / 2;
      j := j + 1;
      assert r[..pos + j] == digits + [r[pos + j - 1]];
    }
    ExpandDone(r[..pos + count], v, total, 2);
  }

  /** The bits of limb i: 30, or 16 for the last one. */
  method ExpandLimb(r: array<i8>, s: array<u32>, i: nat, pos: nat, count: nat)
    requires r.Length == 256 && Scalar(s) && i < 9 && pos == 30 * i && count == LimbSize(i)
    requires Normalized(r[..pos], 2) && Val(r[..pos], 2) == Num(s[..][..i])
    modifies r
    ensures Normalized(r[..pos + count], 2) && Val(r[..pos + count], 2) == Num(s[..][..i + 1])
  {
    NextLimb(s[..], i, pos, count);
    LimbBits(r, pos, s[i], count);
  }

  function LimbSize(i: nat): nat {
    if i < 8 then 30 else 16
  }

  /** The binary expansion. */
  method BinaryExpansion(r: array<i8>, s: array<u32>)
    requires r.Length == 256 && Scalar(s)
    modifies r
    ensures Normalized(r[..], 2) && Val(r[..], 2) == Num(s[..])
  {
    var i := 0;
    assert r[..0] == [] && s[..][..0] == [];
    while i < 8
      invariant 0 <= i <= 8 && Normalized(r[..30 * i], 2) && Val(r[..30 * i], 2) == Num(s[..][..i])
    {
      ExpandLimb(r, s, i, 30 * i, 30);
      i := i + 1;
    }
    ExpandLimb(r, s, 8, 240, 16);
    assert r[..256] == r[..] && s[..][..9] == s[..];
  }

  lemma NextLimb(s: seq<u32>, i: nat, pos: nat, count: nat)
    requires i < |s| == 9 && Normalized(s, WORD30) && s[8] < 0x1_0000 && pos == 30 * i && count == LimbSize(i)
    ensures s[i] < Two(count)
    ensures Num(s[..i + 1]) == Num(s[..i]) + Two(pos) * s[i]
  {
    LimbFits(count);
    TwoMeans(pos);
    LimbPower(i);
    ValPrefix(s, i, WORD30);
  }

  lemma LimbFits(count: nat)
    requires count == 30 || count == 16
    ensures Two(count) == if count == 30 then WORD30 else 0x1_0000
  {
    TwoMeans(count);
    Pow2Literals();
  }

  /** Adding one to the bits from position k0 on. */
  method Increment(r: array<i8>, k0: nat)
    requires k0 < r.Length && Bits(r[..], k0) && From(r[..], k0) + 1 < Two(r.Length - k0)
    modifies r
    ensures Bits(r[..], k0) && From(r[..], k0) == From(old(r[..]), k0) + 1
    ensures forall k :: 0 <= k < k0 ==> r[k] == old(r[k])
  {
    ghost var s := r[..];
    var k := k0;
    TwoMeans(0);
    assert Pow(2, 0) == 1;
    while k < r.Length
      invariant k0 <= k <= r.Length && Bits(r[..], k0)
      invariant forall i :: 0 <= i < k0 || k <= i < r.Length ==> r[i] == s[i]
      invariant Zeros(r[..], k0, k)
      invariant From(s, k0) + 1 == Two(k - k0) * (From(s, k) + 1)
    {
      ghost var t := r[..];
      FromStep(s, k);
      if r[k] == 0 {
        r[k] := 1;
        CarryEnds(s, k0, k, t, r[..]);
        return;
      }
      CarryGoesOn(s, k0, k);
      r[k] := 0;
      k := k + 1;
    }
    assert false;
  }

  lemma CarryGoesOn(s: seq<int>, k0: nat, k: nat)
    requires k0 <= k < |s| && s[k] == 1 && From(s, k0) + 1 == Two(k - k0) * (From(s, k) + 1)
    ensures From(s, k0) + 1 == Two(k + 1 - k0) * (From(s, k + 1) + 1)
  {
    var f := From(s, k + 1) + 1;
    FromStep(s, k);
    TwoDouble(k - k0);
    assert From(s, k) + 1 == 2 * f;
    Assoc(Two(k - k0), 2, f);
  }

  /** The first zero becomes a one, after zeros in place of the ones before it. */
  lemma CarryEnds(s: seq<int>, k0: nat, k: nat, t: seq<int>, u: seq<int>)
    requires k0 <= k < |s| == |t| && s[k] == 0 && From(s, k0) + 1 == Two(k - k0) * (From(s, k) + 1)
    requires Zeros(t, k0, k) && (forall i :: k <= i < |s| ==> t[i] == s[i]) && u == t[k := 1]
    ensures From(u, k0) == From(s, k0) + 1
  {
    FromZeros(u, k0, k);
    FromStep(u, k);
    FromStep(s, k);
    assert From(u, k + 1) == From(s, k + 1) by { if k + 1 < |s| { assert u[k + 1..] == s[k + 1..]; } }
    MulEq(Two(k - k0), From(u, k), From(s, k) + 1);
  }

  /** One position of the window that starts at j; false when its bit must stay. */
  method Slide(r: array<i8>, j: nat, b: nat, m: int, ghost total: int) returns (go: bool)
    requires r.Length == 256 && 1 <= b && j + b < 256 && 1 <= m < 128 && Collecting(r[..], j, j + b, m, total)
    modifies r
    ensures go ==> Collecting(r[..], j, j + b + 1, m, total)
    ensures !go ==> Collecting(r[..], j, j + b, m, total)
  {
    ghost var s, i := r[..], j + b;
    TwoMeans(b);
    var w := Pow2(b);
    if r[j + b] == 0 {
      // r[j] + (r[j + b] << b) <= m, and both assignments change nothing
      PassZero(s, j, i, m, total);
      return true;
    }
    if r[j] + w <= m {
      r[j] := r[j] + w;
      r[j + b] := 0;
      Absorb(s, j, i, m, total, s[j] + w, r[..]);
      return true;
    }
    if r[j] - w >= -m {
      PositiveDigit(r[j], w, m);
      RoomForCarry(s, j, i, m, total);
      r[j] := r[j] - w;
      assert From(r[..], i) == From(s, i) by { assert r[..][i..] == s[i..]; }
      Increment(r, j + b);
      Borrow(s, j, i, m, total, s[j] - w, r[..]);
      return true;
    }
    return false;
  }

  /** The window that starts at a one. */
  method Collect(r: array<i8>, j: nat, m: int, ghost total: int)
    requires r.Length == 256 && j < 256 && r[j] != 0 && 1 <= m < 128 && Done(r[..], j, m, total)
    modifies r
    ensures Done(r[..], j + 1, m, total)
  {
    StartCollecting(r[..], j, m, total);
    var b := 1;
    while b < 256 - j && b <= 6
      invariant 1 <= b <= 256 - j && Collecting(r[..], j, j + b, m, total)
    {
      var go := Slide(r, j, b, m, total);
      if !go {
        break;
      }
      b := b + 1;
    }
    StopCollecting(r[..], j, j + b, m, total);
  }

  /**
   contract256_slidingwindow_modm: the digits are 0 or odd, at most 2^(w - 1) - 1 in
   magnitude, and their number is the scalar; no carry is lost for scalars up to 2^255.
   */
  method SlidingWindow(r: array<i8>, s: array<u32>, windowsize: nat)
    requires r.Length == 256 && Scalar(s) && 2 <= windowsize <= 8 && Num(s[..]) <= Two(255)
    modifies r
    ensures Val(r[..], 2) == Num(s[..])
    ensures forall k :: 0 <= k < 256 ==> r[k] == 0 || (r[k] % 2 == 1 && 0 - Two(windowsize - 1) < r[k] < Two(windowsize - 1))
  {
    var m := Pow2(windowsize - 1) - 1;
    WindowSize(windowsize, m);
    ghost var total := Num(s[..]);
    BinaryExpansion(r, s);
    assert r[..][0..] == r[..];
    var j := 0;
    while j < 256
      invariant 0 <= j <= 256 && Done(r[..], j, m, total)
    {
      if r[j] == 0 {
        SkipZero(r[..], j, m, total);
      } else {
        Collect(r, j, m, total);
      }
      j := j + 1;
    }
  }

  lemma WindowSize(w: nat, m: int)
    requires 2 <= w <= 8 && m == Pow2(w - 1) - 1
    ensures 1 <= m < 128 && m == Two(w - 1) - 1
  {
    TwoMeans(w - 1);
    Pow2Monotone(1, w - 1);
    Pow2Monotone(w - 1, 7);
    assert Pow2(1) == 2 && Pow2(7) == 128;
  }

  // ------------------------------------------------------------ windows of four bits

  lemma NibbleWeight(n: nat)
    ensures Pow(16, n) == Two(4 * n)
  {
    NibblePower(n);
    TwoMeans(4 * n);
  }

  /** count digits of four bits; what is left of v0 is returned. */
  method Nibbles(r: array<i8>, pos: nat, v0: u32, count: nat, ghost left: nat) returns (v: u32)
    requires pos + count <= r.Length && Normalized(r[..pos], 16) && v0 < Pow(16, left) && count <= left
    modifies r
    ensures Normalized(r[..pos + count], 16) && v < Pow(16, left - count) && v * Pow(16, count) <= v0
    ensures Val(r[..pos + count] + [v], 16) == Val(old(r[..pos]) + [v0], 16)
  {
    ghost var total := Val(r[..pos] + [v0], 16);
    v := v0;
    var j := 0;
    assert Pow(16, 0) == 1;
    while j < count
      invariant 0 <= j <= count && v * Pow(16, j) <= v0
      invariant Expanding(r[..pos + j], v, left - j, total, 16)
    {
      ghost var digits := r[..pos + j];
      ExpandStep(digits, v, left - j, total, 16);
      Shrinks(v, Pow(16, j));
      r[pos + j] := v % 16;
      v := v / 16;
      j := j + 1;
      assert r[..pos + j] == digits + [r[pos + j - 1]];
    }
  }

  lemma Shrinks(v: nat, p: nat)
    ensures (v / 16) * (16 * p) <= v * p
  {
    DivMod(v, 16);
    Assoc(v / 16, 16, p);
    MulLe(p, 16 * (v / 16), v);
  }

  /** The first limb of a pair on top of the digits so far. */
  lemma FirstOfPair(s: seq<u32>, i: nat, digits: seq<int>, x: int)
    requires i < |s| == 9 && Normalized(s, WORD30) && s[8] < 0x1_0000 && x == s[i]
    requires 2 * |digits| == 15 * i && Val(digits, 16) == Num(s[..i])
    ensures Val(digits + [x], 16) == Num(s[..i + 1])
  {
    ValSnoc(digits, x, 16);
    NibbleWeight(|digits|);
    NextLimb(s, i, 4 * |digits|, LimbSize(i));
  }

  /** The second limb follows the two bits that the first one leaves. */
  lemma SecondOfPair(s: seq<u32>, i: nat, digits: seq<int>, v: int, w: int)
    requires i + 1 < |s| == 9 && Normalized(s, WORD30) && s[8] < 0x1_0000 && w == v + 4 * s[i + 1]
    requires 2 * |digits| == 15 * i + 14 && Val(digits + [v], 16) == Num(s[..i + 1])
    ensures Val(digits + [w], 16) == Num(s[..i + 2])
  {
    var n := 4 * |digits| + 2;
    NextLimb(s, i + 1, n, LimbSize(i + 1));
    AddLimb(digits, v, w, s[i + 1], n, Num(s[..i + 1]), Num(s[..i + 2]));
  }

  /** A limb two bits above a digit's place. */
  lemma AddLimb(digits: seq<int>, v: int, w: int, x: int, n: nat, low: int, sum: int)
    requires w == v + 4 * x && n == 4 * |digits| + 2
    requires Val(digits + [v], 16) == low && sum == low + Two(n) * x
    ensures Val(digits + [w], 16) == sum
  {
    var m := 4 * |digits|;
    OnTop(digits, v, Two(m));
    OnTop(digits, w, Two(m));
    TwoDouble(m);
    TwoDouble(m + 1);
    SecondWeight(Two(m), Two(n), v, w, x);
  }

  lemma OnTop(digits: seq<int>, v: int, p: int)
    requires p == Two(4 * |digits|)
    ensures Val(digits + [v], 16) == Val(digits, 16) + p * v
  {
    ValSnoc(digits, v, 16);
    NibbleWeight(|digits|);
  }

  lemma SecondWeight(p: int, q: int, v: int, w: int, x: int)
    requires q == p * 4 && w == v + 4 * x
    ensures p * w == p * v + q * x
  {
    MulEq(p, w, v + 4 * x);
    Distrib(p, v, 4 * x);
    Assoc(p, 4, x);
    MulEq(x, q, p * 4);
  }

  lemma BelowFour(v: nat, x: nat, e: nat)
    requires e == 7 && v * Pow(16, e) <= x < WORD30
    ensures v < 4
  {
    SevenNibbles(e);
  }

  lemma SevenNibbles(e: nat)
    requires e == 7
    ensures Pow(16, e) == 0x1000_0000
  {}

  /** v | (x << 2) */
  method Joined(v: u32, x: u32) returns (w: u32)
    requires v < 4 && x < WORD30
    ensures w == v + 4 * x
  {
    JoinedValue(v, x, 2);
    w := Or(v, Shl32(x, 2));
  }

  lemma JoinedValue(v: u32, x: u32, n: nat)
    requires v < 4 && x < WORD30 && n == 2
    ensures Or(v, Shl32(x, n)) == v + 4 * x
  {
    TwoBits(n);
    assert Shl32(x, n) == Pow2(n) * x by { Shl32Value(x, n); DivModUnique(x, 0, x, Pow2(32 - n)); }
    OrDisjoint(v, x, n);
  }

  lemma TwoBits(n: nat)
    requires n == 2
    ensures Pow2(n) == 4 && Pow2(32 - n) == WORD30
  {
    Pow2Literals();
  }

  /** Two limbs make fifteen digits: seven of the first, and eight across. */
  method NibblePair(r: array<i8>, s: array<u32>, i: nat, pos: nat)
    requires r.Length == 64 && Scalar(s) && i < 8 && 2 * pos == 15 * i && pos + 15 <= 64
    requires Normalized(r[..pos], 16) && Val(r[..pos], 16) == Num(s[..][..i])
    modifies r
    ensures Normalized(r[..pos + 15], 16) && Val(r[..pos + 15], 16) == Num(s[..][..i + 2])
  {
    FirstOfPair(s[..], i, r[..pos], s[i]);
    var v := Nibbles(r, pos, s[i], 7, 8);
    BelowFour(v, s[i], 7);
    var w := Joined(v, s[i + 1]);
    SecondOfPair(s[..], i, r[..pos + 7], v, w);
    v := Nibbles(r, pos + 7, w, 8, 8);
    ExpandDone(r[..pos + 15], v, Num(s[..][..i + 2]), 16);
  }

  /** The expansion to base 16. */
  method NibbleExpansion(r: array<i8>, s: array<u32>)
    requires r.Length == 64 && Scalar(s)
    modifies r
    ensures Normalized(r[..], 16) && Val(r[..], 16) == Num(s[..])
  {
    assert r[..0] == [] && s[..][..0] == [];
    NibblePair(r, s, 0, 0);
    NibblePair(r, s, 2, 15);
    NibblePair(r, s, 4, 30);
    NibblePair(r, s, 6, 45);
    FirstOfPair(s[..], 8, r[..60], s[8]);
    var v := Nibbles(r, 60, s[8], 4, 4);
    ExpandDone(r[..64], v, Num(s[..][..9]), 16);
    assert r[..64] == r[..] && s[..][..9] == s[..];
  }

  /**
   The digits below i are signed, the others not yet; a carry out of digit i - 1 is still
   to be added.  The last digit stays at most 7 until it takes a carry.
   */
  ghost predicate MakingSigned(s: seq<int>, i: nat, carry: int, total: int) {
    && |s| == 64 && i < 64 && 0 <= carry <= 1
    && (forall k :: 0 <= k < i ==> -8 <= s[k] <= 7)
    && (forall k :: i < k < 63 ==> 0 <= s[k] <= 15)
    && 0 <= s[i] && s[i] + carry <= (if i == 63 then 8 else 16) && 0 <= s[63] && (i < 63 ==> s[63] <= 7)
    && Val(s, 16) + Pow(16, i) * carry == total
  }

  /** a = (lo - 16 c) + 16 (hi + c): the digit becomes lo - 16 c, and hi and c go up. */
  lemma SignedStep(s: seq<int>, i: nat, carry: int, total: int, hi: int, lo: int, c: int, t: seq<int>)
    requires MakingSigned(s, i, carry, total) && i < 63
    requires s[i] + carry == 16 * hi + lo && 0 <= lo < 16 && c == lo / 8
    requires t == s[i := lo - 16 * c][i + 1 := s[i + 1] + hi]
    ensures MakingSigned(t, i + 1, c, total)
  {
    var p, q := Pow(16, i), Pow(16, i + 1);
    var u := s[i := lo - 16 * c];
    assert Val(u, 16) == Val(s, 16) + p * (lo - 16 * c - s[i]) by { ValUpdate(s, i, lo - 16 * c, 16); }
    assert Val(t, 16) == Val(u, 16) + q * hi by { ValUpdate(u, i + 1, s[i + 1] + hi, 16); MulEq(q, hi, t[i + 1] - u[i + 1]); }
    CarryWeight(p, q, s[i], carry, hi, lo, c);
  }

  lemma CarryWeight(p: int, q: int, d: int, carry: int, hi: int, lo: int, c: int)
    requires q == 16 * p && d + carry == 16 * hi + lo
    ensures p * (lo - 16 * c - d) + q * hi + q * c == p * carry
  {
    assert lo - 16 * c - d == carry - 16 * (hi + c);
    MulEq(p, lo - 16 * c - d, carry - 16 * (hi + c));
    Distrib(p, carry, 16 * (hi + c));
    Assoc(p, 16, hi + c);
    Distrib(q, hi, c);
  }

  /** The top digit of a scalar below 2^255. */
  lemma TopNibble(s: seq<int>, e: nat)
    requires |s| == 64 && Normalized(s, 16) && Val(s, 16) < Two(e) && e == 255
    ensures s[63] <= 7
  {
    var i := 63;
    ValPrefix(s, i, 16);
    assert s[..i + 1] == s;
    ValBound(s[..i], 16);
    NibbleWeight(i);
    TwoAdd(4 * i, 3);
    assert Two(3) == 8 by { TwoMeans(3); assert Pow(2, 3) == 8; }
    if s[i] >= 8 { MulLe(Pow(16, i), 8, s[i]); }
  }

  /**
   contract256_window4_modm: digits between -8 and 8 whose number in base 16 is the
   scalar, which is below 2^255.
   */
  method Window4(r: array<i8>, s: array<u32>)
    requires r.Length == 64 && Scalar(s) && Num(s[..]) < Two(255)
    modifies r
    ensures Val(r[..], 16) == Num(s[..])
    ensures forall k :: 0 <= k < 64 ==> -8 <= r[k] <= 8
    ensures forall k :: 0 <= k < 63 ==> r[k] <= 7
  {
    NibbleExpansion(r, s);
    TopNibble(r[..], 255);
    ghost var total := Num(s[..]);
    var carry: i8 := 0;
    var i := 0;
    while i < 63
      invariant 0 <= i <= 63 && MakingSigned(r[..], i, carry, total)
    {
      carry := SignOne(r, i, carry, total);
      i := i + 1;
    }
    ghost var u := r[..];
    r[63] := r[63] + carry;
    ValUpdate(u, 63, r[63], 16);
    assert r[..] == u[63 := r[63]];
    MulEq(Pow(16, i), carry, r[63] - u[63]);
  }

  method SignOne(r: array<i8>, i: nat, carry: i8, ghost total: int) returns (carry': i8)
    requires r.Length == 64 && i < 63 && MakingSigned(r[..], i, carry, total)
    modifies r
    ensures MakingSigned(r[..], i + 1, carry', total)
  {
    ghost var s := r[..];
    var a := r[i] + carry;
    r[i] := a;
    r[i + 1] := r[i + 1] + r[i] / 16;
    r[i] := r[i] % 16;
    ghost var lo := r[i];
    carry' := r[i] / 8;
    r[i] := r[i] - carry' * 16;
    DivMod(a, 16);
    SignedStep(s, i, carry, total, a / 16, lo, carry', r[..]);
  }
}
