/**
 The limb-level half of point_multiply: making the scalar odd, and reading it from the
 top five bits at a time.
 */
module ScalarLimbs {
  import opened Arith
  import opened Words
  import opened Limbs
  import opened Powers
  import opened BignumSpec
  import opened ScalarDigits
  import B = Bignum

  /** The scalar plus 2^256, less the order when the scalar is even. */
  function MadeOdd(k: int, order: int): int {
    k + TWO256 - (if k % 2 == 0 then order else 0)
  }

  /** One limb of k - y; the borrow is kept one above its signed value. */
  method OddDigit(tmp: u32, k: u32, n: u32, even: bool) returns (digit: u32, carry: u32)
    requires tmp <= 1 && k < WORD30 && n < WORD30
    ensures carry <= 1 && digit < WORD30
    ensures var t := (tmp - 1) + k + (-1) * (if even then n else 0); digit == t % WORD30 && carry - 1 == t / WORD30
  {
    B.Select(n, 0, even);
    var t: u32 := tmp + (0x3FFF_FFFF + k - And(n, B.Mask(even)));
    digit, carry := t % WORD30, t / WORD30;
    DivModUnique((t as int) - WORD30, (carry as int) - 1, digit, WORD30);
  }

  /** The eight low limbs of k - y, where y is the order or 0; acc collects the bits of k. */
  method OddLimbs(k: array<u32>, order: array<u32>, a: array<u32>, even: bool, ghost y: seq<u32>)
    returns (tmp: u32, acc: nat)
    requires B.Bn(k) && B.Bn(order) && a.Length == 9 && a != k && a != order && y == Masked(order[..], even)
    modifies a
    ensures tmp <= 1 && forall i :: 0 <= i < 8 ==> a[i] < WORD30
    ensures acc == 0 <==> forall i :: 0 <= i < 8 ==> k[i] == 0
    ensures Num(a[..8] + [tmp - 1]) == Num(k[..][..8]) + (-1) * Num(y[..8])
  {
    ghost var x := k[..];
    tmp, acc := 1, 0;
    var j := 0;
    B.ChainStart(x, y, -1);
    assert a[..0] + [tmp - 1] == [0];
    while j < 8
      invariant 0 <= j <= 8 && tmp <= 1
      invariant acc == 0 <==> forall i :: 0 <= i < j ==> k[i] == 0
      invariant forall i :: 0 <= i < j ==> a[i] < WORD30
      invariant Num(a[..j] + [tmp - 1]) == Num(x[..j]) + (-1) * Num(y[..j])
    {
      OrZero(acc, k[j]);
      acc := Or(acc, k[j]);
      ghost var low, c := a[..j], tmp - 1;
      B.ChainStep(low, c, x, y, -1, c + x[j] + (-1) * y[j]);
      var digit: u32;
      digit, tmp := OddDigit(tmp, k[j], order[j], even);
      a[j] := digit;
      assert a[..j + 1] == low + [digit];
      j := j + 1;
    }
  }

  /** a := k + 2^256 (- order if k is even); returns whether k is nonzero. */
  method OddScalar(k: array<u32>, order: array<u32>, a: array<u32>) returns (nonZero: bool)
    requires B.Bn(k) && B.Prime(order) && Num(k[..]) < Num(order[..])
    requires a.Length == 9 && a != k && a != order
    modifies a
    ensures B.Bn(a) && Num(a[..]) == MadeOdd(Num(k[..]), Num(order[..]))
    ensures nonZero <==> Num(k[..]) != 0
  {
    var even := k[0] % 2 == 0;
    ghost var y := Masked(order[..], even);
    var tmp: u32, acc: nat := OddLimbs(k, order, a, even, y);
    OrZero(acc, k[8]);
    acc := Or(acc, k[8]);
    B.Select(order[8], 0, even);
    TopBelow(k[..]);
    TopBelow(order[..]);
    a[8] := tmp + (0xFFFF + k[8] - And(order[8], B.Mask(even)));
    nonZero := acc != 0;
    AllZero(k[..]);
    MadeOddValue(k[..], order[..], y, a[..], tmp - 1);
  }

  lemma AllZero(x: seq<int>)
    requires Normalized(x, WORD30)
    ensures Num(x) == 0 <==> forall i :: 0 <= i < |x| ==> x[i] == 0
  {
    if Num(x) == 0 { ZeroValue(x, WORD30); } else if forall i :: 0 <= i < |x| ==> x[i] == 0 { ValZeros(x, WORD30); }
  }

  function Masked(n: seq<u32>, on: bool): (y: seq<u32>)
    requires |n| == 9
    ensures |y| == 9 && forall i :: 0 <= i < 9 ==> y[i] == if on then n[i] else 0
  {
    if on then n else seq(9, _ => 0)
  }

  lemma TopBelow(s: seq<int>)
    requires |s| == 9 && Normalized(s, WORD30) && Num(s) < TWO256
    ensures 0 <= s[8] < 0x1_0000
  {
    B.TopLimb(s);
  }

  lemma MadeOddValue(x: seq<int>, n: seq<u32>, y: seq<u32>, a: seq<int>, c: int)
    requires |x| == |n| == |a| == 9 && y == Masked(n, x[0] % 2 == 0)
    requires a[8] == c + 0x1_0000 + x[8] - y[8]
    requires Num(a[..8] + [c]) == Num(x[..8]) + (-1) * Num(y[..8])
    ensures Num(a) == MadeOdd(Num(x), Num(n))
  {
    PowLiterals();
    ValSnoc(a[..8], c, WORD30);
    ValPrefix(a, 8, WORD30);
    ValPrefix(x, 8, WORD30);
    ValPrefix(y, 8, WORD30);
    assert a[..9] == a && x[..9] == x && y[..9] == y;
    B.ParityOfLimb(x);
    if x[0] % 2 == 0 { assert y == n; } else { ValZeros(y, WORD30); }
  }

  // ------------------------------------------------------------ reading the digits

  /** The reader stands at bit 4 i of a. */
  ghost predicate Position(a: array<u32>, i: int, aptr: int, abits: u32, ashift: int)
    reads a
  {
    && a.Length == 9 && 0 <= i <= 63 && 0 <= aptr <= 8 && 0 <= ashift < 30
    && 4 * i == 30 * aptr + ashift && abits == a[aptr]
  }

  /** The window at a position is the limbs from there on, shifted. */
  lemma WindowAt(s: seq<int>, i: nat, aptr: nat, ashift: nat)
    requires |s| == 9 && Normalized(s, WORD30) && aptr <= 8 && 4 * i == 30 * aptr + ashift
    ensures Num(s) >= 0 && Num(s[aptr + 1..]) >= 0
    ensures Num(s[aptr..]) == s[aptr] + WORD30 * Num(s[aptr + 1..])
    ensures Window(Num(s), i) == Num(s[aptr..]) / Pow2(ashift)
  {
    ValNonNegative(s, WORD30);
    ValNonNegative(s[aptr + 1..], WORD30);
    assert s[aptr..][1..] == s[aptr + 1..];
    ValSplit(s, aptr, WORD30);
    ValBound(s[..aptr], WORD30);
    LimbPower(aptr);
    var p := Pow2(30 * aptr);
    DivModUnique(Num(s), Num(s[aptr..]), Num(s[..aptr]), p);
    Pow2Add(30 * aptr, ashift);
    DivDiv(Num(s), p, Pow2(ashift));
  }

  /** Within a limb: five bits of it are there. */
  lemma InsideLimb(x: int, h: int, p: int, q: int, w: int)
    requires 0 <= x < WORD30 && p > 0 && q > 0 && (32 * p) * q == WORD30
    requires w == (x + WORD30 * h) / q
    ensures w % 32 == (x / q) % 32
  {
    DivMod(x, q);
    Assoc(q, 32 * p, h);
    Distrib(q, x / q, (32 * p) * h);
    DivModUnique(x + WORD30 * h, x / q + (32 * p) * h, x % q, q);
    Assoc(32, p, h);
    Congruent(w, x / q, p * h);
  }

  /** Across a limb boundary: the low bits of x follow the high bits of the next limb y. */
  lemma AcrossLimbs(x: int, y: int, h: int, p: int, q: int, s: int, d: int, w: int)
    requires p > 0 && q > 0 && p * q == WORD30 && s > 0 && p * s == WORD32 && d == x % s
    requires w == (y + WORD30 * (x + WORD30 * h)) / q
    ensures w % 32 == (p * d + y / q) % 32
  {
    DivMod(y, q);
    DivMod(x, s);
    var g := x + WORD30 * h;
    Assoc(q, p, g);
    Distrib(q, y / q, p * g);
    DivModUnique(y + WORD30 * g, y / q + p * g, y % q, q);
    Overlap(x, h, p, s, d, x / s);
    Congruent(y / q + p * g, p * d + y / q, 0x800_0000 * (x / s) + 0x200_0000 * (p * h));
  }

  lemma Congruent(a: int, b: int, k: int)
    requires a == b + 32 * k
    ensures a % 32 == b % 32
  {}

  lemma Overlap(x: int, h: int, p: int, s: int, d: int, e: int)
    requires p * s == WORD32 && x == s * e + d
    ensures p * (x + WORD30 * h) == p * d + 32 * (0x800_0000 * e + 0x200_0000 * (p * h))
  {
    Distrib(p, x, WORD30 * h);
    Distrib(p, s * e, d);
    Assoc(p, s, e);
    Assoc(p, WORD30, h);
    Assoc(WORD30, p, h);
  }

  /** The next five bits, four positions further down. */
  method NextBits(a: array<u32>, i: nat, aptr: nat, abits: u32, ashift: int)
    returns (bits: u32, aptr': nat, abits': u32, ashift': int)
    requires B.Bn(a) && i < 63 && Position(a, i + 1, aptr, abits, ashift)
    ensures Position(a, i, aptr', abits', ashift')
    ensures Num(a[..]) >= 0 && bits == Window(Num(a[..]), i) % 32
  {
    ValNonNegative(a[..], WORD30);
    ashift' := ashift - 4;
    if ashift' < 0 {
      var up: nat := -ashift';
      bits := Shl32(abits, up);
      aptr' := aptr - 1;
      abits' := a[aptr'];
      ashift' := ashift' + 30;
      Crossing(a[..], i, aptr', abits, ashift', up);
      bits := Or(bits, Shr32(abits', ashift'));
    } else {
      aptr', abits' := aptr, abits;
      bits := Shr32(abits, ashift');
      Inside(a[..], i, aptr', ashift');
    }
    Low5(bits);
    bits := And(bits, 31);
  }

  lemma Low5(bits: nat)
    ensures And(bits, 31) == bits % 32
  {
    var n := 5;
    Pow2Literals();
    AndMask(bits, n);
  }

  lemma Inside(s: seq<int>, i: nat, aptr: nat, ashift: nat)
    requires |s| == 9 && Normalized(s, WORD30) && aptr <= 8 && ashift <= 25 && 4 * i == 30 * aptr + ashift
    ensures Num(s) >= 0 && 0 <= s[aptr] < WORD30 && Shr32(s[aptr], ashift) % 32 == Window(Num(s), i) % 32
  {
    WindowAt(s, i, aptr, ashift);
    Shr32Value(s[aptr], ashift);
    Pow2Literals();
    Pow2Add(5, 25 - ashift);
    Pow2Add(30 - ashift, ashift);
    InsideLimb(s[aptr], Num(s[aptr + 1..]), Pow2(25 - ashift), Pow2(ashift), Window(Num(s), i));
  }

  lemma Crossing(s: seq<int>, i: nat, aptr: nat, x: u32, ashift: nat, up: nat)
    requires |s| == 9 && Normalized(s, WORD30) && aptr < 8 && x == s[aptr + 1]
    requires ashift == 30 - up && 0 < up <= 4 && 4 * i == 30 * aptr + ashift
    ensures 0 <= s[aptr] < WORD30
    ensures Num(s) >= 0 && Or(Shl32(x, up), Shr32(s[aptr], ashift)) < 0x1_0000_0000
    ensures Or(Shl32(x, up), Shr32(s[aptr], ashift)) % 32 == Window(Num(s), i) % 32
  {
    WindowAt(s, i, aptr, ashift);
    assert s[aptr + 1..][1..] == s[aptr + 2..];
    Shl32Value(x, up);
    Shr32Value(s[aptr], ashift);
    Pow2Literals();
    Pow2Add(up, ashift);
    Pow2Add(up, 32 - up);
    var p, q, r := Pow2(up), Pow2(ashift), Pow2(32 - up);
    DivBounds(s[aptr], q, p);
    DivBounds(s[aptr], q, 0);
    var d := x % r;
    DivMod(x, r);
    OrDisjoint(s[aptr] / q, d, up);
    MulLe(p, d, r - 1);
    Distrib(p, r, 1);
    AcrossLimbs(x, s[aptr], Num(s[aptr + 2..]), p, q, r, d, Window(Num(s), i));
  }

  /** The table index of a digit, from five bits. */
  function IndexOf(bits: nat): nat {
    if bits < 16 then (15 - bits % 16) / 2 else bits % 16 / 2
  }

  /** The digit that five bits stand for. */
  function DigitOf(bits: nat): int {
    if bits < 16 then -(2 * IndexOf(bits) + 1) else 2 * IndexOf(bits) + 1
  }

  /** The sign and the table index of a digit, from five bits. */
  method Recode(bits: u32) returns (sign: u32, index: nat)
    requires bits < 32
    ensures sign == B.Mask(bits < 16)
    ensures index == IndexOf(bits)
  {
    Flip(bits, 0xFFFF_FFFF);
    assert bits / 16 == if bits < 16 then 0 else 1;
    sign := (bits / 16 + 0xFFFF_FFFF) % WORD32;
    index := And(Xor(bits, sign), 15) / 2;
  }

  lemma Low4(bits: nat)
    ensures And(bits, 15) == bits % 16
  {
    var n := 4;
    AndMask(bits, n);
  }

  /** Inverting all bits subtracts from the all-ones word. */
  lemma {:induction false} XorOnes(x: nat, n: nat)
    requires x < Pow2(n)
    ensures Xor(x, Pow2(n) - 1) == Pow2(n) - 1 - x
    decreases n
  {
    if n > 0 {
      HalveMask(Pow2(n - 1));
      XorOnes(x / 2, n - 1);
    }
  }

  lemma Flip(bits: u32, ones: nat)
    requires ones == 0xFFFF_FFFF
    ensures And(Xor(bits, 0), 15) == bits % 16
    ensures And(Xor(bits, ones), 15) == 15 - bits % 16
  {
    var n := B.Pow2At32();
    XorOnes(bits, n);
    assert Xor(bits, 0) == bits;
    Low4(bits);
    Low4(ones - bits);
    FlippedLow(bits, ones);
  }

  lemma FlippedLow(bits: u32, ones: nat)
    requires ones == 0xFFFF_FFFF
    ensures (ones - bits) % 16 == 15 - bits % 16
  {}

  /** The table index and the sign are those of the digit. */
  lemma RecodedDigit(a: nat, i: nat, bits: nat)
    requires bits == Window(a, i) % 32
    ensures bits < 32 && Digit(a, i) == DigitOf(bits)
  {
    WindowStep(a, i);
    FiveBits(Window(a, i + 1), Window(a, i) % 16, bits);
  }

  lemma FiveBits(w: nat, t: nat, bits: nat)
    requires t < 16 && bits == (16 * w + t) % 32
    ensures bits % 16 == t && (bits < 16 <==> w % 2 == 0)
  {
    var f := w % 2;
    DivMod(w, 2);
    DivModUnique(16 * w + t, w / 2, 16 * f + t, 32);
    DivModUnique(bits, f, t, 16);
  }

  /** The top window fits five bits. */
  method FirstBits(a: array<u32>) returns (bits: u32)
    requires B.Bn(a) && Num(a[..]) < 2 * TWO256
    ensures Num(a[..]) >= 0 && bits < 32 && bits == Window(Num(a[..]), 63) % 32
  {
    ValNonNegative(a[..], WORD30);
    var ashift := 12;
    bits := Shr32(a[8], ashift);
    Inside(a[..], 63, 8, ashift);
    TopBits(a[..], ashift);
  }

  lemma TopBits(s: seq<u32>, n: nat)
    requires |s| == 9 && Normalized(s, WORD30) && Num(s) < 2 * TWO256 && n == 12
    ensures Shr32(s[8], n) < 32
  {
    B.TopLimb(s);
    Shr32Value(s[8], n);
    Pow2Add(8, n - 8);
    Pow2Literals();
    assert Pow2(4) == 16;
  }
}
