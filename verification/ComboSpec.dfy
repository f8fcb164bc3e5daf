/**
 Two numbers in one array of nine 32-bit words: the first `n` words hold one number,
 least significant word first; the remaining words hold the other, most significant
 word first.  As the first number shrinks the second may grow into the words it frees.
 */
module ComboSpec {
  import opened Words
  import opened Limbs
  import opened Arith

  /** Little-endian words. */
  function LE(s: seq<int>): int {
    Val(s, 0x1_0000_0000)
  }

  /** Big-endian words. */
  function BE(s: seq<int>): int {
    if |s| == 0 then 0 else 0x1_0000_0000 * BE(s[..|s| - 1]) + s[|s| - 1]
  }

  predicate WordSeq(s: seq<int>) {
    Normalized(s, 0x1_0000_0000)
  }

  lemma BESnoc(s: seq<int>, d: int)
    ensures BE(s + [d]) == 0x1_0000_0000 * BE(s) + d
  {
    assert (s + [d])[..|s|] == s;
  }

  lemma {:induction false} BECons(c: int, s: seq<int>)
    ensures BE([c] + s) == Pow(0x1_0000_0000, |s|) * c + BE(s)
  {
    if |s| == 0 {
      assert [c] + s == [] + [c];
      BESnoc([], c);
    } else {
      var t, d := s[..|s| - 1], s[|s| - 1];
      BECons(c, t);
      assert [c] + s == ([c] + t) + [d];
      BESnoc([c] + t, d);
      Assoc(0x1_0000_0000, Pow(0x1_0000_0000, |t|), c);
    }
  }

  lemma BESuffix(s: seq<int>, i: nat)
    requires i < |s|
    ensures BE(s[i..]) == Pow(0x1_0000_0000, |s| - 1 - i) * s[i] + BE(s[i + 1..])
  {
    assert s[i..] == [s[i]] + s[i + 1..];
    BECons(s[i], s[i + 1..]);
  }

  lemma {:induction false} BEBound(s: seq<int>)
    requires WordSeq(s)
    ensures 0 <= BE(s) < Pow(0x1_0000_0000, |s|)
  {
    if |s| > 0 { BEBound(s[..|s| - 1]); }
  }

  // ---------------------------------------------------------------- bit shifts

  /** (lo >> j) | (hi << (32 - j)) */
  function ShrWord(lo: u32, hi: u32, j: nat): (r: u32)
    requires 0 < j < 32
    ensures r == lo / Pow2(j) + Pow2(32 - j) * (hi % Pow2(j))
  {
    ShiftedWord(lo, hi, j);
    Or(Shr32(lo, j), Shl32(hi, 32 - j))
  }

  /** (hi << j) | (lo >> (32 - j)) */
  function ShlWord(hi: u32, lo: u32, j: nat): (r: u32)
    requires 0 < j < 32
    ensures r == lo / Pow2(32 - j) + Pow2(j) * (hi % Pow2(32 - j))
  {
    ShiftedWord(lo, hi, 32 - j);
    Or(Shl32(hi, j), Shr32(lo, 32 - j))
  }

  lemma ShiftedWord(lo: u32, hi: u32, j: nat)
    requires 0 < j < 32
    ensures var r := lo / Pow2(j) + Pow2(32 - j) * (hi % Pow2(j));
      Or(Shr32(lo, j), Shl32(hi, 32 - j)) == Or(Shl32(hi, 32 - j), Shr32(lo, j)) == r && 0 <= r < 0x1_0000_0000
  {
    var p, q := Pow2(j), Pow2(32 - j);
    Pow2Literals();
    Pow2Add(j, 32 - j);
    Shr32Value(lo, j);
    Shl32Value(hi, 32 - j);
    DivBounds(lo, p, q);
    DivBounds(lo, p, 0);
    DivMod(hi, p);
    MulLe(q, hi % p, p - 1);
    Distrib(q, p, 1);
    MulNonNegative(q, hi % p);
    OrDisjoint(lo / p, hi % p, 32 - j);
  }

  /** 2^j and 2^(32 - j) multiply to the word size. */
  lemma ShiftFactors(j: nat)
    requires 0 < j < 32
    ensures Pow2(j) * Pow2(32 - j) == 0x1_0000_0000
    ensures Pow2(j) >= 2 && Pow2(32 - j) >= 2
  {
    Pow2Literals();
    Pow2Add(j, 32 - j);
  }

  /** The word after word k. */
  function Next(s: seq<u32>, k: nat): u32 {
    if k + 1 < |s| then s[k + 1] else 0
  }

  /** All words shifted right: the low bits of each move into the word below. */
  predicate ShiftedRight(s: seq<u32>, t: seq<u32>, j: nat)
    requires 0 < j < 32
  {
    |t| == |s| && forall k :: 0 <= k < |s| ==> t[k] == ShrWord(s[k], Next(s, k), j)
  }

  lemma TailRight(s: seq<u32>, t: seq<u32>, j: nat)
    requires 0 < j < 32 && ShiftedRight(s, t, j) && |s| > 0
    ensures ShiftedRight(s[1..], t[1..], j)
    ensures t[0] == ShrWord(s[0], if |s| == 1 then 0 else s[1], j)
  {
    forall k | 0 <= k < |s| - 1 ensures t[1..][k] == ShrWord(s[1..][k], Next(s[1..], k), j) {
      assert t[1..][k] == t[k + 1] && Next(s[1..], k) == Next(s, k + 1);
    }
    assert t[0] == ShrWord(s[0], Next(s, 0), j);
  }

  lemma {:induction false} ShrValue(s: seq<u32>, t: seq<u32>, j: nat)
    requires 0 < j < 32 && ShiftedRight(s, t, j)
    ensures LE(s) == Pow2(j) * LE(t) + (if |s| == 0 then 0 else s[0] % Pow2(j))
  {
    if |s| > 0 {
      TailRight(s, t, j);
      ShrValue(s[1..], t[1..], j);
      var p, q, v := Pow2(j), Pow2(32 - j), LE(t[1..]);
      var next := if |s| == 1 then 0 else s[1];
      DivModUnique(0, 0, 0, p);
      var carry := next % p;
      ShiftFactors(j);
      ShrCarry(LE(s), LE(t), s[0], t[0], p, q, carry, LE(s[1..]), v);
    }
  }

  lemma ShrCarry(s: int, t: int, x: int, y: int, p: int, q: int, carry: int, rest: int, v: int)
    requires 0 < p && p * q == 0x1_0000_0000
    requires s == x + 0x1_0000_0000 * rest && rest == p * v + carry
    requires t == y + 0x1_0000_0000 * v && y == x / p + q * carry
    ensures s == p * t + x % p
  {
    DivMod(x, p);
    Distrib(p, y, 0x1_0000_0000 * v);
    Distrib(p, x / p, q * carry);
    Assoc(p, q, carry);
    Assoc(p, 0x1_0000_0000, v);
    Assoc(0x1_0000_0000, p, v);
  }

  /** All words shifted left: what leaves a word enters the word before it. */
  predicate ShiftedLeft(s: seq<u32>, t: seq<u32>, j: nat)
    requires 0 < j < 32
  {
    |t| == |s| && forall k :: 0 <= k < |s| ==> t[k] == ShlWord(s[k], Next(s, k), j)
  }

  lemma TailLeft(s: seq<u32>, t: seq<u32>, j: nat)
    requires 0 < j < 32 && ShiftedLeft(s, t, j) && |s| > 0
    ensures ShiftedLeft(s[1..], t[1..], j)
    ensures t[0] == ShlWord(s[0], if |s| == 1 then 0 else s[1], j)
  {
    forall k | 0 <= k < |s| - 1 ensures t[1..][k] == ShlWord(s[1..][k], Next(s[1..], k), j) {
      assert t[1..][k] == t[k + 1] && Next(s[1..], k) == Next(s, k + 1);
    }
    assert t[0] == ShlWord(s[0], Next(s, 0), j);
  }

  /** What a left shift moves out of the first word. */
  function MovedOut(s: seq<u32>, j: nat): int
    requires j <= 32
  {
    if |s| == 0 then 0 else s[0] / Pow2(32 - j)
  }

  lemma {:induction false} ShlValue(s: seq<u32>, t: seq<u32>, j: nat)
    requires 0 < j < 32 && ShiftedLeft(s, t, j)
    ensures Pow2(j) * BE(s) == BE(t) + MovedOut(s, j) * Pow(0x1_0000_0000, |s|)
  {
    if |s| > 0 {
      TailLeft(s, t, j);
      ShlValue(s[1..], t[1..], j);
      ShiftFactors(j);
      DivModUnique(0, 0, 0, Pow2(32 - j));
      ShlStep(s, t, Pow2(j), Pow2(32 - j), MovedOut(s[1..], j));
    }
  }

  lemma ShlStep(s: seq<int>, t: seq<int>, p: int, q: int, carry: int)
    requires |s| == |t| > 0 && 0 < q && p * q == 0x1_0000_0000
    requires p * BE(s[1..]) == BE(t[1..]) + carry * Pow(0x1_0000_0000, |s| - 1)
    requires t[0] == carry + p * (s[0] % q)
    ensures p * BE(s) == BE(t) + (s[0] / q) * Pow(0x1_0000_0000, |s|)
  {
    var w := Pow(0x1_0000_0000, |s| - 1);
    BESuffix(s, 0);
    BESuffix(t, 0);
    assert s[0..] == s && t[0..] == t;
    ShlCarry(BE(s), BE(t), s[0], t[0], p, q, carry, w, BE(s[1..]), BE(t[1..]));
  }

  lemma ShlCarry(s: int, t: int, x: int, y: int, p: int, q: int, carry: int, w: int, rest: int, rest': int)
    requires 0 < q && p * q == 0x1_0000_0000
    requires s == w * x + rest && p * rest == rest' + carry * w
    requires t == w * y + rest' && y == carry + p * (x % q)
    ensures p * s == t + (x / q) * (0x1_0000_0000 * w)
  {
    var h, l := x / q, x % q;
    DivMod(x, q);
    MulEq(p, x, q * h + l);
    Distrib(p, q * h, l);
    Assoc(p, q, h);
    assert p * x == 0x1_0000_0000 * h + p * l;
    MulEq(p, s, w * x + rest);
    Distrib(p, w * x, rest);
    Assoc(p, w, x);
    Assoc(w, p, x);
    MulEq(w, p * x, 0x1_0000_0000 * h + p * l);
    Distrib(w, 0x1_0000_0000 * h, p * l);
    Assoc(w, 0x1_0000_0000, h);
    MulEq(w, y, carry + p * l);
    Distrib(w, carry, p * l);
  }

  // ------------------------------------------------------------- the two numbers

  predicate Shape(s: seq<int>, n: int) {
    |s| == 9 && WordSeq(s) && 0 <= n <= 9
  }

  function First(s: seq<int>, n: int): int
    requires Shape(s, n)
  {
    LE(s[..n])
  }

  function Second(s: seq<int>, n: int): int
    requires Shape(s, n)
  {
    BE(s[n..])
  }

  lemma Ranges(s: seq<int>, n: int)
    requires Shape(s, n)
    ensures 0 <= First(s, n) < Pow(0x1_0000_0000, n)
    ensures 0 <= Second(s, n) < Pow(0x1_0000_0000, 9 - n)
  {
    ValBound(s[..n], 0x1_0000_0000);
    BEBound(s[n..]);
  }

  /** A zero word on the boundary belongs to either part. */
  lemma Shrink(s: seq<int>, n: int)
    requires Shape(s, n) && n > 0 && s[n - 1] == 0
    ensures First(s, n - 1) == First(s, n)
    ensures Second(s, n - 1) == Second(s, n)
  {
    ValPrefix(s, n - 1, 0x1_0000_0000);
    BESuffix(s, n - 1);
  }

  /** The first word is the low word of the first part. */
  lemma LowWord(s: seq<int>, n: int)
    requires Shape(s, n) && n > 0
    ensures First(s, n) % 0x1_0000_0000 == s[0]
    ensures First(s, n) % 2 == s[0] % 2
  {
    var t := s[..n];
    assert LE(t) == s[0] + 0x1_0000_0000 * LE(t[1..]);
    DivModUnique(LE(t), LE(t[1..]), s[0], 0x1_0000_0000);
    ParityOfWord(LE(t[1..]), s[0]);
  }

  lemma ParityOfWord(x: int, d: int)
    ensures (0x1_0000_0000 * x + d) % 2 == d % 2
  {
    DivModUnique(0x1_0000_0000 * x + d, 0x8000_0000 * x + d / 2, d % 2, 2);
  }

  /** The last word is the low word of the second part. */
  lemma LowWordBE(s: seq<int>, n: int)
    requires Shape(s, n) && n < 9
    ensures Second(s, n) % 0x1_0000_0000 == s[8]
    ensures Second(s, n) % 2 == s[8] % 2
  {
    var t, d := s[n..8], s[8];
    assert s[n..] == t + [d];
    BESnoc(t, d);
    DivModUnique(BE(s[n..]), BE(t), d, 0x1_0000_0000);
    ParityOfWord(BE(t), d);
  }

  /** A first part with a nonzero top word is at least 2^(32 (n - 1)). */
  lemma Top(s: seq<int>, n: int)
    requires Shape(s, n) && n > 0 && s[n - 1] != 0
    ensures First(s, n) >= Pow(0x1_0000_0000, n - 1)
  {
    ValPrefix(s, n - 1, 0x1_0000_0000);
    ValBound(s[..n - 1], 0x1_0000_0000);
    MulLe(Pow(0x1_0000_0000, n - 1), 1, s[n - 1]);
  }

  /** First times second bounded by 2^256: the second part leaves a free word. */
  lemma Room(n: int, first: int, second: int, p: int)
    requires 0 < n <= 9 && 0 <= second
    requires first >= Pow(0x1_0000_0000, n - 1)
    requires first * second <= p < Pow(0x1_0000_0000, 8)
    ensures second < Pow(0x1_0000_0000, 9 - n)
  {
    var w := Pow(0x1_0000_0000, n - 1);
    PowAdd(0x1_0000_0000, n - 1, 9 - n);
    if second >= Pow(0x1_0000_0000, 9 - n) {
      MulLe2(w, Pow(0x1_0000_0000, 9 - n), first, second);
      assert false;
    }
  }
}
