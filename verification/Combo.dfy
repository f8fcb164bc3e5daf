/**
 The combo registers of the fast bn_inverse and the word loops that update them.
 Each method is tied to what it does to the two numbers the register holds.
 */
module Combos {
  import opened Words
  import opened Limbs
  import opened Arith
  import opened ComboSpec

  class Combo {
    const a: array<u32>
    var len1: int

    ghost predicate Valid()
      reads this, a
    {
      a.Length == 9 && 0 <= len1 <= 8
    }

    /** The number in the first len1 words: u or v. */
    ghost function First(): int
      requires Valid()
      reads this, a
    {
      ComboSpec.First(a[..], len1)
    }

    /** The number in the remaining words: s or r. */
    ghost function Second(): int
      requires Valid()
      reads this, a
    {
      ComboSpec.Second(a[..], len1)
    }

    /** The first number has no leading zero words. */
    ghost predicate Trimmed()
      requires Valid()
      reads this, a
    {
      0 < len1 && a[len1 - 1] != 0
    }

    constructor (words: array<u32>)
      requires words.Length == 9
      ensures Valid() && a == words && len1 == 8
    {
      a := words;
      len1 := 8;
    }

    /** Adjust the length: give leading zero words to the second number. */
    method AdjustLength()
      requires Valid() && First() > 0
      modifies this`len1
      ensures Valid() && Trimmed() && len1 <= old(len1)
      ensures First() == old(First()) && Second() == old(Second())
    {
      FirstPositive(a[..], len1);
      while a[len1 - 1] == 0
        invariant 0 < len1 <= old(len1)
        invariant First() == old(First()) && Second() == old(Second())
        decreases len1
      {
        Shrink(a[..], len1);
        FirstPositive(a[..], len1 - 1);
        len1 := len1 - 1;
      }
    }

    /** Divide the first number and multiply the second by 2^32. */
    method ShiftWord()
      requires Valid() && Trimmed() && a[0] == 0
      modifies this`len1, a
      ensures Valid() && Trimmed() && len1 == old(len1) - 1
      ensures old(First()) == 0x1_0000_0000 * First() && Second() == 0x1_0000_0000 * old(Second())
    {
      ghost var s, n := a[..], len1;
      var i := 0;
      while i < 8
        modifies a
        invariant 0 <= i <= 8
        invariant forall k :: 0 <= k < i ==> a[k] == s[k + 1]
        invariant forall k :: i <= k < 9 ==> a[k] == s[k]
      {
        a[i] := a[i + 1];
        i := i + 1;
      }
      a[i] := 0;
      assert a[..] == s[1..] + [0];
      WordShift(s, n);
      len1 := len1 - 1;
    }

    /** Divide the first number by 2^j, and give its top word away if it became zero. */
    method ShiftFirst(j: nat)
      requires Valid() && Trimmed() && 0 < j < 32 && a[0] % Pow2(j) == 0
      modifies this`len1, a
      ensures Valid() && Trimmed() && old(len1) - 1 <= len1 <= old(len1)
      ensures old(First()) == Pow2(j) * First() && Second() == old(Second())
    {
      ghost var s, n := a[..], len1;
      var i := 0;
      while i + 1 < len1
        modifies a
        invariant 0 <= i < len1
        invariant forall k :: 0 <= k < i ==> a[k] == ShrWord(s[k], s[k + 1], j)
        invariant forall k :: i <= k < 9 ==> a[k] == s[k]
      {
        a[i] := ShrWord(a[i], a[i + 1], j);
        i := i + 1;
      }
      a[i] := Shr32(a[i], j);
      ShiftedFirst(s, a[..], n, j);
      if a[i] == 0 {
        Shrink(a[..], len1);
        len1 := len1 - 1;
      }
    }

    /** Multiply the second number by 2^j. */
    method ShiftSecond(j: nat)
      requires Valid() && Trimmed() && 0 < j < 32
      requires Pow2(j) * Second() < Pow(0x1_0000_0000, 9 - len1)
      modifies a
      ensures Valid() && Trimmed()
      ensures First() == old(First()) && Second() == Pow2(j) * old(Second())
    {
      ghost var s, n := a[..], len1;
      var i := len1;
      while i < 8
        modifies a
        invariant n <= i <= 8
        invariant forall k :: n <= k < i ==> a[k] == ShlWord(s[k], s[k + 1], j)
        invariant forall k :: 0 <= k < n || i <= k < 9 ==> a[k] == s[k]
      {
        a[i] := ShlWord(a[i], a[i + 1], j);
        i := i + 1;
      }
      a[i] := Shl32(a[i], j);
      assert a[..n] == s[..n];
      ShiftedSecond(s[n..], a[n..], j);
    }
  }

  /** At the end of a shift nothing comes in. */
  lemma ShiftEnds(x: u32, j: nat)
    requires 0 < j < 32
    ensures Shr32(x, j) == ShrWord(x, 0, j) && Shl32(x, j) == ShlWord(x, 0, j)
  {
    Shr32Value(x, j);
    Shl32Value(x, j);
    DivModUnique(0, 0, 0, Pow2(j));
    DivModUnique(0, 0, 0, Pow2(32 - j));
  }

  lemma ShiftedFirst(s: seq<u32>, t: seq<u32>, n: int, j: nat)
    requires Shape(s, n) && Shape(t, n) && 0 < n <= 8 && s[n - 1] != 0
    requires 0 < j < 32 && s[0] % Pow2(j) == 0
    requires forall k :: 0 <= k < n - 1 ==> t[k] == ShrWord(s[k], s[k + 1], j)
    requires t[n - 1] == Shr32(s[n - 1], j)
    requires forall k :: n <= k < 9 ==> t[k] == s[k]
    ensures ComboSpec.First(s, n) == Pow2(j) * ComboSpec.First(t, n)
    ensures ComboSpec.Second(s, n) == ComboSpec.Second(t, n)
    ensures t[n - 1] == 0 ==> n > 1 && t[n - 2] != 0
  {
    ShiftEnds(s[n - 1], j);
    assert ShiftedRight(s[..n], t[..n], j);
    ShrValue(s[..n], t[..n], j);
    assert t[n..] == s[n..];
    if t[n - 1] == 0 {
      Shr32Value(s[n - 1], j);
      MovedDown(s, n, j);
    }
  }

  /** If the top word vanished, the low bits it had are in the word below. */
  lemma MovedDown(s: seq<u32>, n: int, j: nat)
    requires Shape(s, n) && 0 < n && 0 < j < 32 && s[n - 1] != 0 && s[n - 1] / Pow2(j) == 0
    requires s[0] % Pow2(j) == 0
    ensures n > 1 && ShrWord(s[n - 2], s[n - 1], j) != 0
  {
    var top, p, q := s[n - 1], Pow2(j), Pow2(32 - j);
    DivMod(top, p);
    if n == 1 { assert false; }
    MulPositive(top % p, q);
    DivBounds(s[n - 2], p, 0);
  }

  lemma ShiftedSecond(s: seq<u32>, t: seq<u32>, j: nat)
    requires |s| > 0 && |t| == |s| && 0 < j < 32
    requires Pow2(j) * BE(s) < Pow(0x1_0000_0000, |s|)
    requires forall k :: 0 <= k < |s| - 1 ==> t[k] == ShlWord(s[k], s[k + 1], j)
    requires t[|s| - 1] == Shl32(s[|s| - 1], j)
    ensures BE(t) == Pow2(j) * BE(s)
  {
    ShiftEnds(s[|s| - 1], j);
    assert ShiftedLeft(s, t, j);
    NoOverflow(s, t, j);
  }

  lemma NoOverflow(s: seq<u32>, t: seq<u32>, j: nat)
    requires |s| > 0 && 0 < j < 32 && ShiftedLeft(s, t, j)
    requires Pow2(j) * BE(s) < Pow(0x1_0000_0000, |s|)
    ensures BE(t) == Pow2(j) * BE(s)
  {
    ShlValue(s, t, j);
    BEBound(t);
    DivBounds(s[0], Pow2(32 - j), 0);
    NothingLeft(MovedOut(s, j), Pow(0x1_0000_0000, |s|), BE(t));
  }

  lemma NothingLeft(out: int, w: int, v: int)
    requires 0 <= out && 0 <= v && 0 < w && v + out * w < w
    ensures out == 0
  {
    if out >= 1 { MulLe(w, 1, out); assert false; }
  }

  lemma FirstPositive(s: seq<int>, n: int)
    requires Shape(s, n) && ComboSpec.First(s, n) > 0
    ensures n > 0
  {}

  lemma WordShift(s: seq<int>, n: int)
    requires Shape(s, n) && 0 < n && s[0] == 0 && s[n - 1] != 0
    ensures n > 1
    ensures var t := s[1..] + [0];
      && Shape(t, n - 1)
      && t[n - 2] != 0
      && ComboSpec.First(s, n) == 0x1_0000_0000 * ComboSpec.First(t, n - 1)
      && ComboSpec.Second(t, n - 1) == 0x1_0000_0000 * ComboSpec.Second(s, n)
  {
    var t := s[1..] + [0];
    assert s[..n][1..] == t[..n - 1];
    assert t[n - 1..] == s[n..] + [0];
    BESnoc(s[n..], 0);
  }

  // ------------------------------------------------------- compare, subtract, add

  /** Positive if u > v, zero if u = v, negative if u < v. */
  method Compare(us: Combo, vr: Combo) returns (cmp: int)
    requires us.Valid() && vr.Valid() && us.Trimmed() && vr.Trimmed()
    ensures cmp > 0 <==> us.First() > vr.First()
    ensures cmp == 0 <==> us.First() == vr.First()
    ensures cmp > 0 ==> vr.len1 <= us.len1
    ensures cmp < 0 ==> us.len1 <= vr.len1
  {
    ghost var s, t := us.a[..], vr.a[..];
    cmp := us.len1 - vr.len1;
    if cmp == 0 {
      var i := us.len1 - 1;
      while i >= 0 && us.a[i] == vr.a[i]
        invariant -1 <= i < us.len1
        invariant forall k :: i < k < us.len1 ==> s[k] == t[k]
      {
        i := i - 1;
      }
      if i == -1 {
        assert s[..us.len1] == t[..us.len1];
        return 0;
      }
      cmp := if us.a[i] > vr.a[i] then 1 else -1;
      if cmp > 0 { HighWordDecides(t, s, us.len1, i); } else { HighWordDecides(s, t, us.len1, i); }
    } else if cmp > 0 {
      LongerIsLarger(s, us.len1, t, vr.len1);
    } else {
      LongerIsLarger(t, vr.len1, s, us.len1);
    }
  }

  lemma LongerIsLarger(s: seq<int>, n: int, t: seq<int>, m: int)
    requires Shape(s, n) && Shape(t, m) && n > m && s[n - 1] != 0
    ensures ComboSpec.First(s, n) > ComboSpec.First(t, m)
  {
    Top(s, n);
    Ranges(t, m);
    PowMonotone(0x1_0000_0000, m, n - 1);
  }

  lemma HighWordDecides(s: seq<int>, t: seq<int>, n: int, i: nat)
    requires Shape(s, n) && Shape(t, n) && i < n && s[i] < t[i]
    requires forall k :: i < k < n ==> s[k] == t[k]
    ensures ComboSpec.First(s, n) < ComboSpec.First(t, n)
  {
    var x, y := s[..n], t[..n];
    ValSplit(x, i, 0x1_0000_0000);
    ValSplit(y, i, 0x1_0000_0000);
    ValBound(x[..i], 0x1_0000_0000);
    ValBound(y[..i], 0x1_0000_0000);
    assert x[i..][1..] == y[i..][1..];
    MulLe(Pow(0x1_0000_0000, i), LE(x[i..]) + 1, LE(y[i..]));
    Distrib(Pow(0x1_0000_0000, i), LE(x[i..]), 1);
  }

  lemma CarryOutLE(low: seq<int>, c: int, r: int)
    requires WordSeq(low) && 0 <= r < Pow(0x1_0000_0000, |low|) && LE(low + [c]) == r
    ensures c == 0 && LE(low) == r
  {
    ValSnoc(low, c, 0x1_0000_0000);
    ValBound(low, 0x1_0000_0000);
    SplitUnique(LE(low), c, r, 0, Pow(0x1_0000_0000, |low|));
  }

  /** One word of x - y, with the borrow kept one above its signed value. */
  lemma BorrowStep(low: seq<int>, c: int, x: seq<int>, y: seq<int>, d: int, q: int)
    requires |low| < |x| && |low| < |y|
    requires LE(low + [c]) == LE(x[..|low|]) - LE(y[..|low|])
    requires c + x[|low|] - y[|low|] == d + 0x1_0000_0000 * q
    ensures LE(low + [d] + [q]) == LE(x[..|low| + 1]) - LE(y[..|low| + 1])
  {
    var i := |low|;
    ValPrefix(x, i, 0x1_0000_0000);
    ValPrefix(y, i, 0x1_0000_0000);
    AddDigit(low, c, x[i] - y[i], d, q, 0x1_0000_0000);
    Distrib(Pow(0x1_0000_0000, i), x[i], y[i]);
  }

  /** a[..m] := a[..m] - b[..m], leaving the borrow. */
  method SubtractWords(a: array<u32>, b: array<u32>, m: nat) returns (temp: u64)
    requires a != b && m <= a.Length && m <= b.Length
    modifies a
    ensures temp <= 1 && forall k :: m <= k < a.Length ==> a[k] == old(a[k])
    ensures LE(a[..m] + [temp - 1]) == old(LE(a[..m])) - LE(b[..m])
  {
    ghost var s, y := a[..], b[..];
    temp := 1;
    ValSnoc([], 0, 0x1_0000_0000);
    assert a[..0] + [temp - 1] == [] + [0] && s[..0] == [] && y[..0] == [];
    var i := 0;
    while i < m
      invariant 0 <= i <= m && temp <= 1
      invariant forall k :: i <= k < a.Length ==> a[k] == s[k]
      invariant LE(a[..i] + [temp - 1]) == LE(s[..i]) - LE(y[..i])
    {
      ghost var low, c := a[..i], (temp as int) - 1;
      temp := temp + (0xFFFF_FFFF + (a[i] as u64) - b[i]);
      BorrowStep(low, c, s, y, temp % 0x1_0000_0000, temp / 0x1_0000_0000 - 1);
      a[i] := temp % 0x1_0000_0000;
      assert a[..i + 1] == low + [temp % 0x1_0000_0000];
      temp := temp / 0x1_0000_0000;
      i := i + 1;
    }
    assert s[..m] == old(a[..m]) && y[..m] == b[..m];
  }

  /** Carry a borrow on into the words from m to n. */
  method PropagateBorrow(a: array<u32>, m: nat, n: nat, borrow: u64) returns (temp: u64)
    requires m <= n <= a.Length && borrow <= 1
    modifies a
    ensures temp <= 1 && forall k :: n <= k < a.Length ==> a[k] == old(a[k])
    ensures LE(a[..n] + [temp - 1]) ==
            old(LE(a[..m] + [borrow - 1])) + old(LE(a[..n])) - old(LE(a[..m]))
  {
    ghost var s := a[..];
    temp := borrow;
    var i := m;
    assert s[..m] == a[..m];
    while i < n
      invariant m <= i <= n && temp <= 1
      invariant forall k :: i <= k < a.Length ==> a[k] == s[k]
      invariant LE(a[..i] + [temp - 1]) == LE(s[..m] + [borrow - 1]) + LE(s[..i]) - LE(s[..m])
    {
      ghost var low, c := a[..i], (temp as int) - 1;
      temp := temp + (0xFFFF_FFFF + (a[i] as u64));
      ValPrefix(s, i, 0x1_0000_0000);
      AddDigit(low, c, s[i], temp % 0x1_0000_0000, temp / 0x1_0000_0000 - 1, 0x1_0000_0000);
      a[i] := temp % 0x1_0000_0000;
      assert a[..i + 1] == low + [temp % 0x1_0000_0000];
      temp := temp / 0x1_0000_0000;
      i := i + 1;
    }
    assert s[..n] == old(a[..n]);
  }

  /** even.first := even.first - odd.first */
  method SubtractFirst(even: Combo, odd: Combo)
    requires even.Valid() && odd.Valid() && even.a != odd.a && odd.len1 <= even.len1
    requires odd.First() <= even.First()
    modifies even.a
    ensures even.Valid()
    ensures even.First() == old(even.First()) - odd.First()
    ensures even.Second() == old(even.Second())
  {
    ghost var s, n, m := even.a[..], even.len1, odd.len1;
    var temp := SubtractWords(even.a, odd.a, odd.len1);
    ghost var mid := even.a[..];
    assert mid[..m] == even.a[..m] && odd.a[..][..m] == odd.a[..m];
    temp := PropagateBorrow(even.a, odd.len1, even.len1, temp);
    SameHigh(s, mid, m, n);
    assert even.a[n..] == s[n..] && even.a[..][..n] == even.a[..n];
    Ranges(s, n);
    Ranges(odd.a[..], m);
    CarryOutLE(even.a[..n], (temp as int) - 1, LE(s[..n]) - LE(odd.a[..m]));
  }

  /** Two numbers with the same high words differ as their low words do. */
  lemma SameHigh(s: seq<int>, t: seq<int>, m: nat, n: nat)
    requires m <= n <= |s| == |t| && forall k :: m <= k < n ==> s[k] == t[k]
    ensures LE(s[..n]) - LE(s[..m]) == LE(t[..n]) - LE(t[..m])
  {
    ValSplit(s[..n], m, 0x1_0000_0000);
    ValSplit(t[..n], m, 0x1_0000_0000);
    assert s[..n][m..] == t[..n][m..] && s[..n][..m] == s[..m] && t[..n][..m] == t[..m];
  }

  /** Adding x at the next position of big-endian words: keep digit d, pass q on. */
  lemma AddDigitBE(s: seq<int>, c: int, x: int, d: int, q: int)
    requires c + x == d + 0x1_0000_0000 * q
    ensures BE([q] + ([d] + s)) == BE([c] + s) + Pow(0x1_0000_0000, |s|) * x
  {
    var w := Pow(0x1_0000_0000, |s|);
    BECons(d, s);
    BECons(q, [d] + s);
    BECons(c, s);
    assert Pow(0x1_0000_0000, |[d] + s|) == 0x1_0000_0000 * w;
    MoveUp(w, c, x, d, q);
  }

  lemma MoveUp(w: int, c: int, x: int, d: int, q: int)
    requires c + x == d + 0x1_0000_0000 * q
    ensures w * c + w * x == w * d + (0x1_0000_0000 * w) * q
  {
    MulEq(w, c + x, d + 0x1_0000_0000 * q);
    Distrib(w, c, x);
    Distrib(w, d, 0x1_0000_0000 * q);
    Assoc(w, 0x1_0000_0000, q);
  }

  lemma AddPairBE(low: seq<int>, c: int, s: seq<int>, y: seq<int>, i: nat, d: int, q: int)
    requires i < |s| == |y| && |low| == |s| - 1 - i
    requires BE([c] + low) == BE(s[i + 1..]) + BE(y[i + 1..])
    requires c + s[i] + y[i] == d + 0x1_0000_0000 * q
    ensures BE([q] + ([d] + low)) == BE(s[i..]) + BE(y[i..])
  {
    AddDigitBE(low, c, s[i] + y[i], d, q);
    BESuffix(s, i);
    BESuffix(y, i);
    Distrib(Pow(0x1_0000_0000, |low|), s[i], y[i]);
  }

  lemma CarryOutBE(s: seq<int>, c: int, r: int)
    requires WordSeq(s) && 0 <= r < Pow(0x1_0000_0000, |s|) && BE([c] + s) == r
    ensures c == 0 && BE(s) == r
  {
    BECons(c, s);
    BEBound(s);
    SplitUnique(BE(s), c, r, 0, Pow(0x1_0000_0000, |s|));
  }

  /** a[n..] := a[n..] + b[n..] in big-endian words, leaving the carry. */
  method AddWords(a: array<u32>, b: array<u32>, n: nat) returns (temp: u64)
    requires a != b && a.Length == b.Length == 9 && n <= 9
    modifies a
    ensures temp <= 1 && forall k :: 0 <= k < n ==> a[k] == old(a[k])
    ensures BE([temp as int] + a[n..]) == old(BE(a[n..])) + BE(b[n..])
  {
    ghost var s, y := a[..], b[..];
    temp := 0;
    var i := 8;
    BECons(0, []);
    assert a[9..] == [] && s[9..] == [] && y[9..] == [];
    while i >= n
      invariant n - 1 <= i <= 8 && temp <= 1
      invariant forall k :: 0 <= k <= i ==> a[k] == s[k]
      invariant BE([temp as int] + a[i + 1..]) == BE(s[i + 1..]) + BE(y[i + 1..])
    {
      ghost var rest, c: int := a[i + 1..], temp;
      temp := temp + (a[i] as u64) + b[i];
      AddPairBE(rest, c, s, y, i, temp % 0x1_0000_0000, temp / 0x1_0000_0000);
      a[i] := temp % 0x1_0000_0000;
      assert a[i..] == [temp % 0x1_0000_0000] + rest;
      temp := temp / 0x1_0000_0000;
      i := i - 1;
    }
    assert s[n..] == old(a[n..]) && y[n..] == b[n..];
  }

  /** Carry on into the words from n down to m. */
  method PropagateCarry(a: array<u32>, m: nat, n: nat, carry: u64) returns (temp: u64)
    requires m <= n <= a.Length == 9 && carry <= 1
    modifies a
    ensures temp <= 1 && forall k :: 0 <= k < m ==> a[k] == old(a[k])
    ensures BE([temp as int] + a[m..]) ==
            old(BE([carry as int] + a[n..])) + old(BE(a[m..])) - old(BE(a[n..]))
  {
    ghost var s := a[..];
    temp := carry;
    var i := n - 1;
    assert s[n..] == a[n..];
    while i >= m
      invariant m - 1 <= i <= n - 1 && temp <= 1
      invariant forall k :: 0 <= k <= i ==> a[k] == s[k]
      invariant BE([temp as int] + a[i + 1..]) == BE([carry as int] + s[n..]) + BE(s[i + 1..]) - BE(s[n..])
    {
      ghost var rest, c: int := a[i + 1..], temp;
      temp := temp + (a[i] as u64);
      AddDigitBE(rest, c, s[i], temp % 0x1_0000_0000, temp / 0x1_0000_0000);
      BESuffix(s, i);
      a[i] := temp % 0x1_0000_0000;
      assert a[i..] == [temp % 0x1_0000_0000] + rest;
      temp := temp / 0x1_0000_0000;
      i := i - 1;
    }
    assert s[m..] == old(a[m..]);
  }

  /** odd.second := odd.second + even.second */
  method AddSecond(odd: Combo, even: Combo)
    requires even.Valid() && odd.Valid() && even.a != odd.a && odd.len1 <= even.len1
    requires odd.Second() + even.Second() < Pow(0x1_0000_0000, 9 - odd.len1)
    modifies odd.a
    ensures odd.Valid() && odd.a[..odd.len1] == old(odd.a[..odd.len1])
    ensures odd.Second() == old(odd.Second()) + even.Second()
    ensures odd.First() == old(odd.First())
  {
    ghost var s, n, m := odd.a[..], even.len1, odd.len1;
    var temp := AddWords(odd.a, even.a, even.len1);
    ghost var mid := odd.a[..];
    assert mid[n..] == odd.a[n..] && even.a[..][n..] == even.a[n..];
    temp := PropagateCarry(odd.a, odd.len1, even.len1, temp);
    assert odd.a[..m] == s[..m] && odd.a[..][m..] == odd.a[m..];
    AddSecondDone(s, mid, odd.a[..], even.a[..], m, n, temp);
  }

  lemma AddSecondDone(s: seq<int>, mid: seq<int>, t: seq<int>, y: seq<int>, m: nat, n: nat, c: int)
    requires Shape(s, m) && Shape(t, m) && Shape(y, n) && |mid| == 9 && m <= n
    requires forall k :: m <= k < n ==> s[k] == mid[k]
    requires BE([c] + t[m..]) == BE(s[n..]) + BE(y[n..]) + BE(mid[m..]) - BE(mid[n..])
    requires BE(s[m..]) + BE(y[n..]) < Pow(0x1_0000_0000, 9 - m)
    ensures BE(t[m..]) == BE(s[m..]) + BE(y[n..])
  {
    SameLow(s, mid, m, n);
    BEBound(s[m..]);
    BEBound(y[n..]);
    CarryOutBE(t[m..], c, BE(s[m..]) + BE(y[n..]));
  }

  lemma {:induction false} SameLow(s: seq<int>, t: seq<int>, m: nat, n: nat)
    requires m <= n <= |s| == |t| && forall k :: m <= k < n ==> s[k] == t[k]
    ensures BE(s[m..]) - BE(s[n..]) == BE(t[m..]) - BE(t[n..])
    decreases n - m
  {
    if m < n {
      SameLow(s, t, m + 1, n);
      BESuffix(s, m);
      BESuffix(t, m);
    }
  }
}
