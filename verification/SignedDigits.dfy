/** Numbers with signed binary digits, and the steps that a sliding window takes on them. */
module SignedDigits {
  import opened Arith
  import opened Words
  import opened Limbs
  import opened Powers

  /** The number of the digits from position i on. */
  function From(s: seq<int>, i: nat): int {
    if i < |s| then Val(s[i..], 2) else 0
  }

  lemma FromStep(s: seq<int>, i: nat)
    requires i < |s|
    ensures From(s, i) == s[i] + 2 * From(s, i + 1)
  {
    assert s[i..][1..] == s[i + 1..];
    if i + 1 == |s| { assert Val(s[i + 1..], 2) == 0; }
  }

  /** A digit changes the number by its weight. */
  lemma {:induction false} ValUpdate(s: seq<int>, i: nat, d: int, b: nat)
    requires i < |s|
    ensures Val(s[i := d], b) == Val(s, b) + Pow(b, i) * (d - s[i])
  {
    if i == 0 {
      assert s[0 := d][1..] == s[1..];
    } else {
      assert s[i := d][1..] == s[1..][i - 1 := d];
      ValUpdate(s[1..], i - 1, d, b);
      Assoc(b, Pow(b, i - 1), d - s[i]);
      Distrib(b, Val(s[1..], b), Pow(b, i - 1) * (d - s[i]));
    }
  }

  predicate Bits(s: seq<int>, i: nat) {
    forall k :: i <= k < |s| ==> s[k] == 0 || s[k] == 1
  }

  predicate Zeros(s: seq<int>, i: nat, j: nat) {
    forall k :: i <= k < j && k < |s| ==> s[k] == 0
  }

  lemma {:induction false} BitsBound(s: seq<int>, i: nat)
    requires i <= |s| && Bits(s, i)
    ensures 0 <= From(s, i) < Two(|s| - i)
    decreases |s| - i
  {
    if i < |s| {
      BitsBound(s, i + 1);
      FromStep(s, i);
      TwoDouble(|s| - i - 1);
    } else {
      TwoMeans(0);
    }
  }

  /** Zero digits in front only scale what follows. */
  lemma {:induction false} FromZeros(s: seq<int>, i: nat, j: nat)
    requires i <= j <= |s| && Zeros(s, i, j)
    ensures From(s, i) == Two(j - i) * From(s, j)
    decreases j - i
  {
    if i < j {
      FromZeros(s, i + 1, j);
      FromStep(s, i);
      TwoDouble(j - i - 1);
      Assoc(2, Two(j - i - 1), From(s, j));
    } else {
      TwoMeans(0);
    }
  }

  /** A digit of a window: odd and at most m in magnitude. */
  predicate WindowDigit(d: int, m: int) {
    d == 0 || (d % 2 == 1 && -m <= d <= m)
  }

  /** What is left from position i on stays clear of the top digit. */
  ghost function Clear(s: seq<int>, i: nat, strict: bool): Verdict {
    if i < |s| ==> From(s, i) <= Two(|s| - 1 - i) && (strict ==> From(s, i) < Two(|s| - 1 - i)) then Holds else Fails
  }

  /** Past the digit at i: a one leaves strictly less. */
  lemma ClearStep(s: seq<int>, i: nat, strict: bool)
    requires i < |s| && (s[i] == 0 || s[i] == 1) && Clear(s, i, strict).Holds?
    ensures Clear(s, i + 1, strict || s[i] == 1).Holds?
  {
    FromStep(s, i);
    if i + 1 < |s| { TwoDouble(|s| - 2 - i); }
  }

  lemma ClearSame(s: seq<int>, t: seq<int>, i: nat, strict: bool)
    requires |s| == |t| && Clear(s, i, strict).Holds? && forall k :: i <= k < |s| ==> t[k] == s[k]
    ensures Clear(t, i, strict).Holds?
  {
    if i < |s| { assert t[i..] == s[i..]; }
  }

  /** The digits below j are done, those from j on are bits, and the number is kept. */
  ghost predicate Done(s: seq<int>, j: nat, m: int, total: int) {
    && Val(s, 2) == total && Bits(s, j) && Clear(s, j, false).Holds?
    && forall k :: 0 <= k < j && k < |s| ==> WindowDigit(s[k], m)
  }

  /** Digits up to j, then zeros up to i, then bits. */
  ghost predicate Shape(s: seq<int>, j: nat, i: nat, m: int) {
    && j < i <= |s| && Bits(s, i) && Zeros(s, j + 1, i)
    && s[j] != 0 && forall k :: 0 <= k <= j ==> WindowDigit(s[k], m)
  }

  /** Digit j is being collected; the bits before position i are already in it. */
  ghost predicate Collecting(s: seq<int>, j: nat, i: nat, m: int, total: int) {
    Shape(s, j, i, m) && s[j] < Two(i - j) && Val(s, 2) == total && Clear(s, i, s[j] > 0).Holds?
  }

  lemma StartCollecting(s: seq<int>, j: nat, m: int, total: int)
    requires Done(s, j, m, total) && j < |s| && s[j] != 0 && m >= 1
    ensures Collecting(s, j, j + 1, m, total)
  {
    ClearStep(s, j, false);
    TwoMeans(1);
    assert Pow(2, 1) == 2;
  }

  lemma StopCollecting(s: seq<int>, j: nat, i: nat, m: int, total: int)
    requires Collecting(s, j, i, m, total)
    ensures Done(s, j + 1, m, total)
  {
    assert Clear(s, j + 1, false).Holds? by {
      FromZeros(s, j + 1, i);
      if i < |s| {
        TwoAdd(i - j - 1, |s| - 1 - i);
        MulLe(Two(i - j - 1), From(s, i), Two(|s| - 1 - i));
      } else if j + 1 < |s| {
        TwoMeans(|s| - 2 - j);
        assert Two(i - j - 1) * 0 == 0;
      }
    }
  }

  lemma SkipZero(s: seq<int>, j: nat, m: int, total: int)
    requires Done(s, j, m, total) && j < |s| && s[j] == 0
    ensures Done(s, j + 1, m, total)
  {
    ClearStep(s, j, false);
  }

  /** A zero bit is passed over. */
  lemma PassZero(s: seq<int>, j: nat, i: nat, m: int, total: int)
    requires Collecting(s, j, i, m, total) && i < |s| && s[i] == 0
    ensures Collecting(s, j, i + 1, m, total)
  {
    ClearStep(s, i, s[j] > 0);
    TwoDouble(i - j);
  }

  /** Digit j may change by an even number, and bit i become 0. */
  lemma ShapeKept(s: seq<int>, j: nat, i: nat, m: int, t: seq<int>)
    requires Shape(s, j, i, m) && i < |s| == |t| && (forall k :: 0 <= k < i && k != j ==> t[k] == s[k])
    requires Bits(t, i) && t[i] == 0 && t[j] % 2 == 1 && -m <= t[j] <= m
    ensures Shape(t, j, i + 1, m)
  {}

  /** The change that raising or lowering a digit by p makes. */
  lemma Weight(s: seq<int>, i: nat, d: int, p: int, q: int)
    requires i < |s| && q == Two(i) * p
    ensures d - s[i] == p ==> Val(s[i := d], 2) == Val(s, 2) + q
    ensures s[i] - d == p ==> Val(s[i := d], 2) == Val(s, 2) - q
  {
    ValUpdate(s, i, d, 2);
    TwoMeans(i);
    var a, x := Pow(2, i), d - s[i];
    if x == p { MulEq(a, x, p); }
    if x == -p { assert a * x == -(a * p); }
  }

  /** The bit at i moves into digit j, where it weighs p = 2^(i - j). */
  lemma AbsorbValue(s: seq<int>, j: nat, i: nat, p: int, d: int)
    requires j < i < |s| && s[i] == 1 && d == s[j] + p && p == Two(i - j)
    ensures Val(s[j := d][i := 0], 2) == Val(s, 2)
  {
    TwoAdd(j, i - j);
    Weight(s, j, d, p, Two(i));
    Weight(s[j := d], i, 0, 1, Two(i));
  }

  lemma OddAround(d: int, n: nat)
    requires d % 2 == 1 && n >= 1
    ensures (d + Two(n)) % 2 == 1 && (d - Two(n)) % 2 == 1
  {
    TwoDouble(n - 1);
  }

  lemma Absorb(s: seq<int>, j: nat, i: nat, m: int, total: int, d: int, t: seq<int>)
    requires Collecting(s, j, i, m, total) && i < |s| && s[i] == 1
    requires d == s[j] + Two(i - j) && d <= m && t == s[j := d][i := 0]
    ensures Collecting(t, j, i + 1, m, total)
  {
    assert Shape(t, j, i + 1, m) by { OddAround(s[j], i - j); ShapeKept(s, j, i, m, t); }
    assert Val(t, 2) == total by { AbsorbValue(s, j, i, Two(i - j), d); }
    assert Clear(t, i + 1, true).Holds? by { ClearStep(s, i, s[j] > 0); ClearSame(s, t, i + 1, true); }
    assert d < Two(i + 1 - j) by { TwoDouble(i - j); }
  }

  /** Only a positive digit is made smaller. */
  lemma PositiveDigit(d: int, p: int, m: int)
    requires d + p > m && d - p >= -m
    ensures d > 0
  {}

  /** There is room for a carry above a positive digit. */
  lemma RoomForCarry(s: seq<int>, j: nat, i: nat, m: int, total: int)
    requires Collecting(s, j, i, m, total) && i < |s| && s[j] > 0
    ensures From(s, i) + 1 < Two(|s| - i)
  {
    TwoDouble(|s| - 1 - i);
  }

  /** t has d at position j and one more from position i on. */
  ghost predicate Borrowed(s: seq<int>, j: nat, i: nat, d: int, t: seq<int>) {
    && j < i < |s| == |t| && (forall k :: 0 <= k < i && k != j ==> t[k] == s[k]) && t[j] == d
    && Bits(t, i) && From(t, i) == From(s, i) + 1
  }

  lemma BorrowValue(s: seq<int>, j: nat, i: nat, p: int, d: int, t: seq<int>)
    requires Borrowed(s, j, i, d, t) && d == s[j] - p && p == Two(i - j)
    ensures Val(t, 2) == Val(s, 2)
  {
    var q, f := Two(i), From(s, i);
    var low, high := Val(s[..i], 2), Val(t[..i], 2);
    assert high == low - q by {
      TwoAdd(j, i - j);
      assert t[..i] == s[..i][j := d];
      Weight(s[..i], j, d, p, q);
    }
    assert Val(s, 2) == low + q * f by { SplitSum(s, i, low, q, f); }
    assert Val(t, 2) == high + q * (f + 1) by { SplitSum(t, i, high, q, f + 1); }
    Distrib(q, f, 1);
  }

  lemma SplitSum(s: seq<int>, i: nat, low: int, q: int, f: int)
    requires i < |s| && low == Val(s[..i], 2) && q == Two(i) && f == From(s, i)
    ensures Val(s, 2) == low + q * f
  {
    TwoMeans(i);
    ValSplit(s, i, 2);
  }

  /** The bit at i is made up for by taking it from digit j and adding one above. */
  lemma Borrow(s: seq<int>, j: nat, i: nat, m: int, total: int, d: int, t: seq<int>)
    requires Collecting(s, j, i, m, total) && i < |s| && s[i] == 1
    requires s[j] > 0 && d == s[j] - Two(i - j) && d >= -m && Borrowed(s, j, i, d, t)
    ensures t[i] == 0 && Collecting(t, j, i + 1, m, total)
  {
    assert t[i] == 0 by { FromStep(s, i); FromStep(t, i); }
    assert Shape(t, j, i + 1, m) by { OddAround(s[j], i - j); ShapeKept(s, j, i, m, t); }
    assert Val(t, 2) == total by { BorrowValue(s, j, i, Two(i - j), d, t); }
    assert Clear(t, i + 1, false).Holds? by { BorrowClear(s, i, t); }
  }

  lemma BorrowClear(s: seq<int>, i: nat, t: seq<int>)
    requires i < |s| == |t| && t[i] == 0 && From(t, i) == From(s, i) + 1 && Clear(s, i, true).Holds?
    ensures Clear(t, i + 1, false).Holds?
  {
    FromStep(t, i);
    if i + 1 < |s| { TwoDouble(|s| - 2 - i); }
  }
}
