/**
 Positional numbers: the value of a little-endian sequence of digits in a given base.
 Digits need not be below the base; a sequence whose digits are is normalized.
 */
module Limbs {
  import opened Arith

  function Pow(b: nat, n: nat): (r: nat)
    ensures b > 0 ==> r > 0
  {
    if n == 0 then 1
    else if b == 0 then 0
    else MulPositive(b, Pow(b, n - 1)); b * Pow(b, n - 1)
  }

  function Val(s: seq<int>, b: nat): int
  {
    if |s| == 0 then 0 else s[0] + b * Val(s[1..], b)
  }

  predicate Normalized(s: seq<int>, b: nat)
  {
    forall i :: 0 <= i < |s| ==> 0 <= s[i] < b
  }

  lemma {:induction false} PowAdd(b: nat, m: nat, n: nat)
    ensures Pow(b, m + n) == Pow(b, m) * Pow(b, n)
  {
    if m > 0 {
      PowAdd(b, m - 1, n);
      assert b * (Pow(b, m - 1) * Pow(b, n)) == (b * Pow(b, m - 1)) * Pow(b, n);
    }
  }

  lemma {:induction false} PowMonotone(b: nat, m: nat, n: nat)
    requires b > 0 && m <= n
    ensures Pow(b, m) <= Pow(b, n)
    decreases n - m
  {
    if m < n {
      PowMonotone(b, m, n - 1);
    }
  }

  /** Splitting a number after its first |s| digits. */
  lemma {:induction false} ValConcat(s: seq<int>, t: seq<int>, b: nat)
    ensures Val(s + t, b) == Val(s, b) + Pow(b, |s|) * Val(t, b)
  {
    if |s| == 0 {
      assert s + t == t;
    } else {
      assert (s + t)[1..] == s[1..] + t;
      ValConcat(s[1..], t, b);
      var p, v := Pow(b, |s| - 1), Val(t, b);
      assert b * (Val(s[1..], b) + p * v) == b * Val(s[1..], b) + (b * p) * v;
    }
  }

  lemma ValSplit(s: seq<int>, i: nat, b: nat)
    requires i <= |s|
    ensures Val(s, b) == Val(s[..i], b) + Pow(b, i) * Val(s[i..], b)
  {
    assert s == s[..i] + s[i..];
    ValConcat(s[..i], s[i..], b);
  }

  lemma ValSnoc(s: seq<int>, d: int, b: nat)
    ensures Val(s + [d], b) == Val(s, b) + Pow(b, |s|) * d
  {
    assert [d][1..] == [];
    assert Val([d], b) == d + b * Val([], b);
    ValConcat(s, [d], b);
  }

  lemma CarryParts(low: seq<int>, d: int, q: int, b: nat)
    ensures Val(low + [d] + [q], b) == Val(low + [d + b * q], b)
  {
    var w := Pow(b, |low|);
    ValSnoc(low, d + b * q, b);
    ValSnoc(low, d, b);
    ValSnoc(low + [d], q, b);
    Distrib(w, d, b * q);
    Assoc(w, b, q);
  }

  /** Adding x at the next position: keep digit d, pass q on. */
  lemma AddDigit(low: seq<int>, c: int, x: int, d: int, q: int, b: nat)
    requires c + x == d + b * q
    ensures Val(low + [d] + [q], b) == Val(low + [c], b) + Pow(b, |low|) * x
  {
    CarryParts(low, d, q, b);
    ValSnoc(low, c, b);
    ValSnoc(low, d + b * q, b);
    Distrib(Pow(b, |low|), c, x);
  }

  /** Splitting a carry: keep a digit, pass the quotient to the next position. */
  lemma CarryStep(low: seq<int>, c: int, t: int, b: nat)
    requires b > 0
    ensures Val(low + [t % b] + [t / b], b) == Val(low + [c], b) + Pow(b, |low|) * (t - c)
  {
    var d, q := t % b, t / b;
    assert low + [d + b * q] == low + [t] by { DivMod(t, b); }
    CarryParts(low, d, q, b);
    ValSnoc(low, c, b);
    ValSnoc(low, t, b);
    Distrib(Pow(b, |low|), t, c);
  }

  /** Extending a prefix by its next digit. */
  lemma ValPrefix(s: seq<int>, i: nat, b: nat)
    requires i < |s|
    ensures Val(s[..i + 1], b) == Val(s[..i], b) + Pow(b, i) * s[i]
  {
    assert s[..i + 1] == s[..i] + [s[i]];
    ValSnoc(s[..i], s[i], b);
  }

  lemma {:induction false} ValBound(s: seq<int>, b: nat)
    requires b > 0 && Normalized(s, b)
    ensures 0 <= Val(s, b) < Pow(b, |s|)
  {
    if |s| > 0 {
      ValBound(s[1..], b);
      var v, p := Val(s[1..], b), Pow(b, |s| - 1);
      MulLe(b, v, p - 1);
      Distrib(b, p, 1);
      MulNonNegative(b, v);
    }
  }

  lemma {:induction false} ValNonNegative(s: seq<int>, b: nat)
    requires forall i :: 0 <= i < |s| ==> 0 <= s[i]
    ensures 0 <= Val(s, b)
  {
    if |s| > 0 { ValNonNegative(s[1..], b); }
  }

  /** A normalized number determines its digits. */
  lemma {:induction false} ValInjective(s: seq<int>, t: seq<int>, b: nat)
    requires b > 0 && Normalized(s, b) && Normalized(t, b) && |s| == |t|
    requires Val(s, b) == Val(t, b)
    ensures s == t
  {
    if |s| > 0 {
      var x, y := Val(s[1..], b), Val(t[1..], b);
      SplitUnique(s[0], x, t[0], y, b);
      ValInjective(s[1..], t[1..], b);
      assert s == [s[0]] + s[1..] && t == [t[0]] + t[1..];
    }
  }

  lemma {:induction false} ValZeros(s: seq<int>, b: nat)
    requires forall i :: 0 <= i < |s| ==> s[i] == 0
    ensures Val(s, b) == 0
  {
    if |s| > 0 { ValZeros(s[1..], b); }
  }

  lemma ValTrailingZeros(s: seq<int>, n: nat, b: nat)
    requires n <= |s| && forall i :: n <= i < |s| ==> s[i] == 0
    ensures Val(s, b) == Val(s[..n], b)
  {
    ValSplit(s, n, b);
    ValZeros(s[n..], b);
  }

  /** The digits from position n on are all zero when the value is below b^n. */
  lemma {:induction false} HighDigitsZero(s: seq<int>, n: nat, b: nat)
    requires b > 0 && Normalized(s, b) && n <= |s|
    requires Val(s, b) < Pow(b, n)
    ensures forall i :: n <= i < |s| ==> s[i] == 0
    decreases n
  {
    ValSplit(s, n, b);
    ValBound(s[..n], b);
    ValBound(s[n..], b);
    var hi := Val(s[n..], b);
    if hi >= 1 { MulLe(Pow(b, n), 1, hi); assert false; }
    assert hi == 0;
    ZeroValue(s[n..], b);
    forall i | n <= i < |s| ensures s[i] == 0 { assert s[i] == s[n..][i - n]; }
  }

  lemma {:induction false} ZeroValue(s: seq<int>, b: nat)
    requires b > 0 && Normalized(s, b) && Val(s, b) == 0
    ensures forall i :: 0 <= i < |s| ==> s[i] == 0
  {
    if |s| > 0 {
      ValBound(s[1..], b);
      var v := Val(s[1..], b);
      if v >= 1 { MulLe(b, 1, v); assert false; }
      ZeroValue(s[1..], b);
      forall i | 0 <= i < |s| ensures s[i] == 0 {
        if i > 0 { assert s[i] == s[1..][i - 1]; }
      }
    }
  }

  lemma {:induction false} ValAdd(s: seq<int>, t: seq<int>, u: seq<int>, b: nat)
    requires |s| == |t| == |u| && forall i :: 0 <= i < |s| ==> u[i] == s[i] + t[i]
    ensures Val(u, b) == Val(s, b) + Val(t, b)
  {
    if |s| > 0 {
      ValAdd(s[1..], t[1..], u[1..], b);
      Distrib(b, Val(s[1..], b), Val(t[1..], b));
    }
  }

  lemma {:induction false} ValScale(s: seq<int>, k: int, u: seq<int>, b: nat)
    requires |s| == |u| && forall i :: 0 <= i < |s| ==> u[i] == k * s[i]
    ensures Val(u, b) == k * Val(s, b)
  {
    if |s| > 0 {
      var v := Val(s[1..], b);
      ValScale(s[1..], k, u[1..], b);
      Distrib(k, s[0], b * v);
      Assoc(k, b, v);
      Assoc(b, k, v);
    }
  }
}
