/** Positional numbers, most significant digit first. */
module BigEndian {
  import opened Arith
  import opened Limbs

  function Big(s: seq<int>, b: nat): int {
    if |s| == 0 then 0 else b * Big(s[..|s| - 1], b) + s[|s| - 1]
  }

  lemma BigSnoc(s: seq<int>, d: int, b: nat)
    ensures Big(s + [d], b) == b * Big(s, b) + d
  {
    assert (s + [d])[..|s|] == s;
  }

  /** Extending a prefix by its next digit. */
  lemma BigPrefix(s: seq<int>, i: nat, b: nat)
    requires i < |s|
    ensures Big(s[..i + 1], b) == b * Big(s[..i], b) + s[i]
  {
    assert s[..i + 1] == s[..i] + [s[i]];
    BigSnoc(s[..i], s[i], b);
  }

  lemma {:induction false} BigCons(d: int, s: seq<int>, b: nat)
    ensures Big([d] + s, b) == Pow(b, |s|) * d + Big(s, b)
  {
    if |s| == 0 {
      BigSingle(d, b);
      assert [d] + s == [d];
    } else {
      var t, l := s[..|s| - 1], s[|s| - 1];
      var u := [d] + t;
      BigCons(d, t, b);
      BigSnoc(u, l, b);
      assert [d] + s == u + [l];
      PowStep(b, |t|);
      ConsStep(b, Pow(b, |t|), Pow(b, |s|), d, l, Big(t, b), Big(u, b), Big(u + [l], b), Big(s, b));
    }
  }

  lemma BigSingle(d: int, b: nat)
    ensures Big([d], b) == d
  {
    assert [] + [d] == [d];
    BigSnoc([], d, b);
  }

  lemma ConsStep(b: int, p: int, p': int, d: int, l: int, v: int, w: int, x: int, y: int)
    requires p' == b * p && w == p * d + v && x == b * w + l && y == b * v + l
    ensures x == p' * d + y
  {
    Distrib(b, p * d, v);
    Assoc(b, p, d);
  }

  lemma PowStep(b: nat, n: nat)
    ensures Pow(b, n + 1) == b * Pow(b, n)
  {}

  lemma BigSuffix(s: seq<int>, i: nat, b: nat)
    requires i < |s|
    ensures Big(s[i..], b) == Pow(b, |s| - 1 - i) * s[i] + Big(s[i + 1..], b)
  {
    assert s[i..] == [s[i]] + s[i + 1..];
    BigCons(s[i], s[i + 1..], b);
  }

  lemma {:induction false} BigBound(s: seq<int>, b: nat)
    requires b > 0 && Normalized(s, b)
    ensures 0 <= Big(s, b) < Pow(b, |s|)
  {
    if |s| > 0 {
      var t := s[..|s| - 1];
      BigBound(t, b);
      MulLe(b, Big(t, b), Pow(b, |t|) - 1);
      Distrib(b, Pow(b, |t|), 1);
      MulNonNegative(b, Big(t, b));
      PowStep(b, |t|);
    }
  }

  /** A number with a nonzero first digit is at least the power of that position. */
  lemma BigFirst(s: seq<int>, b: nat)
    requires b > 0 && Normalized(s, b) && |s| > 0 && s[0] != 0
    ensures Big(s, b) >= Pow(b, |s| - 1)
  {
    BigSuffix(s, 0, b);
    assert s[0..] == s;
    BigBound(s[1..], b);
    MulLe(Pow(b, |s| - 1), 1, s[0]);
  }

  lemma {:induction false} BigZeros(s: seq<int>, b: nat)
    requires forall i :: 0 <= i < |s| ==> s[i] == 0
    ensures Big(s, b) == 0
  {
    if |s| > 0 { BigZeros(s[..|s| - 1], b); }
  }

  /** Leading zeros do not count. */
  lemma {:induction false} BigDropZeros(s: seq<int>, n: nat, b: nat)
    requires n <= |s| && forall i :: 0 <= i < n ==> s[i] == 0
    ensures Big(s[n..], b) == Big(s, b)
  {
    if n == |s| {
      BigZeros(s, b);
    } else {
      var l := s[|s| - 1];
      BigDropZeros(s[..|s| - 1], n, b);
      assert s[..|s| - 1][n..] == s[n..][..|s| - n - 1];
    }
  }

  /** Digits below the base are determined by their number and their count. */
  lemma {:induction false} BigInjective(s: seq<int>, t: seq<int>, b: nat)
    requires b > 0 && Normalized(s, b) && Normalized(t, b) && |s| == |t| && Big(s, b) == Big(t, b)
    ensures s == t
  {
    if |s| > 0 {
      var s', t', k := s[..|s| - 1], t[..|t| - 1], |s| - 1;
      SplitUnique(s[k], Big(s', b), t[k], Big(t', b), b);
      BigInjective(s', t', b);
      assert s == s' + [s[k]] && t == t' + [t[k]];
    }
  }

  /** How many times x occurs at the beginning. */
  function Leading(s: seq<int>, x: int): (n: nat)
    ensures n <= |s| && (forall i :: 0 <= i < n ==> s[i] == x) && (n < |s| ==> s[n] != x)
  {
    if |s| == 0 || s[0] != x then 0 else 1 + Leading(s[1..], x)
  }

  lemma LeadingUnique(s: seq<int>, x: int, n: nat)
    requires n <= |s| && (forall i :: 0 <= i < n ==> s[i] == x) && (n < |s| ==> s[n] != x)
    ensures Leading(s, x) == n
  {}

  /** A number without leading zeros has exactly one length. */
  lemma StrippedLength(s: seq<int>, t: seq<int>, b: nat)
    requires b > 0 && Normalized(s, b) && Normalized(t, b) && Big(s, b) == Big(t, b)
    requires (|s| > 0 ==> s[0] != 0) && (|t| > 0 ==> t[0] != 0)
    ensures |s| == |t|
  {
    BigBound(s, b);
    BigBound(t, b);
    if |s| > 0 { BigFirst(s, b); }
    if |t| > 0 { BigFirst(t, b); }
    if |s| < |t| { PowMonotone(b, |s|, |t| - 1); assert false; }
    if |t| < |s| { PowMonotone(b, |t|, |s| - 1); assert false; }
  }

  /** The number and the count of leading zeros determine all digits. */
  lemma DigitsUnique(s: seq<int>, t: seq<int>, b: nat)
    requires b > 0 && Normalized(s, b) && Normalized(t, b) && Big(s, b) == Big(t, b) && Leading(s, 0) == Leading(t, 0)
    ensures s == t
  {
    var n := Leading(s, 0);
    BigDropZeros(s, n, b);
    BigDropZeros(t, n, b);
    StrippedLength(s[n..], t[n..], b);
    BigInjective(s, t, b);
  }

  /**
   One step of s := m s + a from the last digit on: t are the digits already replaced,
   c the carry out of them.
   */
  lemma MulAddStep(s: seq<int>, j: nat, t: seq<int>, m: int, a: int, c: int, d: int, c': int, b: nat)
    requires j < |s| && |t| == |s| - 1 - j && m * s[j] + c == d + b * c'
    requires Pow(b, |t|) * c + Big(t, b) == m * Big(s[j + 1..], b) + a
    ensures Pow(b, |t| + 1) * c' + Big([d] + t, b) == m * Big(s[j..], b) + a
  {
    var p := Pow(b, |t|);
    BigSuffix(s, j, b);
    BigCons(d, t, b);
    PowStep(b, |t|);
    Distrib(m, p * s[j], Big(s[j + 1..], b));
    Assoc(m, p, s[j]);
    Assoc(p, m, s[j]);
    MulEq(p, m * s[j] + c, d + b * c');
    Distrib(p, m * s[j], c);
    Distrib(p, d, b * c');
    Assoc(p, b, c');
  }

  /** The same step, the carry being a digit in front. */
  lemma CarryMoved(s: seq<int>, j: nat, t: seq<int>, m: int, a: int, c: int, d: int, c': int, b: nat)
    requires j < |s| && |t| == |s| - 1 - j && m * s[j] + c == d + b * c'
    requires Big([c] + t, b) == m * Big(s[j + 1..], b) + a
    ensures Big([c'] + ([d] + t), b) == m * Big(s[j..], b) + a
  {
    BigCons(c, t, b);
    MulAddStep(s, j, t, m, a, c, d, c', b);
    BigCons(c', [d] + t, b);
  }

  lemma ZeroInFront(t: seq<int>, b: nat)
    ensures Big([0] + t, b) == Big(t, b)
  {
    BigCons(0, t, b);
  }

  /** The number only grows when digits are appended. */
  lemma BigGrows(s: seq<int>, n: nat, b: nat)
    requires b > 0 && Normalized(s, b) && n <= |s|
    ensures Big(s[..n], b) <= Big(s, b)
    decreases |s| - n
  {
    if n < |s| {
      BigGrows(s, n + 1, b);
      BigPrefix(s, n, b);
      BigBound(s[..n], b);
      var v := Big(s[..n], b);
      assert v <= b * v by { MulLe(v, 1, b); }
    } else {
      assert s[..n] == s;
    }
  }
}
