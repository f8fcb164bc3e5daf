/** Parts of a product: the columns from some position on, and digits moved by some bits. */
module ModmColumns {
  import opened Arith
  import opened Words
  import opened Limbs
  import opened BignumSpec
  import B = Bignum

  /** The columns a..i-1, carried into place relative to column a. */
  ghost function High(k: seq<int>, x: seq<int>, a: nat, i: nat): int {
    if i <= a then 0 else High(k, x, a, i - 1) + Pow(WORD30, i - 1 - a) * B.Column(k, x, i - 1, 0)
  }

  lemma {:induction false} HighSplit(k: seq<int>, x: seq<int>, a: nat, i: nat)
    requires a <= i
    ensures B.Columns(k, x, 0, i) == B.Columns(k, x, 0, a) + Pow(WORD30, a) * High(k, x, a, i)
  {
    if a < i {
      HighSplit(k, x, a, i - 1);
      PowAdd(WORD30, a, i - 1 - a);
      Distrib(Pow(WORD30, a), High(k, x, a, i - 1), Pow(WORD30, i - 1 - a) * B.Column(k, x, i - 1, 0));
      Assoc(Pow(WORD30, a), Pow(WORD30, i - 1 - a), B.Column(k, x, i - 1, 0));
    }
  }

  /** The last column adds t - c on top. */
  lemma HighTop(low: seq<int>, k: seq<int>, x: seq<int>, a: nat, c: int, t: int)
    requires Num(low + [c]) == High(k, x, a, a + |low|) && t == c + B.Column(k, x, a + |low|, 0)
    ensures Num(low + [t]) == High(k, x, a, a + |low| + 1)
  {
    ValSnoc(low, c, WORD30);
    ValSnoc(low, t, WORD30);
    Distrib(Pow(WORD30, |low|), c, B.Column(k, x, a + |low|, 0));
  }

  /** A finished column: its low 30 bits are a digit, the rest is carried. */
  lemma HighDone(low: seq<int>, k: seq<int>, x: seq<int>, a: nat, c: int, t: int)
    requires Num(low + [c]) == High(k, x, a, a + |low|) && t == c + B.Column(k, x, a + |low|, 0)
    ensures Num(low + [t % WORD30] + [t / WORD30]) == High(k, x, a, a + |low| + 1)
  {
    HighTop(low, k, x, a, c, t);
    CarryStep(low, t, t, WORD30);
    assert Pow(WORD30, |low|) * (t - t) == 0;
  }

  lemma {:induction false} ColumnBound(k: seq<int>, x: seq<int>, i: int, j: nat)
    requires |k| == |x| == 9 && Normalized(k, WORD30) && Normalized(x, WORD30) && j <= 9
    ensures 0 <= B.Column(k, x, i, j) <= (9 - j) * (WORD30 * WORD30)
    decreases 9 - j
  {
    if j < 9 {
      ColumnBound(k, x, i, j + 1);
      if 0 <= i - j < 9 {
        MulLe2(k[j], x[i - j], WORD30, WORD30);
        MulNonNegative(k[j], x[i - j]);
      }
    }
  }

  /** The columns below n are small beside what column n stands for. */
  lemma {:induction false} ColumnsBound(k: seq<int>, x: seq<int>, n: nat)
    requires |k| == |x| == 9 && Normalized(k, WORD30) && Normalized(x, WORD30)
    ensures 0 <= B.Columns(k, x, 0, n) <= 18 * Pow(WORD30, n + 1)
  {
    if n > 0 {
      ColumnsBound(k, x, n - 1);
      ColumnBound(k, x, n - 1, 0);
      var p, c := Pow(WORD30, n - 1), B.Column(k, x, n - 1, 0);
      MulLe(p, c, 9 * (WORD30 * WORD30));
      MulNonNegative(p, c);
      Growth(p, Pow(WORD30, n), Pow(WORD30, n + 1));
    }
  }

  lemma Growth(p: int, q: int, r: int)
    requires p >= 0 && q == WORD30 * p && r == WORD30 * q
    ensures 18 * q + p * (9 * (WORD30 * WORD30)) <= 18 * r
  {}

  // ------------------------------------------------------------ moving digits by some bits

  /** Each digit's high part, with the low part of the next digit above it. */
  function Shifted(d: seq<int>, p: nat, q: nat): (s: seq<int>)
    requires |d| > 0 && p > 0
    ensures |s| == |d|
  {
    if |d| == 1 then [d[0] / p] else [d[0] / p + q * (d[1] % p)] + Shifted(d[1..], p, q)
  }

  lemma {:induction false} ShiftedNum(d: seq<int>, p: nat, q: nat)
    requires |d| > 0 && p > 0 && p * q == WORD30
    ensures Num(Shifted(d, p, q)) == Num(d) / p
  {
    if |d| == 1 {
      assert Num(d) == d[0] + WORD30 * Num(d[1..]) && Num(d[1..]) == 0;
      assert Num([d[0] / p]) == d[0] / p + WORD30 * Num([d[0] / p][1..]);
    } else {
      ShiftedNum(d[1..], p, q);
      var r, s := Num(d[1..]), Shifted(d, p, q);
      assert s[1..] == Shifted(d[1..], p, q);
      assert d[1..][0] == d[1];
      FirstDigit(d[1..], p, q);
      ShiftOne(d[0], r, p, q);
    }
  }

  /** Only the first digit matters modulo a divisor of the base. */
  lemma FirstDigit(d: seq<int>, p: nat, q: nat)
    requires |d| > 0 && p > 0 && p * q == WORD30
    ensures Num(d) % p == d[0] % p
  {
    var r := Num(d[1..]);
    DivMod(d[0], p);
    Assoc(p, q, r);
    Distrib(p, d[0] / p, q * r);
    DivModUnique(Num(d), d[0] / p + q * r, d[0] % p, p);
  }

  lemma ShiftOne(d: int, r: int, p: nat, q: nat)
    requires p > 0 && p * q == WORD30
    ensures d / p + q * (r % p) + WORD30 * (r / p) == (d + WORD30 * r) / p
  {
    DivMod(d, p);
    DivMod(r, p);
    Assoc(p, q, r);
    Distrib(p, d / p, q * r);
    DivModUnique(d + WORD30 * r, d / p + q * r, d % p, p);
    Distrib(q, r % p, p * (r / p));
    Assoc(q, p, r / p);
  }

  /** One more digit completes the last one's high part. */
  lemma {:induction false} ShiftedSnoc(d: seq<int>, f: int, p: nat, q: nat)
    requires |d| > 0 && p > 0
    ensures var n := |d| - 1; var s := Shifted(d, p, q);
            s[n] == d[n] / p && Shifted(d + [f], p, q) == s[..n] + [s[n] + q * (f % p), f / p]
  {
    if |d| == 1 {
      assert (d + [f])[1..] == [f];
    } else {
      ShiftedSnoc(d[1..], f, p, q);
      assert (d + [f])[1..] == d[1..] + [f];
      assert Shifted(d, p, q)[1..] == Shifted(d[1..], p, q);
    }
  }

  lemma ShiftedSingle(f: int, p: nat, q: nat)
    requires p > 0
    ensures Shifted([f], p, q) == [f / p]
  {}
}
