/** What the checksum guarantees: it can be completed, and it detects any short burst of errors. */
module Checksum {
  import opened Arith
  import opened Words
  import opened Limbs
  import opened BigEndian
  import opened Polymod

  /** The registers: one symbol wider than what stays when a symbol is shifted out. */
  function Size(k: Code): nat {
    32 * Low(k)
  }

  lemma SizeIsPower(k: Code, n: nat)
    requires n == if k.Bech32? then 30 else 40
    ensures Size(k) == Pow2(n)
  {
    LowIsPower(k, n - 5);
    Pow2Add(5, n - 5);
    assert Pow2(5) == 32;
  }

  lemma TapRange(k: Code, b: nat, i: nat)
    requires i < 5
    ensures Tap(k, b, i) < Size(k)
  {}

  lemma StepRange(k: Code, x: nat)
    ensures Step(k, x) < Size(k)
  {
    var n, b := if k.Bech32? then 30 else 40, x / Low(k);
    SizeIsPower(k, n);
    TapRange(k, b, 0);
    TapRange(k, b, 1);
    TapRange(k, b, 2);
    TapRange(k, b, 3);
    TapRange(k, b, 4);
    var t0, t1, t2, t3, t4 := Tap(k, b, 0), Tap(k, b, 1), Tap(k, b, 2), Tap(k, b, 3), Tap(k, b, 4);
    XorBelow(t0, t1, n);
    XorBelow(Xor(t0, t1), t2, n);
    XorBelow(Xor(Xor(t0, t1), t2), t3, n);
    XorBelow(Xor(Xor(Xor(t0, t1), t2), t3), t4, n);
    XorBelow(32 * (x % Low(k)), Feedback(k, b), n);
  }

  /** Only 0 is taken to 0. */
  lemma StepInjective(k: Code, x: nat)
    requires x < Size(k) && Step(k, x) == 0
    ensures x == 0
  {
    var p := Low(k);
    var b, l := x / p, x % p;
    assert x == p * b + l && 0 <= b < 32 by { DivMod(x, p); DivBounds(x, p, 32); DivBounds(x, p, 0); }
    XorZero(32 * l, Feedback(k, b));
    FeedbackZero(k, b);
    NoFeedback(k);
  }

  // ------------------------------------------------------------ runs of symbols

  predicate Symbols(s: seq<nat>) {
    forall i :: 0 <= i < |s| ==> s[i] < 32
  }

  /** The register after the symbols. */
  function Run(k: Code, chk: nat, s: seq<nat>): nat {
    if |s| == 0 then chk else Xor(Step(k, Run(k, chk, s[..|s| - 1])), s[|s| - 1])
  }

  lemma RunSnoc(k: Code, chk: nat, s: seq<nat>, v: nat)
    ensures Run(k, chk, s + [v]) == Xor(Step(k, Run(k, chk, s)), v)
  {
    assert (s + [v])[..|s|] == s;
  }

  lemma {:induction false} RunConcat(k: Code, chk: nat, s: seq<nat>, t: seq<nat>)
    ensures Run(k, chk, s + t) == Run(k, Run(k, chk, s), t)
  {
    if |t| == 0 {
      assert s + t == s;
    } else {
      var n := |t| - 1;
      RunConcat(k, chk, s, t[..n]);
      assert s + t == (s + t[..n]) + [t[n]];
      RunSnoc(k, chk, s + t[..n], t[n]);
    }
  }

  ghost function RegisterIn(depth: nat, k: Code, s: seq<nat>): nat {
    if depth > 0 then RegisterIn(depth - 1, k, s) else Run(k, 1, s)
  }

  /** The register that a string starts from 1 and has after the symbols; folded (see Arith). */
  ghost function Register(k: Code, s: seq<nat>): nat {
    RegisterIn(FOLDS, k, s)
  }

  lemma {:induction false} RegisterInMeans(depth: nat, k: Code, s: seq<nat>)
    ensures RegisterIn(depth, k, s) == Run(k, 1, s)
  {
    if depth > 0 { RegisterInMeans(depth - 1, k, s); }
  }

  lemma RegisterMeans(k: Code, s: seq<nat>)
    ensures Register(k, s) == Run(k, 1, s)
  {
    RegisterInMeans(FOLDS, k, s);
  }

  lemma {:induction false} RunRange(k: Code, chk: nat, s: seq<nat>)
    requires chk < Size(k) && Symbols(s)
    ensures Run(k, chk, s) < Size(k)
  {
    if |s| > 0 {
      var n := if k.Bech32? then 30 else 40;
      SizeIsPower(k, n);
      StepRange(k, Run(k, chk, s[..|s| - 1]));
      assert Size(k) >= 32;
      XorBelow(Step(k, Run(k, chk, s[..|s| - 1])), s[|s| - 1], n);
    }
  }

  function Difference(s: seq<nat>, t: seq<nat>): (d: seq<nat>)
    requires |s| == |t|
    ensures |d| == |s| && forall i :: 0 <= i < |d| ==> d[i] == Xor(s[i], t[i])
  {
    seq(|s|, i requires 0 <= i < |s| && |s| == |t| => Xor(s[i], t[i]))
  }

  /** Runs are linear in the register and the symbols. */
  lemma {:induction false} RunLinear(k: Code, a: nat, s: seq<nat>, b: nat, t: seq<nat>)
    requires |s| == |t|
    ensures Run(k, Xor(a, b), Difference(s, t)) == Xor(Run(k, a, s), Run(k, b, t))
  {
    if |s| > 0 {
      var n, d := |s| - 1, Difference(s, t);
      RunLinear(k, a, s[..n], b, t[..n]);
      assert d[..n] == Difference(s[..n], t[..n]);
      var x, y := Run(k, a, s[..n]), Run(k, b, t[..n]);
      StepLinear(k, x, y);
      XorExchange(Step(k, x), s[n], Step(k, y), t[n]);
    }
  }

  function Zeros(n: nat): (s: seq<nat>)
    ensures |s| == n && forall i :: 0 <= i < n ==> s[i] == 0
  {
    seq(n, _ => 0)
  }

  /** Zero symbols take only 0 to 0. */
  lemma {:induction false} RunZeros(k: Code, x: nat, s: seq<nat>)
    requires x < Size(k) && s == Zeros(|s|)
    ensures Run(k, x, s) == 0 <==> x == 0
  {
    if |s| > 0 {
      var n := |s| - 1;
      var y := Run(k, x, s[..n]);
      RunZeros(k, x, s[..n]);
      RunRange(k, x, s[..n]);
      assert Xor(Step(k, y), 0) == Step(k, y);
      StepSmall(k, 0);
      if Step(k, y) == 0 { StepInjective(k, y); }
    }
  }

  lemma {:induction false} LowPower(k: Code, n: nat)
    requires n < Count(k)
    ensures Pow(32, n) <= Low(k)
  {
    PowMonotone(32, n, Count(k) - 1);
    FifthPower(5);
  }

  lemma FifthPower(n: nat)
    requires n == 5
    ensures Pow(32, n) == 0x200_0000 && Pow(32, n + 2) == 0x8_0000_0000
  {}

  /** The first symbols of a run fill the register, as a number in base 32. */
  lemma {:induction false} RunFromZero(k: Code, s: seq<nat>)
    requires |s| <= Count(k) && Symbols(s)
    ensures Run(k, 0, s) == Big(s, 32)
  {
    if |s| > 0 {
      var n := |s| - 1;
      RunFromZero(k, s[..n]);
      BigBound(s[..n], 32);
      LowPower(k, n);
      StepSmall(k, Big(s[..n], 32));
      XorSymbol(Big(s[..n], 32), s[n]);
    }
  }

  /** The checksum of a register: what makes the run end in 1. */
  ghost predicate Completes(k: Code, chk: nat, c: seq<nat>) {
    Symbols(c) && |c| == Count(k) && Big(c, 32) == Xor(Run(k, chk, Zeros(Count(k))), 1)
  }

  lemma CompletedRun(k: Code, chk: nat, c: seq<nat>)
    requires Completes(k, chk, c)
    ensures Run(k, chk, c) == 1
  {
    var z := Zeros(Count(k));
    RunLinear(k, chk, z, 0, c);
    assert Difference(z, c) == c by { assert forall i :: 0 <= i < |c| ==> Xor(0, c[i]) == c[i]; }
    assert Xor(chk, 0) == chk;
    RunFromZero(k, c);
    XorTwice(Run(k, chk, z), 1);
  }

  lemma OneFits(k: Code)
    ensures 1 < Size(k)
  {}

  lemma CountPower(k: Code, n: nat)
    requires n == Count(k)
    ensures Pow(32, n) == Size(k)
  {
    FifthPower(5);
    assert Pow(32, n) == 32 * Pow(32, n - 1);
  }

  /** n digits in base 32, most significant first. */
  function FixedDigits(v: nat, n: nat): (s: seq<nat>)
    requires v < Pow(32, n)
    ensures |s| == n && Symbols(s) && Big(s, 32) == v
    decreases v, n
  {
    if n == 0 then []
    else
      DivBounds(v, 32, Pow(32, n - 1));
      DivMod(v, 32);
      BigSnoc(FixedDigits(v / 32, n - 1), v % 32, 32);
      FixedDigits(v / 32, n - 1) + [v % 32]
  }

  /** What the register becomes after as many zeros as a checksum has, with the last bit flipped, fits. */
  lemma ChecksumFits(k: Code, s: seq<nat>)
    requires Symbols(s)
    ensures Xor(Register(k, s + Zeros(Count(k))), 1) < Pow(32, Count(k))
  {
    var z, n := s + Zeros(Count(k)), if k.Bech32? then 30 else 40;
    OneFits(k);
    RegisterMeans(k, z);
    RunRange(k, 1, z);
    SizeIsPower(k, n);
    XorBelow(Register(k, z), 1, n);
    CountPower(k, Count(k));
  }

  /** The symbols that make the register end in 1. */
  ghost function ChecksumOf(k: Code, s: seq<nat>): (c: seq<nat>)
    requires Symbols(s)
    ensures Symbols(c) && |c| == Count(k) && Register(k, s + c) == 1
  {
    ChecksumFits(k, s);
    var c := FixedDigits(Xor(Register(k, s + Zeros(Count(k))), 1), Count(k));
    ChecksumCompletes(k, s, c);
    c
  }

  lemma ChecksumCompletes(k: Code, s: seq<nat>, c: seq<nat>)
    requires Symbols(s) && Symbols(c) && |c| == Count(k) && Big(c, 32) == Xor(Register(k, s + Zeros(Count(k))), 1)
    ensures Register(k, s + c) == 1
  {
    var z := Zeros(Count(k));
    RegisterMeans(k, s + z);
    RegisterMeans(k, s + c);
    RunConcat(k, 1, s, z);
    RunConcat(k, 1, s, c);
    CompletedRun(k, Run(k, 1, s), c);
  }

  /**
   Two symbol strings that differ only inside a window as long as the checksum cannot both
   be accepted, whatever register they start from.
   */
  lemma BurstDetected(k: Code, chk: nat, s: seq<nat>, t: seq<nat>, i: nat)
    requires |s| == |t| && Symbols(s) && Symbols(t)
    requires forall j :: 0 <= j < |s| && !(i <= j < i + Count(k)) ==> s[j] == t[j]
    requires Run(k, chk, s) == 1 && Run(k, chk, t) == 1
    ensures s == t
  {
    var d := Difference(s, t);
    RunLinear(k, chk, s, chk, t);
    XorSelf(chk);
    XorSelf(1);
    forall j | 0 <= j < |s| && !(i <= j < i + Count(k)) ensures d[j] == 0 { XorSelf(s[j]); }
    forall j | 0 <= j < |s| ensures d[j] < 32 { var n := 5; assert Pow2(n) == 32; XorBelow(s[j], t[j], n); }
    BurstIsZero(k, d, i);
    forall j | 0 <= j < |s| ensures s[j] == t[j] { XorZero(s[j], t[j]); }
  }

  lemma BurstIsZero(k: Code, d: seq<nat>, i: nat)
    requires Symbols(d) && Run(k, 0, d) == 0
    requires forall j :: 0 <= j < |d| && !(i <= j < i + Count(k)) ==> d[j] == 0
    ensures forall j :: 0 <= j < |d| ==> d[j] == 0
  {
    var a := if i <= |d| then i else |d|;
    var b := if i + Count(k) <= |d| then i + Count(k) else |d|;
    ThreeParts(d, a, b);
    WindowIsZero(k, d[..a], d[a..b], d[b..]);
    forall j | 0 <= j < |d| ensures d[j] == 0 { if a <= j < b { assert d[j] == d[a..b][j - a]; } }
  }

  lemma ThreeParts(d: seq<nat>, a: nat, b: nat)
    requires a <= b <= |d|
    ensures (d[..a] + d[a..b]) + d[b..] == d
  {
    assert d[..a] + d[a..b] == d[..b];
  }

  lemma WindowIsZero(k: Code, p: seq<nat>, w: seq<nat>, q: seq<nat>)
    requires Symbols(w) && |w| <= Count(k) && Run(k, 0, (p + w) + q) == 0
    requires (forall j :: 0 <= j < |p| ==> p[j] == 0) && forall j :: 0 <= j < |q| ==> q[j] == 0
    ensures forall j :: 0 <= j < |w| ==> w[j] == 0
  {
    RunConcat(k, 0, p + w, q);
    RunConcat(k, 0, p, w);
    assert p == Zeros(|p|) && q == Zeros(|q|);
    assert Size(k) > 0;
    RunZeros(k, 0, p);
    RunFromZero(k, w);
    RunRange(k, 0, w);
    RunZeros(k, Big(w, 32), q);
    AllZero(w);
  }

  lemma {:induction false} AllZero(w: seq<nat>)
    requires Symbols(w) && Big(w, 32) == 0
    ensures forall j :: 0 <= j < |w| ==> w[j] == 0
  {
    if |w| > 0 {
      BigBound(w[..|w| - 1], 32);
      AllZero(w[..|w| - 1]);
      forall j | 0 <= j < |w| ensures w[j] == 0 { if j < |w| - 1 { assert w[j] == w[..|w| - 1][j]; } }
    }
  }
}
