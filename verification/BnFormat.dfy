/** bn_divmod1000, bn_digitcount and bn_format. */
module BnFormat {
  import opened Arith
  import opened Words
  import opened Limbs
  import opened DecimalSpec
  import B = Bignum

  // ------------------------------------------------------------ division by 1000

  /** 2^30 = 1073741 * 1000 + 824 */
  lemma LimbStep(rem: int, a: int, t: int)
    requires 0 <= rem < 1000 && 0 <= a < WORD30 && t == rem * 824 + a
    ensures t < WORD32 && rem * 1073741 + t / 1000 < WORD30
    ensures rem * WORD30 + a == 1000 * (rem * 1073741 + t / 1000) + t % 1000
  {
    DivMod(t, 1000);
  }

  lemma QuotientStep(s: seq<int>, t: seq<int>, a: int, d: int, rem: int, r: int)
    requires Val(s, WORD30) == 1000 * Val(t, WORD30) + rem && rem * WORD30 + a == 1000 * d + r
    ensures Val([a] + s, WORD30) == 1000 * Val([d] + t, WORD30) + r
  {
    assert ([a] + s)[1..] == s && ([d] + t)[1..] == t;
  }

  /** From limb n on the limbs t are those of s divided, with that remainder; below n they are those of s. */
  ghost predicate Dividing(s: seq<int>, t: seq<int>, n: nat, r: int) {
    && |s| == |t| == 9 && n <= 9 && 0 <= r < 1000 && Normalized(s, WORD30) && Normalized(t, WORD30)
    && s[..n] == t[..n] && Val(s[n..], WORD30) == 1000 * Val(t[n..], WORD30) + r
  }

  ghost function DividedIn(depth: nat, s: seq<int>, t: seq<int>, n: nat, r: int): Verdict {
    if depth > 0 then DividedIn(depth - 1, s, t, n, r)
    else if Dividing(s, t, n, r) then Holds else Fails
  }

  /** Dividing, folded (see Arith). */
  ghost function Divided(s: seq<int>, t: seq<int>, n: nat, r: int): Verdict {
    DividedIn(FOLDS, s, t, n, r)
  }

  lemma {:induction false} DividedInMeans(depth: nat, s: seq<int>, t: seq<int>, n: nat, r: int)
    ensures DividedIn(depth, s, t, n, r).Holds? <==> Dividing(s, t, n, r)
  {
    if depth > 0 { DividedInMeans(depth - 1, s, t, n, r); }
  }

  lemma DividedMeans(s: seq<int>, t: seq<int>, n: nat, r: int)
    ensures Divided(s, t, n, r).Holds? <==> Dividing(s, t, n, r)
  {
    DividedInMeans(FOLDS, s, t, n, r);
  }

  lemma DividedStep(s: seq<int>, t: seq<int>, n: nat, rem: int, d: int, r: int)
    requires 0 < n && Divided(s, t, n, rem).Holds? && 0 <= d < WORD30 && 0 <= r < 1000
    requires |t| == 9 && n <= 9 && rem * WORD30 + t[n - 1] == 1000 * d + r
    ensures Divided(s, t[n - 1 := d], n - 1, r).Holds?
  {
    DividedMeans(s, t, n, rem);
    var u := t[n - 1 := d];
    assert s[..n][n - 1] == t[..n][n - 1];
    QuotientStep(s[n..], t[n..], t[n - 1], d, rem, r);
    assert s[n - 1..] == [t[n - 1]] + s[n..] && u[n - 1..] == [d] + t[n..];
    assert s[..n - 1] == s[..n][..n - 1] == t[..n][..n - 1] == u[..n - 1];
    DividedMeans(s, u, n - 1, r);
  }

  lemma DividedStart(s: seq<int>)
    requires |s| == 9 && Normalized(s, WORD30)
    ensures 0 <= s[8] % 1000 < 1000 && Divided(s, s[8 := s[8] / 1000], 8, s[8] % 1000).Holds?
  {
    var t := s[8 := s[8] / 1000];
    DivMod(s[8], 1000);
    SingleValue(s[8..]);
    SingleValue(t[8..]);
    DividedMeans(s, t, 8, s[8] % 1000);
  }

  method DivideLimb(a: array<u32>, i: nat, rem: u32, ghost s: seq<int>) returns (r: u32)
    requires a.Length == 9 && i < 8 && rem < 1000 && a[i] < WORD30 && Divided(s, a[..], i + 1, rem).Holds?
    modifies a
    ensures r < 1000 && Divided(s, a[..], i, r).Holds? && forall j :: 0 <= j < i ==> a[j] == old(a[j])
  {
    ghost var t := a[..];
    var tmp: u32 := rem * 824 + a[i];
    LimbStep(rem, a[i], tmp);
    a[i] := rem * 1073741 + tmp / 1000;
    r := tmp % 1000;
    DividedStep(s, t, i + 1, rem, a[i], r);
    assert a[..] == t[i := a[i]];
  }

  /** bn_divmod1000 */
  method DivMod1000(a: array<u32>) returns (r: u32)
    requires a.Length == 9 && Normalized(a[..], WORD30)
    modifies a
    ensures Normalized(a[..], WORD30) && r < 1000 && old(Val(a[..], WORD30)) == 1000 * Val(a[..], WORD30) + r
  {
    ghost var s := a[..];
    DividedStart(s);
    r := a[8] % 1000;
    a[8] := a[8] / 1000;
    assert a[..] == s[8 := a[8]];
    var i := 7;
    while i >= 0
      invariant -1 <= i <= 7 && r < 1000 && Divided(s, a[..], i + 1, r).Holds?
      invariant forall j :: 0 <= j <= i ==> a[j] < WORD30
    {
      r := DivideLimb(a, i, r, s);
      i := i - 1;
    }
    DividedMeans(s, a[..], 0, r);
    assert s[0..] == s && a[..][0..] == a[..];
  }

  lemma SingleValue(s: seq<int>)
    requires |s| == 1
    ensures Val(s, WORD30) == s[0]
  {
    assert s[1..] == [];
  }

  // ------------------------------------------------------------ the number of digits

  const DIGITS: nat := 78

  ghost predicate Splitting(x: nat, i: nat, lo: int, hi: int, p: nat) {
    p == Pow(10, i) && 0 <= lo < p && 0 <= hi && x == lo + p * hi
  }

  ghost predicate SplitIn(depth: nat, x: nat, i: nat, lo: int, hi: int, p: nat) {
    if depth > 0 then SplitIn(depth - 1, x, i, lo, hi, p) else Splitting(x, i, lo, hi, p)
  }

  /** The value is lo + 10^i hi, and lo is below 10^i: the digits counted are those of lo; folded (see Arith). */
  ghost predicate Split(x: nat, i: nat, lo: int, hi: int, p: nat) {
    SplitIn(FOLDS, x, i, lo, hi, p)
  }

  lemma {:induction false} SplitInMeans(depth: nat, x: nat, i: nat, lo: int, hi: int, p: nat)
    ensures SplitIn(depth, x, i, lo, hi, p) <==> Splitting(x, i, lo, hi, p)
  {
    if depth > 0 { SplitInMeans(depth - 1, x, i, lo, hi, p); }
  }

  lemma SplitMeans(x: nat, i: nat, lo: int, hi: int, p: nat)
    ensures Split(x, i, lo, hi, p) <==> Splitting(x, i, lo, hi, p)
  {
    SplitInMeans(FOLDS, x, i, lo, hi, p);
  }

  lemma SplitStep(x: nat, i: nat, lo: nat, hi: int, p: nat, limb: nat, hi': int) returns (lo': nat, p': nat)
    requires Split(x, i, lo, hi, p) && hi == 1000 * hi' + limb && limb < 1000 && hi' >= 0
    ensures Split(x, i + 3, lo', hi', p')
    ensures limb > 0 ==> Length(lo') == i + Length(limb)
    ensures limb == 0 ==> lo' == lo
  {
    SplitMeans(x, i, lo, hi, p);
    PowAdd(10, i, 3);
    assert Pow(10, 3) == 1000;
    p' := Pow(10, i + 3);
    Distrib(p, 1000 * hi', limb);
    Assoc(p, 1000, hi');
    MulNonNegative(p, limb);
    lo' := lo + p * limb;
    MulLe(p, limb, 999);
    if limb > 0 { LengthInFront(lo', lo, limb, i, p); }
    SplitMeans(x, i + 3, lo', hi', p');
  }

  lemma LengthOfLimb(limb: nat)
    requires 0 < limb < 1000
    ensures Length(limb) == if limb >= 100 then 3 else if limb >= 10 then 2 else 1
  {}

  /** One limb of three digits more. */
  method CountLimb(val: array<u32>, i: u32, digits0: u32, ghost x: nat, ghost lo: nat, ghost p: nat)
    returns (digits: u32, ghost lo': nat, ghost p': nat)
    requires val.Length == 9 && Normalized(val[..], WORD30) && i < DIGITS
    requires Split(x, i, lo, Val(val[..], WORD30), p) && digits0 == Length(lo)
    modifies val
    ensures Normalized(val[..], WORD30) && Split(x, i + 3, lo', Val(val[..], WORD30), p') && digits == Length(lo')
  {
    digits := digits0;
    ghost var hi := Val(val[..], WORD30);
    var limb := DivMod1000(val);
    ValBound(val[..], WORD30);
    lo', p' := SplitStep(x, i, lo, hi, p, limb, Val(val[..], WORD30));
    if limb > 0 { LengthOfLimb(limb); }
    if limb >= 100 {
      digits := i + 3;
    } else if limb >= 10 {
      digits := i + 2;
    } else if limb >= 1 {
      digits := i + 1;
    }
  }

  /** bn_digitcount */
  method DigitCount(a: array<u32>, ghost x: nat) returns (digits: u32)
    requires a.Length == 9 && Normalized(a[..], WORD30) && Val(a[..], WORD30) == x && Length(x) <= DIGITS
    ensures digits == Length(x)
  {
    var val := new u32[9](i requires 0 <= i < a.Length reads a => a[i]);
    assert val[..] == a[..];
    ghost var lo: nat, p: nat := 0, 1;
    SplitMeans(x, 0, lo, x, p);
    digits := 1;
    var i: u32 := 0;
    while i < DIGITS
      invariant 0 <= i <= DIGITS && i % 3 == 0 && Normalized(val[..], WORD30)
      invariant Split(x, i, lo, Val(val[..], WORD30), p) && digits == Length(lo)
    {
      digits, lo, p := CountLimb(val, i, digits, x, lo, p);
      i := i + 3;
    }
    NothingAbove(x, i, lo, Val(val[..], WORD30), p);
  }

  lemma NothingAbove(x: nat, n: nat, lo: int, hi: int, p: nat)
    requires Split(x, n, lo, hi, p) && Length(x) <= n
    ensures lo == x
  {
    SplitMeans(x, n, lo, hi, p);
    LengthExact(x);
    PowMonotone(10, Length(x), n);
    if hi >= 1 { MulLe(p, 1, hi); assert false; }
  }

  // ------------------------------------------------------------ the text

  /** The variables of bn_format: the place written last, and what is left of exponent and decimals. */
  datatype Cursor = Cursor(str: nat, exponent: int, decimals: nat)

  ghost predicate Showing(o: string, prefix: string, suffix: string, c: Cursor, p: Pen) {
    var end := |o| - |suffix| - 1;
    && |prefix| <= c.str <= end && o[..|prefix|] == prefix && o[end..] == suffix + ['\0']
    && o[c.str..end] == p.text && c.exponent == p.exponent && c.decimals == p.decimals
  }

  ghost function ShownIn(depth: nat, o: string, prefix: string, suffix: string, c: Cursor, p: Pen): Verdict {
    if depth > 0 then ShownIn(depth - 1, o, prefix, suffix, c, p)
    else if Showing(o, prefix, suffix, c, p) then Holds else Fails
  }

  /** The buffer holds the prefix, what the pen wrote in front of the suffix, and a NUL; folded (see Arith). */
  ghost function Shown(o: string, prefix: string, suffix: string, c: Cursor, p: Pen): Verdict {
    ShownIn(FOLDS, o, prefix, suffix, c, p)
  }

  lemma {:induction false} ShownInMeans(depth: nat, o: string, prefix: string, suffix: string, c: Cursor, p: Pen)
    ensures ShownIn(depth, o, prefix, suffix, c, p).Holds? <==> Showing(o, prefix, suffix, c, p)
  {
    if depth > 0 { ShownInMeans(depth - 1, o, prefix, suffix, c, p); }
  }

  lemma ShownMeans(o: string, prefix: string, suffix: string, c: Cursor, p: Pen)
    ensures Shown(o, prefix, suffix, c, p).Holds? <==> Showing(o, prefix, suffix, c, p)
  {
    ShownInMeans(FOLDS, o, prefix, suffix, c, p);
  }

  lemma ShownPut(o: string, prefix: string, suffix: string, c: Cursor, p: Pen, ch: char)
    requires Shown(o, prefix, suffix, c, p).Holds? && |prefix| < c.str <= |o|
    ensures Shown(o[c.str - 1 := ch], prefix, suffix, c.(str := c.str - 1), p.(text := [ch] + p.text)).Holds?
  {
    ShownMeans(o, prefix, suffix, c, p);
    var o', c' := o[c.str - 1 := ch], c.(str := c.str - 1);
    ShownMeans(o', prefix, suffix, c', p.(text := [ch] + p.text));
    var end := |o| - |suffix| - 1;
    assert o'[c.str - 1..end] == [ch] + o[c.str..end];
    assert o'[end..] == o[end..];
  }

  /** BN_FORMAT_PUSH_CHECKED */
  method PushChecked(out: array<char>, prefix: string, suffix: string, c: Cursor, ch: char, ghost p: Pen) returns (ok: bool, c': Cursor)
    requires Shown(out[..], prefix, suffix, c, p).Holds?
    modifies out
    ensures ok ==> Shown(out[..], prefix, suffix, c', p.(text := [ch] + p.text)).Holds? && c' == c.(str := c'.str)
    ensures !ok ==> |p.text| + 1 > out.Length - |prefix| - |suffix| - 1
  {
    ShownMeans(out[..], prefix, suffix, c, p);
    if c.str == |prefix| { return false, c; }
    ShownPut(out[..], prefix, suffix, c, p, ch);
    ghost var o := out[..];
    out[c.str - 1] := ch;
    assert out[..] == o[c.str - 1 := ch];
    return true, c.(str := c.str - 1);
  }

  /** BN_FORMAT_PUSH; not ok if the buffer is full. */
  method PushDigit(out: array<char>, prefix: string, suffix: string, c: Cursor, n: u32, trailing: bool, ghost p: Pen)
    returns (ok: bool, c': Cursor)
    requires Shown(out[..], prefix, suffix, c, p).Holds? && n < 10
    modifies out
    ensures ok ==> Shown(out[..], prefix, suffix, c', Push(p, n, trailing)).Holds?
    ensures !ok ==> |Push(p, n, trailing).text| > out.Length - |prefix| - |suffix| - 1
  {
    ShownMeans(out[..], prefix, suffix, c, p);
    ok, c' := true, c;
    if c.exponent < 0 {
      c' := c.(exponent := c.exponent + 1);
      ShownMeans(out[..], prefix, suffix, c', Push(p, n, trailing));
    } else {
      ghost var q := p;
      if n > 0 || trailing || c.str != out.Length - |suffix| - 1 || c.decimals <= 1 {
        ok, c' := PushChecked(out, prefix, suffix, c, DigitChar(n), p);
        if !ok { return; }
        q := p.(text := [DigitChar(n)] + p.text);
      }
      if c.decimals > 0 {
        ShownMeans(out[..], prefix, suffix, c', q);
        c' := c'.(decimals := c.decimals - 1);
        q := q.(decimals := c.decimals - 1);
        ShownMeans(out[..], prefix, suffix, c', q);
        if c.decimals == 1 {
          ok, c' := PushChecked(out, prefix, suffix, c', '.', q);
        }
      }
    }
  }

  function Room(length: nat, prefix: string, suffix: string): int {
    length - |prefix| - |suffix| - 1
  }

  /** The zeros for a positive exponent. */
  method WriteZeros(out: array<char>, prefix: string, suffix: string, c: Cursor, trailing: bool, ghost p: Pen)
    returns (ok: bool, c': Cursor)
    requires Shown(out[..], prefix, suffix, c, p).Holds?
    modifies out
    ensures ok ==> Shown(out[..], prefix, suffix, c', PushZeros(p, trailing)).Holds?
    ensures !ok ==> |PushZeros(p, trailing).text| > Room(out.Length, prefix, suffix)
  {
    ghost var q := p;
    ok, c' := true, c;
    ShownMeans(out[..], prefix, suffix, c', q);
    while c'.exponent > 0
      invariant Shown(out[..], prefix, suffix, c', q).Holds? && c'.exponent == q.exponent
      invariant PushZeros(q, trailing) == PushZeros(p, trailing)
      decreases c'.exponent
    {
      ghost var e := c'.exponent;
      PushZerosGrows(Push(q, 0, trailing).(exponent := e - 1), trailing);
      ok, c' := PushDigit(out, prefix, suffix, c', 0, trailing, q);
      if !ok { return; }
      q := Push(q, 0, trailing);
      ShownMeans(out[..], prefix, suffix, c', q);
      c' := c'.(exponent := c'.exponent - 1);
      q := q.(exponent := e - 1);
      ShownMeans(out[..], prefix, suffix, c', q);
    }
  }

  /** Zeros until the text is finished. */
  method WritePad(out: array<char>, prefix: string, suffix: string, c: Cursor, trailing: bool, ghost p: Pen)
    returns (ok: bool, c': Cursor)
    requires Shown(out[..], prefix, suffix, c, p).Holds?
    modifies out
    ensures ok ==> Shown(out[..], prefix, suffix, c', Pad(p, trailing, suffix)).Holds?
    ensures !ok ==> |Pad(p, trailing, suffix).text| > Room(out.Length, prefix, suffix)
  {
    ghost var q := p;
    ok, c' := true, c;
    ShownParts(out[..], prefix, suffix, c', q);
    while c'.decimals > 0 || out[c'.str] == '\0' || out[c'.str] == '.'
      invariant Shown(out[..], prefix, suffix, c', q).Holds? && Pad(q, trailing, suffix) == Pad(p, trailing, suffix)
      invariant c'.str < out.Length && c'.decimals == q.decimals && out[c'.str] == Head(q.text, suffix)
      decreases Debt(q), q.decimals, if Unfinished(q, suffix) then 1 else 0
    {
      PadGrows(Push(q, 0, trailing), trailing, suffix);
      ok, c' := PushDigit(out, prefix, suffix, c', 0, trailing, q);
      if !ok { return; }
      q := Push(q, 0, trailing);
      ShownParts(out[..], prefix, suffix, c', q);
    }
  }

  // ------------------------------------------------------------ the digits

  lemma LimbDigits(x: nat, hi: nat, l: nat)
    requires x == 1000 * hi + l && l < 1000
    ensures x % 10 == l % 10 && x / 10 % 10 == l / 10 % 10 && x / 10 / 10 % 10 == l / 10 / 10 && x / 10 / 10 / 10 == hi
    ensures l / 10 / 10 % 10 == l / 10 / 10
  {
    DivMod(l, 10);
    DivMod(l / 10, 10);
    DivModUnique(x, 100 * hi + l / 10, l % 10, 10);
    DivModUnique(100 * hi + l / 10, 10 * hi + l / 10 / 10, l / 10 % 10, 10);
    DivModUnique(10 * hi + l / 10 / 10, hi, l / 10 / 10, 10);
  }

  /** The first n of the digits of a limb. */
  method WriteLimb(out: array<char>, prefix: string, suffix: string, c: Cursor, limb: u32, n: nat, trailing: bool, ghost p: Pen)
    returns (ok: bool, c': Cursor)
    requires Shown(out[..], prefix, suffix, c, p).Holds? && n <= 3
    modifies out
    ensures ok ==> Shown(out[..], prefix, suffix, c', PushAll(p, DigitsOf(limb, n), trailing)).Holds?
    ensures !ok ==> |PushAll(p, DigitsOf(limb, n), trailing).text| > Room(out.Length, prefix, suffix)
  {
    ghost var q, x := p, limb;
    var l: u32 := limb;
    ok, c' := true, c;
    var i := 0;
    while i < n
      invariant 0 <= i <= n && Shown(out[..], prefix, suffix, c', q).Holds?
      invariant PushAll(q, DigitsOf(l, n - i), trailing) == PushAll(p, DigitsOf(limb, n), trailing)
    {
      ghost var s := DigitsOf(l, n - i);
      assert s[0] == l % 10 && s[1..] == DigitsOf(l / 10, n - i - 1);
      PushAllGrows(Push(q, l % 10, trailing), s[1..], trailing);
      ok, c' := PushDigit(out, prefix, suffix, c', l % 10, trailing, q);
      if !ok { return; }
      q := Push(q, l % 10, trailing);
      l := l / 10;
      i := i + 1;
    }
  }

  lemma DigitsByLimb(x: nat, hi: nat, l: nat, n: nat)
    requires x == 1000 * hi + l && l < 1000
    ensures n >= 3 ==> DigitsOf(x, n) == DigitsOf(l, 3) + DigitsOf(hi, n - 3)
    ensures n < 3 ==> DigitsOf(x, n) == DigitsOf(l, n)
  {
    LimbDigits(x, hi, l);
    if n >= 3 {
      FirstThree(x, n);
      FirstThree(l, 3);
    } else if n > 0 {
      FirstTwo(x, n);
      FirstTwo(l, n);
    }
  }

  lemma FirstThree(x: nat, n: nat)
    requires n >= 3
    ensures DigitsOf(x, n) == [x % 10, x / 10 % 10, x / 10 / 10 % 10] + DigitsOf(x / 10 / 10 / 10, n - 3)
  {
    assert DigitsOf(x / 10 / 10, n - 2) == [x / 10 / 10 % 10] + DigitsOf(x / 10 / 10 / 10, n - 3);
    assert DigitsOf(x / 10, n - 1) == [x / 10 % 10] + DigitsOf(x / 10 / 10, n - 2);
  }

  lemma FirstTwo(x: nat, n: nat)
    requires n == 1 || n == 2
    ensures DigitsOf(x, n) == if n == 1 then [x % 10] else [x % 10, x / 10 % 10]
  {
    assert DigitsOf(x / 10, n - 1) == if n == 1 then [] else [x / 10 % 10] + DigitsOf(x / 10 / 10, n - 2);
  }

  /** One limb of three of the n digits left. */
  method WriteThree(out: array<char>, prefix: string, suffix: string, c: Cursor, val: array<u32>, trailing: bool,
    ghost y: nat, ghost n: nat, ghost p: Pen) returns (ok: bool, c': Cursor, ghost hi: nat, ghost q: Pen)
    requires Shown(out[..], prefix, suffix, c, p).Holds? && n >= 3
    requires val.Length == 9 && Normalized(val[..], WORD30) && Val(val[..], WORD30) == y
    modifies out, val
    ensures Normalized(val[..], WORD30) && Val(val[..], WORD30) == hi
    ensures PushAll(q, DigitsOf(hi, n - 3), trailing) == PushAll(p, DigitsOf(y, n), trailing)
    ensures ok ==> Shown(out[..], prefix, suffix, c', q).Holds?
    ensures !ok ==> |PushAll(p, DigitsOf(y, n), trailing).text| > Room(out.Length, prefix, suffix)
  {
    var limb := DivMod1000(val);
    ValBound(val[..], WORD30);
    hi := Val(val[..], WORD30);
    DigitsByLimb(y, hi, limb, n);
    PushAllConcat(p, DigitsOf(limb, 3), DigitsOf(hi, n - 3), trailing);
    q := PushAll(p, DigitsOf(limb, 3), trailing);
    PushAllGrows(q, DigitsOf(hi, n - 3), trailing);
    ok, c' := WriteLimb(out, prefix, suffix, c, limb, 3, trailing, p);
  }

  /** The one or two digits left. */
  method WriteLast(out: array<char>, prefix: string, suffix: string, c: Cursor, val: array<u32>, trailing: bool,
    ghost y: nat, n: nat, ghost p: Pen) returns (ok: bool, c': Cursor)
    requires Shown(out[..], prefix, suffix, c, p).Holds? && n < 3
    requires val.Length == 9 && Normalized(val[..], WORD30) && Val(val[..], WORD30) == y
    modifies out, val
    ensures ok ==> Shown(out[..], prefix, suffix, c', PushAll(p, DigitsOf(y, n), trailing)).Holds?
    ensures !ok ==> |PushAll(p, DigitsOf(y, n), trailing).text| > Room(out.Length, prefix, suffix)
  {
    var limb := DivMod1000(val);
    ValBound(val[..], WORD30);
    DigitsByLimb(y, Val(val[..], WORD30), limb, n);
    ok, c' := WriteLimb(out, prefix, suffix, c, limb, n, trailing, p);
  }

  /** All digits of the number, by limbs of three. */
  method WriteDigits(out: array<char>, prefix: string, suffix: string, c: Cursor, val: array<u32>, digits: u32, trailing: bool,
    ghost x: nat, ghost p: Pen) returns (ok: bool, c': Cursor)
    requires Shown(out[..], prefix, suffix, c, p).Holds?
    requires val.Length == 9 && Normalized(val[..], WORD30) && Val(val[..], WORD30) == x
    modifies out, val
    ensures ok ==> Shown(out[..], prefix, suffix, c', PushAll(p, DigitsOf(x, digits), trailing)).Holds?
    ensures !ok ==> |PushAll(p, DigitsOf(x, digits), trailing).text| > Room(out.Length, prefix, suffix)
  {
    ghost var q, y := p, x;
    ok, c' := true, c;
    DivMod(digits, 3);
    var i := 0;
    while i < digits / 3
      invariant 0 <= i <= digits / 3 && Shown(out[..], prefix, suffix, c', q).Holds?
      invariant Normalized(val[..], WORD30) && Val(val[..], WORD30) == y
      invariant PushAll(q, DigitsOf(y, digits - 3 * i), trailing) == PushAll(p, DigitsOf(x, digits), trailing)
    {
      ok, c', y, q := WriteThree(out, prefix, suffix, c', val, trailing, y, digits - 3 * i, q);
      if !ok { return; }
      i := i + 1;
    }
    if digits % 3 != 0 {
      ok, c' := WriteLast(out, prefix, suffix, c', val, trailing, y, digits % 3, q);
    }
  }

  // ------------------------------------------------------------ the whole

  /** memcpy(&out[at], text) */
  method Copy(out: array<char>, at: nat, text: string)
    requires at + |text| <= out.Length
    modifies out
    ensures out[at..at + |text|] == text
    ensures forall j :: 0 <= j < out.Length && !(at <= j < at + |text|) ==> out[j] == old(out[j])
  {
    var i := 0;
    while i < |text|
      invariant 0 <= i <= |text| && forall j :: 0 <= j < i ==> out[at + j] == text[j]
      invariant forall j :: 0 <= j < out.Length && !(at <= j < at + i) ==> out[j] == old(out[j])
    {
      out[at + i] := text[i];
      i := i + 1;
    }
  }

  lemma FrameShown(o: string, prefix: string, suffix: string, c: Cursor, p: Pen)
    requires |prefix| + |suffix| < |o| && c.str == |o| - |suffix| - 1 && p == Pen(c.exponent, c.decimals, "")
    requires o[..|prefix|] == prefix && o[c.str..c.str + |suffix|] == suffix && o[|o| - 1] == '\0'
    ensures Shown(o, prefix, suffix, c, p).Holds?
  {
    assert o[c.str..] == o[c.str..c.str + |suffix|] + ['\0'];
    assert o[c.str..c.str] == "";
    ShownMeans(o, prefix, suffix, c, p);
  }

  /** The prefix, the suffix and the NUL. */
  method Frame(out: array<char>, prefix: string, suffix: string, c: Cursor, ghost p: Pen)
    requires |prefix| + |suffix| < out.Length && c.str == out.Length - |suffix| - 1
    requires p == Pen(c.exponent, c.decimals, "")
    modifies out
    ensures Shown(out[..], prefix, suffix, c, p).Holds?
  {
    Copy(out, 0, prefix);
    assert out[..|prefix|] == prefix;
    Copy(out, c.str, suffix);
    out[out.Length - 1] := '\0';
    assert out[..][..|prefix|] == prefix;
    assert out[..][c.str..c.str + |suffix|] == suffix;
    FrameShown(out[..], prefix, suffix, c, p);
  }

  /** memmove(&out[n], &out[str], len) to the left */
  method MoveDown(out: array<char>, n: nat, str: nat, len: nat)
    requires n <= str && str + len == out.Length
    modifies out
    ensures out[..n + len] == old(out[..n]) + old(out[str..])
  {
    ghost var o := out[..];
    var i := 0;
    while i < len
      invariant 0 <= i <= len && forall j :: 0 <= j < n ==> out[j] == o[j]
      invariant forall j :: n <= j < n + i ==> out[j] == o[str - n + j]
      invariant forall j :: str + i <= j < out.Length ==> out[j] == o[j]
    {
      out[n + i] := out[str + i];
      i := i + 1;
    }
    assert out[..n + len] == o[..n] + o[str..];
  }

  lemma ShownParts(o: string, prefix: string, suffix: string, c: Cursor, p: Pen)
    requires Shown(o, prefix, suffix, c, p).Holds?
    ensures |prefix| <= c.str < |o| && c.decimals == p.decimals && o[c.str] == Head(p.text, suffix)
    ensures o[..|prefix|] == prefix && o[c.str..] == p.text + suffix + ['\0']
  {
    ShownMeans(o, prefix, suffix, c, p);
    var end := |o| - |suffix| - 1;
    assert o[c.str..] == o[c.str..end] + o[end..];
    assert p.text + suffix + ['\0'] == p.text + (suffix + ['\0']);
  }

  /** The number is moved to the prefix. */
  method Close(out: array<char>, prefix: string, suffix: string, c: Cursor, ghost p: Pen) returns (r: nat)
    requires Shown(out[..], prefix, suffix, c, p).Holds?
    modifies out
    ensures r == |prefix| + |p.text| + |suffix| < out.Length && out[..r + 1] == prefix + p.text + suffix + ['\0']
  {
    ShownParts(out[..], prefix, suffix, c, p);
    ghost var o := out[..];
    var n, len := |prefix|, out.Length - c.str;
    assert out[..n] == o[..n] && out[c.str..] == o[c.str..];
    MoveDown(out, n, c.str, len);
    r := n + len - 1;
    assert prefix + (p.text + suffix + ['\0']) == prefix + p.text + suffix + ['\0'];
  }

  /** The number between prefix and suffix; not ok if it does not fit. */
  method WriteNumber(out: array<char>, prefix: string, suffix: string, c0: Cursor, val: array<u32>, trailing: bool,
    ghost x: nat, ghost p: Pen) returns (ok: bool, c: Cursor)
    requires Shown(out[..], prefix, suffix, c0, p).Holds?
    requires val.Length == 9 && Normalized(val[..], WORD30) && Val(val[..], WORD30) == x && Length(x) <= DIGITS
    modifies out, val
    ensures var t := Pad(PushAll(PushZeros(p, trailing), DigitsOf(x, Length(x)), trailing), trailing, suffix);
            if ok then Shown(out[..], prefix, suffix, c, t).Holds? else |t.text| > Room(out.Length, prefix, suffix)
  {
    ghost var p1 := PushZeros(p, trailing);
    ghost var s := DigitsOf(x, Length(x));
    ghost var p2 := PushAll(p1, s, trailing);
    FinishGrows(p1, s, trailing, suffix);
    PadGrows(p2, trailing, suffix);
    ok, c := WriteZeros(out, prefix, suffix, c0, trailing, p);
    if !ok { return; }
    var digits := DigitCount(val, x);
    ok, c := WriteDigits(out, prefix, suffix, c, val, digits, trailing, x, p1);
    if !ok { return; }
    ok, c := WritePad(out, prefix, suffix, c, trailing, p2);
  }

  /** bn_format; a missing prefix or suffix is an empty one. */
  method Format(amount: array<u32>, prefix: string, suffix: string, decimals: u32, exponent: int, trailing: bool,
    out: array<char>, ghost x: nat) returns (r: nat)
    requires amount.Length == 9 && Normalized(amount[..], WORD30) && Val(amount[..], WORD30) == x && Length(x) <= DIGITS
    requires |prefix| + |suffix| < out.Length
    modifies out
    ensures decimals > 80 || exponent < -20 || exponent > 80 ==> r == 0 && forall i :: 0 <= i < out.Length ==> out[i] == '\0'
    ensures decimals <= 80 && -20 <= exponent <= 80 ==>
              var t := Text(x, decimals, exponent, trailing, suffix);
              if |prefix| + |t| + |suffix| >= out.Length then r == 0
              else r == |prefix| + |t| + |suffix| < out.Length && out[..r + 1] == prefix + t + suffix + ['\0']
  {
    if decimals > 80 || exponent < -20 || exponent > 80 {
      var i := 0;
      while i < out.Length
        invariant 0 <= i <= out.Length && forall j :: 0 <= j < i ==> out[j] == '\0'
      {
        out[i] := '\0';
        i := i + 1;
      }
      return 0;
    }
    var val := new u32[9](i requires 0 <= i < amount.Length reads amount => amount[i]);
    assert val[..] == amount[..];
    var zero := B.IsZero(val);
    var c := Cursor(out.Length - |suffix| - 1, if zero then 0 else exponent, decimals);
    Frame(out, prefix, suffix, c, Pen(c.exponent, decimals, ""));
    ghost var p := Pen(c.exponent, decimals, "");
    var ok;
    ok, c := WriteNumber(out, prefix, suffix, c, val, trailing, x, p);
    if !ok { return 0; }
    p := Pad(PushAll(PushZeros(p, trailing), DigitsOf(x, Length(x)), trailing), trailing, suffix);
    r := Close(out, prefix, suffix, c, p);
  }
}
