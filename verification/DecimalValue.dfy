/** What the text of DecimalSpec stands for. */
module DecimalValue {
  import opened Arith
  import opened Limbs
  import opened DecimalSpec

  predicate IsDigit(c: char) {
    '0' <= c <= '9'
  }

  predicate Plain(t: string) {
    forall i :: 0 <= i < |t| ==> IsDigit(t[i]) || t[i] == '.'
  }

  /** How many digits. */
  function Count(t: string): (n: nat)
    ensures n <= |t|
  {
    if |t| == 0 then 0 else Count(t[1..]) + (if t[0] == '.' then 0 else 1)
  }

  /** The number that the digits make, the point left out. */
  function Number(t: string): nat
    requires Plain(t)
  {
    if |t| == 0 then 0
    else if t[0] == '.' then Number(t[1..])
    else
      MulNonNegative((t[0] - '0') as int, Pow(10, Count(t[1..])));
      (t[0] - '0') as nat * Pow(10, Count(t[1..])) + Number(t[1..])
  }

  /** How many characters follow the point. */
  function Places(t: string): nat {
    if |t| == 0 then 0 else if t[0] == '.' then |t| - 1 else Places(t[1..])
  }

  function Zeros(n: nat): (s: seq<nat>)
    ensures |s| == n && Normalized(s, 10) && forall i :: 0 <= i < n ==> s[i] == 0
  {
    seq(n, _ => 0)
  }

  ghost function StandsIn(depth: nat, t: string, left: int, q: seq<nat>): Verdict
    requires Plain(t)
  {
    if depth > 0 then StandsIn(depth - 1, t, left, q)
    else if left == |q| - Count(t) >= 0 && Number(t) * Pow(10, left) == Val(q, 10) then Holds else Fails
  }

  /** The digits of t, and as many zeros behind them as are left out, make the number of q; folded (see Arith). */
  ghost function Stands(t: string, left: int, q: seq<nat>): Verdict
    requires Plain(t)
  {
    StandsIn(FOLDS, t, left, q)
  }

  lemma {:induction false} StandsInMeans(depth: nat, t: string, left: int, q: seq<nat>)
    requires Plain(t)
    ensures StandsIn(depth, t, left, q).Holds? <==> left == |q| - Count(t) >= 0 && Number(t) * Pow(10, left) == Val(q, 10)
  {
    if depth > 0 { StandsInMeans(depth - 1, t, left, q); }
  }

  lemma StandsMeans(t: string, left: int, q: seq<nat>)
    requires Plain(t)
    ensures Stands(t, left, q).Holds? <==> left == |q| - Count(t) >= 0 && Number(t) * Pow(10, left) == Val(q, 10)
  {
    StandsInMeans(FOLDS, t, left, q);
  }

  lemma CharBack(n: nat)
    requires n < 10
    ensures IsDigit(DigitChar(n)) && (DigitChar(n) - '0') as nat == n && (n > 0 <==> DigitChar(n) != '0')
  {}

  lemma NumberCons(t: string, n: nat, u: string)
    requires Plain(t) && n < 10 && u == [DigitChar(n)] + t
    ensures Plain(u) && Count(u) == Count(t) + 1 && Number(u) == n * Pow(10, Count(t)) + Number(t) && Places(u) == Places(t)
  {
    CharBack(n);
    assert u[1..] == t && u[0] == DigitChar(n);
  }

  lemma FrontStep(n: nat, x: int, y: int, w: int, v: int, r: int)
    requires v == w * y && r == x * y
    ensures (n * x + w) * y == v + r * n
  {
    Distrib(y, n * x, w);
    Assoc(n, x, y);
  }

  lemma StandsFront(t: string, left: int, q: seq<nat>, n: nat, u: string)
    requires Plain(t) && n < 10 && u == [DigitChar(n)] + t && Stands(t, left, q).Holds?
    ensures Plain(u) && Count(u) == Count(t) + 1 && Places(u) == Places(t) && Stands(u, left, q + [n]).Holds?
  {
    StandsMeans(t, left, q);
    NumberCons(t, n, u);
    PowAdd(10, Count(t), left);
    FrontStep(n, Pow(10, Count(t)), Pow(10, left), Number(t), Val(q, 10), Pow(10, |q|));
    ValSnoc(q, n, 10);
    StandsMeans(u, left, q + [n]);
  }

  lemma StandsSkip(left: int, q: seq<nat>)
    requires Stands("", left, q).Holds?
    ensures Stands("", left + 1, q + [0]).Holds?
  {
    StandsMeans("", left, q);
    ValSnoc(q, 0, 10);
    StandsMeans("", left + 1, q + [0]);
  }

  lemma StandsPoint(t: string, left: int, q: seq<nat>)
    requires Plain(t) && Stands(t, left, q).Holds?
    ensures Plain("." + t) && Count("." + t) == Count(t) && Places("." + t) == |t| && Stands("." + t, left, q).Holds?
  {
    assert ("." + t)[1..] == t;
    StandsMeans(t, left, q);
    StandsMeans("." + t, left, q);
  }

  ghost predicate Writing(text: string, decimals: nat, q: seq<nat>, d: nat, trailing: bool) {
    var left := |q| - Count(text);
    && Plain(text) && Stands(text, left, q).Holds?
    && decimals == (if |q| < d then d - |q| else 0)
    && |text| == Count(text) + (if 0 < d <= |q| then 1 else 0)
    && (0 < d <= |q| ==> left < d && Places(text) == d - left)
    && (d == 0 || trailing ==> left == 0)
    && (text != "" ==> trailing || d == 0 || text[|text| - 1] != '0' || left == d - 1)
    && (text != "" && text[0] != '.' ==> |q| > 0 && q[|q| - 1] < 10 && text[0] == DigitChar(q[|q| - 1]))
  }

  ghost function WrittenIn(depth: nat, text: string, decimals: nat, q: seq<nat>, d: nat, trailing: bool): Verdict {
    if depth > 0 then WrittenIn(depth - 1, text, decimals, q, d, trailing)
    else if Writing(text, decimals, q, d, trailing) then Holds else Fails
  }

  /**
   The digits q are written, with d decimals and the lowest zeros possibly left out; folded
   (see Arith).
   */
  ghost function Written(text: string, decimals: nat, q: seq<nat>, d: nat, trailing: bool): Verdict {
    WrittenIn(FOLDS, text, decimals, q, d, trailing)
  }

  lemma {:induction false} WrittenInMeans(depth: nat, text: string, decimals: nat, q: seq<nat>, d: nat, trailing: bool)
    ensures WrittenIn(depth, text, decimals, q, d, trailing).Holds? <==> Writing(text, decimals, q, d, trailing)
  {
    if depth > 0 { WrittenInMeans(depth - 1, text, decimals, q, d, trailing); }
  }

  lemma WrittenMeans(text: string, decimals: nat, q: seq<nat>, d: nat, trailing: bool)
    ensures Written(text, decimals, q, d, trailing).Holds? <==> Writing(text, decimals, q, d, trailing)
  {
    WrittenInMeans(FOLDS, text, decimals, q, d, trailing);
  }

  lemma PutWritten(p: Pen, q: seq<nat>, d: nat, n: nat, trailing: bool, u: string)
    requires Written(p.text, p.decimals, q, d, trailing).Holds? && n < 10
    requires n > 0 || trailing || p.text != "" || p.decimals <= 1
    requires u == [DigitChar(n)] + p.text
    ensures p.decimals != 1 ==> Written(u, if p.decimals == 0 then 0 else p.decimals - 1, q + [n], d, trailing).Holds?
    ensures p.decimals == 1 ==> Written("." + u, 0, q + [n], d, trailing).Holds?
  {
    WrittenMeans(p.text, p.decimals, q, d, trailing);
    var left := |q| - Count(p.text);
    StandsMeans(p.text, left, q);
    CharBack(n);
    StandsFront(p.text, left, q, n, u);
    if p.decimals == 1 {
      StandsPoint(u, left, q + [n]);
      WrittenMeans("." + u, 0, q + [n], d, trailing);
    } else {
      WrittenMeans(u, if p.decimals == 0 then 0 else p.decimals - 1, q + [n], d, trailing);
    }
  }

  lemma PushWritten(p: Pen, q: seq<nat>, d: nat, n: nat, trailing: bool)
    requires Written(p.text, p.decimals, q, d, trailing).Holds? && p.exponent >= 0 && n < 10
    ensures Written(Push(p, n, trailing).text, Push(p, n, trailing).decimals, q + [n], d, trailing).Holds?
  {
    if n > 0 || trailing || p.text != "" || p.decimals <= 1 {
      PutWritten(p, q, d, n, trailing, [DigitChar(n)] + p.text);
    } else {
      WrittenMeans(p.text, p.decimals, q, d, trailing);
      StandsSkip(|q|, q);
      WrittenMeans("", p.decimals - 1, q + [n], d, trailing);
    }
  }

  lemma NothingWritten(d: nat, trailing: bool)
    ensures Written("", d, [], d, trailing).Holds?
  {
    StandsMeans("", 0, []);
    WrittenMeans("", d, [], d, trailing);
  }

  lemma {:induction false} PushAllWritten(p: Pen, q: seq<nat>, s: seq<nat>, d: nat, trailing: bool)
    requires Written(p.text, p.decimals, q, d, trailing).Holds? && p.exponent >= 0 && Normalized(s, 10)
    ensures Written(PushAll(p, s, trailing).text, PushAll(p, s, trailing).decimals, q + s, d, trailing).Holds? && PushAll(p, s, trailing).exponent == p.exponent
    decreases |s|
  {
    if |s| == 0 {
      assert q + s == q;
    } else {
      PushWritten(p, q, d, s[0], trailing);
      PushAllWritten(Push(p, s[0], trailing), q + [s[0]], s[1..], d, trailing);
      assert q + [s[0]] + s[1..] == q + s;
    }
  }

  lemma {:induction false} PushZerosWritten(p: Pen, q: seq<nat>, n: nat, d: nat, trailing: bool)
    requires Written(p.text, p.decimals, q, d, trailing).Holds? && p.exponent == n
    ensures Written(PushZeros(p, trailing).text, PushZeros(p, trailing).decimals, q + Zeros(n), d, trailing).Holds? && PushZeros(p, trailing).exponent == 0
    decreases n
  {
    if n == 0 {
      assert q + Zeros(n) == q;
    } else {
      PushWritten(p, q, d, 0, trailing);
      PushZerosWritten(Push(p, 0, trailing).(exponent := n - 1), q + [0], n - 1, d, trailing);
      assert q + [0] + Zeros(n - 1) == q + Zeros(n);
    }
  }

  /** A negative exponent drops the lowest digits. */
  lemma {:induction false} Dropped(k: nat, d: nat, s: seq<nat>, trailing: bool)
    requires Normalized(s, 10)
    ensures |s| <= k ==> PushAll(Pen(0 - k, d, ""), s, trailing) == Pen(|s| - k, d, "")
    ensures |s| > k ==> PushAll(Pen(0 - k, d, ""), s, trailing) == PushAll(Pen(0, d, ""), s[k..], trailing)
    decreases k
  {
    if k == 0 {
      assert s[0..] == s;
    } else if |s| > 0 {
      Dropped(k - 1, d, s[1..], trailing);
      if |s| > k { assert s[1..][k - 1..] == s[k..]; }
    }
  }

  /** No 0 in front of another digit. */
  predicate Neat(t: string) {
    |t| > 0 && (t[0] == '0' ==> |t| == 1 || t[1] == '.')
  }

  lemma PushNeat(p: Pen, trailing: bool, suffix: string)
    requires Plain(p.text) && Unfinished(p, suffix) && p.exponent >= 0
    ensures Unfinished(Push(p, 0, trailing), suffix) || Neat(Push(p, 0, trailing).text)
  {}

  /** Zeros are added until a digit is in front and all decimals are there. */
  lemma {:induction false} PadWritten(p: Pen, q: seq<nat>, d: nat, trailing: bool, suffix: string) returns (m: nat)
    requires Written(p.text, p.decimals, q, d, trailing).Holds? && p.exponent <= 0
    requires p.exponent < 0 ==> q == [] && p.text == ""
    requires Unfinished(p, suffix) || Neat(p.text)
    ensures Written(Pad(p, trailing, suffix).text, Pad(p, trailing, suffix).decimals, q + Zeros(m), d, trailing).Holds?
    ensures !Unfinished(Pad(p, trailing, suffix), suffix) && Neat(Pad(p, trailing, suffix).text)
    decreases Debt(p), p.decimals, if Unfinished(p, suffix) then 1 else 0
  {
    if !Unfinished(p, suffix) {
      m := 0;
      assert q + Zeros(0) == q;
    } else if p.exponent < 0 {
      m := PadWritten(Push(p, 0, trailing), q, d, trailing, suffix);
    } else {
      WrittenMeans(p.text, p.decimals, q, d, trailing);
      PushNeat(p, trailing, suffix);
      PushWritten(p, q, d, 0, trailing);
      m := PadWritten(Push(p, 0, trailing), q + [0], d, trailing, suffix);
      assert q + [0] + Zeros(m) == q + Zeros(m + 1);
      m := m + 1;
    }
  }

  // ------------------------------------------------------------ the whole text

  /** The number in units of the last decimal: digits are dropped for a negative exponent. */
  function Scaled(amount: nat, exponent: int): nat {
    if exponent >= 0 then MulNonNegative(amount, Pow(10, exponent)); amount * Pow(10, exponent)
    else amount / Pow(10, -exponent)
  }

  /** All digits are dropped, none is asked for, and the suffix is taken for the number. */
  predicate Missing(amount: nat, decimals: nat, exponent: int, suffix: string) {
    decimals == 0 && exponent < 0 && amount > 0 && Scaled(amount, exponent) == 0
    && Head("", suffix) != '\0' && Head("", suffix) != '.'
  }

  /** Digits with a point before the decimals; at least one digit on either side of it. */
  predicate Shape(t: string, decimals: nat, trailing: bool) {
    && Plain(t) && |t| > 0 && IsDigit(t[0]) && Neat(t)
    && |t| == Count(t) + (if decimals > 0 then 1 else 0)
    && (decimals > 0 ==> 1 <= Places(t) <= decimals)
    && (trailing && decimals > 0 ==> Places(t) == decimals)
    && (!trailing && decimals > 0 ==> t[|t| - 1] != '0' || Places(t) == 1)
  }

  lemma {:induction false} PlacesNone(t: string)
    requires Plain(t) && Count(t) == |t|
    ensures Places(t) == 0
  {
    if |t| > 0 { PlacesNone(t[1..]); }
  }

  lemma ValuesAgree(number: int, left: nat, places: nat, d: nat, v: int)
    requires number * Pow(10, left) == v && places + left == d
    ensures number * Pow(10, d) == v * Pow(10, places)
  {
    PowAdd(10, left, places);
    Assoc(number, Pow(10, left), Pow(10, places));
  }

  /** A finished text with all the digits. */
  lemma FinishedMeans(p: Pen, q: seq<nat>, d: nat, trailing: bool, suffix: string, v: int)
    requires Written(p.text, p.decimals, q, d, trailing).Holds? && !Unfinished(p, suffix) && Neat(p.text) && Val(q, 10) == v
    ensures Shape(p.text, d, trailing)
    ensures Number(p.text) * Pow(10, d) == v * Pow(10, Places(p.text))
  {
    WrittenMeans(p.text, p.decimals, q, d, trailing);
    var left := |q| - Count(p.text);
    StandsMeans(p.text, left, q);
    if d == 0 { PlacesNone(p.text); }
    assert Head(p.text, suffix) == p.text[0];
    ValuesAgree(Number(p.text), left, Places(p.text), d, v);
  }

  /** All digits are written, the highest last. */
  lemma FrontDigit(p: Pen, q: seq<nat>, d: nat, trailing: bool, suffix: string)
    requires Written(p.text, p.decimals, q, d, trailing).Holds? && |q| > 0 && (q[|q| - 1] > 0 || |q| == 1)
    ensures Unfinished(p, suffix) || Neat(p.text)
  {
    WrittenMeans(p.text, p.decimals, q, d, trailing);
    var left := |q| - Count(p.text);
    StandsMeans(p.text, left, q);
    if !Unfinished(p, suffix) {
      assert Head(p.text, suffix) == p.text[0];
      CharBack(q[|q| - 1]);
      if |p.text| == 2 { assert p.text[1..][1..] == ""; }
    }
  }

  lemma ShiftedValue(n: nat, s: seq<nat>)
    ensures Val(Zeros(n) + s, 10) == Val(s, 10) * Pow(10, n)
  {
    ValConcat(Zeros(n), s, 10);
    ValZeros(Zeros(n), 10);
  }

  lemma DroppedValue(k: nat, s: seq<nat>, amount: nat)
    requires Normalized(s, 10) && Val(s, 10) == amount
    ensures amount / Pow(10, k) == if |s| > k then Val(s[k..], 10) else 0
  {
    var p := Pow(10, k);
    if |s| > k {
      ValSplit(s, k, 10);
      ValBound(s[..k], 10);
      DivModUnique(amount, Val(s[k..], 10), Val(s[..k], 10), p);
    } else {
      ValBound(s, 10);
      PowMonotone(10, |s|, k);
      DivModUnique(amount, 0, amount, p);
    }
  }

  /** The end of the text, once all digits q are written. */
  lemma EndMeans(p: Pen, q: seq<nat>, d: nat, trailing: bool, suffix: string, v: nat)
    requires Written(p.text, p.decimals, q, d, trailing).Holds? && p.exponent <= 0 && Val(q, 10) == v
    requires p.exponent < 0 ==> q == [] && p.text == ""
    requires Unfinished(p, suffix) || Neat(p.text)
    ensures var t := Pad(p, trailing, suffix).text;
            Shape(t, d, trailing) && Number(t) * Pow(10, d) == v * Pow(10, Places(t))
  {
    var m := PadWritten(p, q, d, trailing, suffix);
    ValConcat(q, Zeros(m), 10);
    ValZeros(Zeros(m), 10);
    FinishedMeans(Pad(p, trailing, suffix), q + Zeros(m), d, trailing, suffix, v);
  }

  ghost predicate Means(t: string, amount: nat, decimals: nat, exponent: int, trailing: bool) {
    && Shape(t, decimals, trailing)
    && Number(t) * Pow(10, decimals) == Scaled(amount, exponent) * Pow(10, Places(t))
  }

  lemma ScaledZero(exponent: int)
    ensures Scaled(0, exponent) == 0
  {
    if exponent < 0 { DivModUnique(0, 0, 0, Pow(10, -exponent)); }
  }

  /** No digit is dropped. */
  lemma TextUp(amount: nat, d: nat, e: nat, trailing: bool, suffix: string, s: seq<nat>, v: nat)
    requires Normalized(s, 10) && |s| > 0 && Val(s, 10) == amount && (s[|s| - 1] > 0 || (|s| == 1 && e == 0))
    requires v == amount * Pow(10, e)
    ensures var t := Finish(PushZeros(Pen(e, d, ""), trailing), s, trailing, suffix);
            Shape(t, d, trailing) && Number(t) * Pow(10, d) == v * Pow(10, Places(t))
  {
    var p := Pen(e, d, "");
    NothingWritten(d, trailing);
    PushZerosWritten(p, [], e, d, trailing);
    assert [] + Zeros(e) == Zeros(e);
    var p1 := PushZeros(p, trailing);
    PushAllWritten(p1, Zeros(e), s, d, trailing);
    var p2, q := PushAll(p1, s, trailing), Zeros(e) + s;
    assert q[|q| - 1] == s[|s| - 1];
    FrontDigit(p2, q, d, trailing, suffix);
    ShiftedValue(e, s);
    EndMeans(p2, q, d, trailing, suffix, v);
  }

  /** The k lowest digits are dropped. */
  lemma TextDown(amount: nat, d: nat, k: nat, trailing: bool, suffix: string, s: seq<nat>, q: seq<nat>, v: nat)
    requires Normalized(s, 10) && |s| > k > 0 && s[|s| - 1] > 0 && q == s[k..] && Val(q, 10) == v
    ensures var t := Finish(Pen(0 - k, d, ""), s, trailing, suffix);
            Shape(t, d, trailing) && Number(t) * Pow(10, d) == v * Pow(10, Places(t))
  {
    Dropped(k, d, s, trailing);
    NothingWritten(d, trailing);
    PushAllWritten(Pen(0, d, ""), [], q, d, trailing);
    assert [] + q == q && q[|q| - 1] == s[|s| - 1];
    var p := PushAll(Pen(0, d, ""), q, trailing);
    FrontDigit(p, q, d, trailing, suffix);
    EndMeans(p, q, d, trailing, suffix, v);
  }

  /** All digits are dropped. */
  lemma TextZero(d: nat, k: nat, trailing: bool, suffix: string, s: seq<nat>)
    requires Normalized(s, 10) && |s| <= k
    requires Unfinished(Pen(0, d, ""), suffix)
    ensures var t := Finish(Pen(0 - k, d, ""), s, trailing, suffix);
            Shape(t, d, trailing) && Number(t) * Pow(10, d) == 0 * Pow(10, Places(t))
  {
    Dropped(k, d, s, trailing);
    NothingWritten(d, trailing);
    EndMeans(Pen(|s| - k, d, ""), [], d, trailing, suffix, 0);
  }

  lemma TextIsScaled(amount: nat, decimals: nat, exponent: int, trailing: bool, suffix: string)
    ensures var t := Text(amount, decimals, exponent, trailing, suffix);
            if Missing(amount, decimals, exponent, suffix) then t == "" else Means(t, amount, decimals, exponent, trailing)
  {
    var s := DigitsOf(amount, Length(amount));
    LengthExact(amount);
    DigitsValue(amount, Length(amount));
    if amount == 0 {
      ScaledZero(exponent);
      TextUp(0, decimals, 0, trailing, suffix, s, 0);
    } else {
      HighestDigit(amount);
      if exponent >= 0 {
        TextUp(amount, decimals, exponent, trailing, suffix, s, Scaled(amount, exponent));
      } else {
        var k := -exponent;
        DroppedValue(k, s, amount);
        if |s| > k {
          PositiveValue(s[k..]);
          TextDown(amount, decimals, k, trailing, suffix, s, s[k..], amount / Pow(10, k));
        } else if Missing(amount, decimals, exponent, suffix) {
          Dropped(k, decimals, s, trailing);
        } else {
          TextZero(decimals, k, trailing, suffix, s);
        }
      }
    }
  }

  lemma PositiveValue(s: seq<nat>)
    requires |s| > 0 && s[|s| - 1] > 0
    ensures Val(s, 10) > 0
  {
    var n := |s| - 1;
    assert s == s[..n] + [s[n]];
    ValSnoc(s[..n], s[n], 10);
    ValNonNegative(s[..n], 10);
    MulPositive(Pow(10, n), s[n]);
  }

  // ------------------------------------------------------------ how the text is read

  /** Reading from left to right: a digit more is ten times the number and the digit. */
  lemma {:induction false} NumberSnoc(t: string, ch: char)
    requires Plain(t) && '0' <= ch <= '9'
    ensures Plain(t + [ch]) && Count(t + [ch]) == Count(t) + 1
    ensures Number(t + [ch]) == 10 * Number(t) + (ch as int - '0' as int)
    ensures Number("") == 0
  {
    if |t| == 0 {
      assert t + [ch] == [ch] && [ch][1..] == "";
    } else {
      NumberSnoc(t[1..], ch);
      assert (t + [ch])[1..] == t[1..] + [ch];
      var p, d := Pow(10, Count(t[1..])), (t[0] as int - '0' as int);
      Assoc(10, d, p);
      Assoc(d, 10, p);
    }
  }

  /** The point does not count. */
  lemma {:induction false} NumberPoint(t: string)
    requires Plain(t)
    ensures Plain(t + ".") && Number(t + ".") == Number(t) && Count(t + ".") == Count(t)
  {
    if |t| == 0 {
      assert t + "." == "." && "."[1..] == "";
    } else {
      NumberPoint(t[1..]);
      assert (t + ".")[1..] == t[1..] + ".";
    }
  }

  lemma {:induction false} NoPoint(t: string)
    requires Plain(t) && Count(t) == |t|
    ensures forall i :: 0 <= i < |t| ==> t[i] != '.'
  {
    if |t| > 0 { NoPoint(t[1..]); }
  }

  /** Where the point is, if there is one. */
  lemma {:induction false} OnePoint(t: string)
    requires Plain(t) && Count(t) == |t| - 1
    ensures Places(t) < |t| && t[|t| - 1 - Places(t)] == '.'
    ensures forall i :: 0 <= i < |t| && i != |t| - 1 - Places(t) ==> t[i] != '.'
  {
    if t[0] == '.' { NoPoint(t[1..]); } else { OnePoint(t[1..]); }
  }

  /**
   The text read as a decimal is the amount times 10^(exponent - decimals), with digits
   below the last decimal dropped: at least one digit, no 0 in front of another digit, a
   point before the decimals and at least one of them, all of them if trailing is set and
   else none that is a last 0.  There is no text at all exactly if no decimals are asked for,
   a negative exponent drops all digits, and the suffix begins with another character than a
   point or a NUL.
   */
  lemma TextMeans(amount: nat, decimals: nat, exponent: int, trailing: bool, suffix: string, t: string)
    requires t == Text(amount, decimals, exponent, trailing, suffix)
    ensures t == "" <==> && decimals == 0 && exponent < 0 && amount > 0 && amount / Pow(10, -exponent) == 0
                         && suffix != "" && suffix[0] != '.' && suffix[0] != '\0'
    ensures t != "" ==>
      && (forall i :: 0 <= i < |t| ==> '0' <= t[i] <= '9' || t[i] == '.')
      && '0' <= t[0] <= '9' && (t[0] == '0' && |t| > 1 ==> t[1] == '.')
      && (decimals == 0 ==> forall i :: 0 <= i < |t| ==> t[i] != '.')
      && (decimals > 0 ==> && 1 <= Places(t) <= decimals && Places(t) < |t| && t[|t| - 1 - Places(t)] == '.'
                           && (forall i :: 0 <= i < |t| && i != |t| - 1 - Places(t) ==> t[i] != '.')
                           && (trailing ==> Places(t) == decimals)
                           && (!trailing ==> t[|t| - 1] != '0' || Places(t) == 1))
      && Number(t) * Pow(10, decimals)
           == (if exponent >= 0 then amount * Pow(10, exponent) else amount / Pow(10, -exponent)) * Pow(10, Places(t))
  {
    TextIsScaled(amount, decimals, exponent, trailing, suffix);
    MissingMeans(amount, decimals, exponent, suffix);
    if t != "" {
      if decimals > 0 { OnePoint(t); } else { NoPoint(t); }
    }
  }

  lemma MissingMeans(amount: nat, decimals: nat, exponent: int, suffix: string)
    ensures Missing(amount, decimals, exponent, suffix) <==>
      && decimals == 0 && exponent < 0 && amount > 0 && amount / Pow(10, -exponent) == 0
      && suffix != "" && suffix[0] != '.' && suffix[0] != '\0'
  {
    assert "" + suffix + ['\0'] == suffix + ['\0'];
  }

  /** Five units without decimals, less one place, with a unit behind: only the unit is written. */
  lemma FiveTenthsMissing(amount: nat, decimals: nat, exponent: int, suffix: string)
    requires amount == 5 && decimals == 0 && exponent == -1 && suffix == " SPC"
    ensures Text(amount, decimals, exponent, false, suffix) == ""
  {
    assert Pow(10, -exponent) == 10 * Pow(10, 0);
    TextMeans(amount, decimals, exponent, false, suffix, Text(amount, decimals, exponent, false, suffix));
  }
}
