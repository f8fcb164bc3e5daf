/**
 Decimal text.  bn_format writes digits from the right; the functions here give the text
 it writes, the lemmas what number that text stands for.
 */
module DecimalSpec {
  import opened Arith
  import opened Limbs

  // ------------------------------------------------------------ digits

  /** The n lowest digits, lowest first. */
  function DigitsOf(x: nat, n: nat): (s: seq<nat>)
    ensures |s| == n && Normalized(s, 10)
  {
    if n == 0 then [] else [x % 10] + DigitsOf(x / 10, n - 1)
  }

  /** How many digits x has. */
  function Length(x: nat): (n: nat)
    ensures n >= 1
  {
    if x < 10 then 1 else 1 + Length(x / 10)
  }

  lemma {:induction false} DigitsValue(x: nat, n: nat)
    requires x < Pow(10, n)
    ensures Val(DigitsOf(x, n), 10) == x
  {
    if n > 0 {
      var p: int := Pow(10, n - 1);
      var h := x / 10;
      DivMod(x, 10);
      if h >= p { MulLe(10, p, h); assert false; }
      DigitsValue(x / 10, n - 1);
      assert DigitsOf(x, n)[1..] == DigitsOf(x / 10, n - 1);
    }
  }

  /** The length is the least number of digits, but for 0, which has one. */
  lemma {:induction false} LengthExact(x: nat)
    ensures x < Pow(10, Length(x)) && (x > 0 ==> Pow(10, Length(x) - 1) <= x)
  {
    if x >= 10 {
      LengthExact(x / 10);
      DivMod(x, 10);
      var p: int, q: int := Pow(10, Length(x / 10)), Pow(10, Length(x / 10) - 1);
      MulLe(10, x / 10 + 1, p);
      MulLe(10, q, x / 10);
    } else {
      assert Pow(10, 1) == 10 * Pow(10, 0);
    }
  }

  /** The highest digit is not 0. */
  lemma {:induction false} HighestDigit(x: nat)
    requires x > 0
    ensures DigitsOf(x, Length(x))[Length(x) - 1] > 0
  {
    if x >= 10 {
      HighestDigit(x / 10);
    }
  }

  /** The length of a number with l in front of n more digits. */
  lemma {:induction false} LengthInFront(x: nat, lo: nat, l: nat, n: nat, p: nat)
    requires p == Pow(10, n) && lo < p && x == lo + p * l && l > 0
    ensures Length(x) == n + Length(l)
    decreases n
  {
    if n > 0 {
      var q: int := Pow(10, n - 1);
      DivMod(lo, 10);
      Assoc(10, q, l);
      MulLe(q, 1, l);
      MulNonNegative(q, l);
      DivModUnique(x, lo / 10 + q * l, lo % 10, 10);
      var h := lo / 10;
      if h >= q { MulLe(10, q, h); assert false; }
      LengthInFront(x / 10, lo / 10, l, n - 1, q);
    }
  }

  // ------------------------------------------------------------ writing from the right

  datatype Pen = Pen(exponent: int, decimals: nat, text: string)

  function DigitChar(n: nat): char
    requires n < 10
  {
    '0' + n as char
  }

  function Put(p: Pen, n: nat, trailing: bool): string
    requires n < 10
  {
    if n > 0 || trailing || p.text != "" || p.decimals <= 1 then [DigitChar(n)] + p.text else p.text
  }

  /** BN_FORMAT_PUSH */
  function Push(p: Pen, n: nat, trailing: bool): Pen
    requires n < 10
  {
    if p.exponent < 0 then p.(exponent := p.exponent + 1)
    else if p.decimals == 0 then p.(text := Put(p, n, trailing))
    else if p.decimals == 1 then p.(decimals := 0, text := "." + Put(p, n, trailing))
    else p.(decimals := p.decimals - 1, text := Put(p, n, trailing))
  }

  function PushAll(p: Pen, s: seq<nat>, trailing: bool): Pen
    requires Normalized(s, 10)
    decreases |s|
  {
    if |s| == 0 then p else PushAll(Push(p, s[0], trailing), s[1..], trailing)
  }

  /** The zeros for a positive exponent. */
  function PushZeros(p: Pen, trailing: bool): Pen
    decreases p.exponent
  {
    if p.exponent <= 0 then p
    else
      var q := Push(p, 0, trailing);
      PushZeros(q.(exponent := p.exponent - 1), trailing)
  }

  /** The first character from the pen on. */
  function Head(text: string, suffix: string): char {
    (text + suffix + ['\0'])[0]
  }

  predicate Unfinished(p: Pen, suffix: string) {
    p.decimals > 0 || Head(p.text, suffix) == '\0' || Head(p.text, suffix) == '.'
  }

  function Debt(p: Pen): nat {
    if p.exponent < 0 then -p.exponent else 0
  }

  function Pad(p: Pen, trailing: bool, suffix: string): Pen
    decreases Debt(p), p.decimals, if Unfinished(p, suffix) then 1 else 0
  {
    if Unfinished(p, suffix) then Pad(Push(p, 0, trailing), trailing, suffix) else p
  }

  /** What is written for the rest of the digits, and in the end. */
  function Finish(p: Pen, s: seq<nat>, trailing: bool, suffix: string): string
    requires Normalized(s, 10)
  {
    Pad(PushAll(p, s, trailing), trailing, suffix).text
  }

  /** The number that bn_format writes between prefix and suffix. */
  function Text(amount: nat, decimals: nat, exponent: int, trailing: bool, suffix: string): string {
    var p := PushZeros(Pen(if amount == 0 then 0 else exponent, decimals, ""), trailing);
    Finish(p, DigitsOf(amount, Length(amount)), trailing, suffix)
  }

  lemma {:induction false} PushAllGrows(p: Pen, s: seq<nat>, trailing: bool)
    requires Normalized(s, 10)
    ensures |p.text| <= |PushAll(p, s, trailing).text|
    decreases |s|
  {
    if |s| > 0 {
      PushAllGrows(Push(p, s[0], trailing), s[1..], trailing);
    }
  }

  lemma {:induction false} PushZerosGrows(p: Pen, trailing: bool)
    ensures |p.text| <= |PushZeros(p, trailing).text|
    decreases p.exponent
  {
    if p.exponent > 0 {
      PushZerosGrows(Push(p, 0, trailing).(exponent := p.exponent - 1), trailing);
    }
  }

  lemma {:induction false} PadGrows(p: Pen, trailing: bool, suffix: string)
    ensures |p.text| <= |Pad(p, trailing, suffix).text|
    decreases Debt(p), p.decimals, if Unfinished(p, suffix) then 1 else 0
  {
    if Unfinished(p, suffix) {
      PadGrows(Push(p, 0, trailing), trailing, suffix);
    }
  }

  /** What is written is not shortened again. */
  lemma FinishGrows(p: Pen, s: seq<nat>, trailing: bool, suffix: string)
    requires Normalized(s, 10)
    ensures |p.text| <= |Finish(p, s, trailing, suffix)|
  {
    PushAllGrows(p, s, trailing);
    PadGrows(PushAll(p, s, trailing), trailing, suffix);
  }

  lemma {:induction false} PushAllConcat(p: Pen, s: seq<nat>, t: seq<nat>, trailing: bool)
    requires Normalized(s, 10) && Normalized(t, 10)
    ensures PushAll(p, s + t, trailing) == PushAll(PushAll(p, s, trailing), t, trailing)
    decreases |s|
  {
    if |s| == 0 {
      assert s + t == t;
    } else {
      assert (s + t)[1..] == s[1..] + t;
      PushAllConcat(Push(p, s[0], trailing), s[1..], t, trailing);
    }
  }
}
