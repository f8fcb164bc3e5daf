/**
 bech32_encode, bech32_decode, cash_encode and cash_decode.  The two codes differ in the
 generators, the separator, the limits and what the checksum covers of the prefix.
 */
module Bech32 {
  import opened Arith
  import opened Words
  import opened Wrappers
  import opened Limbs
  import opened BigEndian
  import opened Polymod
  import opened Checksum
  import opened Bech32Spec

  // ------------------------------------------------------------ single steps

  /** chk = polymod_step(chk) ^ v */
  method Shift(k: Code, chk0: nat, v: nat, ghost s: seq<nat>) returns (chk: nat)
    requires chk0 == Register(k, s)
    ensures chk == Register(k, s + [v])
  {
    RegisterMeans(k, s);
    RegisterMeans(k, s + [v]);
    RunSnoc(k, 1, s, v);
    chk := Xor(Step(k, chk0), v);
  }

  /** chk = polymod_step(chk) */
  method ShiftZero(k: Code, chk0: nat, ghost s: seq<nat>) returns (chk: nat)
    requires chk0 == Register(k, s)
    ensures chk == Register(k, s + [0])
  {
    RegisterMeans(k, s);
    RegisterMeans(k, s + [0]);
    RunSnoc(k, 1, s, 0);
    chk := Step(k, chk0);
    assert Xor(chk, 0) == chk;
  }

  /** *(output++) = charset[v] */
  method Put(t0: string, v: nat, ghost s: seq<nat>) returns (t: string)
    requires v < 32 && Symbols(s) && t0 == Chars(s)
    ensures Symbols(s + [v]) && t == Chars(s + [v])
  {
    CharMeans(v);
    t := t0 + [CharTable(v)];
  }

  /** The lookup in the reverse table. */
  method Lookup(ch: char) returns (v: int)
    ensures v == SymbolOf(ch)
  {
    SymbolMeans(ch);
    v := SymbolTable(ch);
  }

  // ------------------------------------------------------------ the prefix

  predicate Printable(ch: char) {
    33 <= ch as int <= 126
  }

  /** The next prefix character, as the encoder checks it. */
  method PrefixChar(k: Code, hrp: string, i: nat, chk0: nat) returns (ok: bool, chk: nat)
    requires i < |hrp| && InRange(hrp[..i]) && (k.Bech32? ==> NoUpper(hrp[..i]))
    requires chk0 == Register(k, Parts(k, hrp[..i]))
    ensures ok <==> InRange(hrp[..i + 1]) && (k.Bech32? ==> NoUpper(hrp[..i + 1]))
    ensures ok ==> chk == Register(k, Parts(k, hrp[..i + 1]))
  {
    var ch := hrp[i];
    PrefixSnoc(k, hrp, i);
    if ch as int < 33 || ch as int > 126 {
      return false, chk0;
    }
    if k.Bech32? && 'A' <= ch <= 'Z' {
      return false, chk0;
    }
    chk := Shift(k, chk0, PartOf(k, ch), Parts(k, hrp[..i]));
    ok := true;
  }

  lemma PrefixSnoc(k: Code, hrp: string, i: nat)
    requires i < |hrp| && InRange(hrp[..i])
    ensures InRange(hrp[..i + 1]) <==> Printable(hrp[i])
    ensures NoUpper(hrp[..i + 1]) <==> NoUpper(hrp[..i]) && !IsUpper(hrp[i])
    ensures Printable(hrp[i]) ==> Parts(k, hrp[..i + 1]) == Parts(k, hrp[..i]) + [PartOf(k, hrp[i])]
  {
    var t := hrp[..i + 1];
    assert t[i] == hrp[i];
    assert forall j :: 0 <= j < i ==> t[j] == hrp[..i][j];
  }

  lemma RegisterEmpty(k: Code)
    ensures Register(k, []) == 1
  {
    RegisterMeans(k, []);
  }

  /** The first loop of the encoder. */
  method CheckPrefix(k: Code, hrp: string) returns (ok: bool, chk: nat)
    ensures ok <==> InRange(hrp) && (k.Bech32? ==> NoUpper(hrp))
    ensures ok ==> chk == Register(k, Parts(k, hrp))
  {
    chk := 1;
    var i := 0;
    RegisterEmpty(k);
    assert Parts(k, hrp[..0]) == [];
    while i < |hrp|
      invariant 0 <= i <= |hrp| && InRange(hrp[..i]) && (k.Bech32? ==> NoUpper(hrp[..i]))
      invariant chk == Register(k, Parts(k, hrp[..i]))
    {
      ok, chk := PrefixChar(k, hrp, i, chk);
      if !ok {
        NotAll(k, hrp, i + 1);
        return;
      }
      i := i + 1;
    }
    assert hrp[..i] == hrp;
    ok := true;
  }

  lemma NotAll(k: Code, hrp: string, i: nat)
    requires i <= |hrp| && !(InRange(hrp[..i]) && (k.Bech32? ==> NoUpper(hrp[..i])))
    ensures !(InRange(hrp) && (k.Bech32? ==> NoUpper(hrp)))
  {}

  /** One low part more. */
  method LowPart(k: Code, input: string, i: nat, chk0: nat, ghost before: seq<nat>) returns (chk: nat)
    requires i < |input| && chk0 == Register(k, before + LowParts(input)[..i])
    ensures chk == Register(k, before + LowParts(input)[..i + 1])
  {
    ghost var s := LowParts(input);
    assert before + s[..i + 1] == (before + s[..i]) + [s[i]];
    chk := Shift(k, chk0, input[i] as int % 32, before + s[..i]);
  }

  /** The second loop over a Bech32 prefix. */
  method AddLowParts(k: Code, input: string, chk0: nat, ghost before: seq<nat>) returns (chk: nat)
    requires chk0 == Register(k, before)
    ensures chk == Register(k, before + LowParts(input))
  {
    chk := chk0;
    var i := 0;
    assert before + LowParts(input)[..0] == before;
    while i < |input|
      invariant 0 <= i <= |input| && chk == Register(k, before + LowParts(input)[..i])
    {
      chk := LowPart(k, input, i, chk, before);
      i := i + 1;
    }
    assert LowParts(input)[..i] == LowParts(input);
  }

  /** From the first loop to the separator. */
  method FinishPrefix(k: Code, input: string, chk0: nat, ghost hrp: string) returns (chk: nat)
    requires InRange(hrp) && LowParts(input) == LowParts(hrp) && chk0 == Register(k, Parts(k, hrp))
    ensures chk == Register(k, Expand(k, hrp))
  {
    chk := ShiftZero(k, chk0, Parts(k, hrp));
    if k.Bech32? {
      chk := AddLowParts(k, input, chk, Parts(k, hrp) + [0]);
    } else {
      assert Parts(k, hrp) + [0] + [] == Parts(k, hrp) + [0];
    }
  }

  // ------------------------------------------------------------ encoding

  method DataSymbol(k: Code, data: seq<nat>, i: nat, chk0: nat, t0: string, ghost before: seq<nat>)
    returns (ok: bool, chk: nat, t: string)
    requires i < |data| && Symbols(data[..i]) && t0 == Chars(data[..i]) && chk0 == Register(k, before + data[..i])
    ensures ok <==> data[i] < 32
    ensures ok ==> Symbols(data[..i + 1]) && t == Chars(data[..i + 1]) && chk == Register(k, before + data[..i + 1])
  {
    if data[i] / 32 != 0 {
      return false, chk0, t0;
    }
    assert data[..i + 1] == data[..i] + [data[i]];
    assert before + data[..i + 1] == (before + data[..i]) + [data[i]];
    chk := Shift(k, chk0, data[i], before + data[..i]);
    t := Put(t0, data[i], data[..i]);
    ok := true;
  }

  /** The symbols' characters, and their part of the checksum. */
  method AddData(k: Code, data: seq<nat>, chk0: nat, ghost before: seq<nat>) returns (ok: bool, chk: nat, t: string)
    requires chk0 == Register(k, before)
    ensures ok <==> Symbols(data)
    ensures ok ==> chk == Register(k, before + data) && t == Chars(data)
  {
    chk, t := chk0, "";
    var i := 0;
    assert before + data[..0] == before;
    assert Symbols(data[..0]);
    while i < |data|
      invariant 0 <= i <= |data| && Symbols(data[..i]) && t == Chars(data[..i])
      invariant chk == Register(k, before + data[..i])
    {
      ok, chk, t := DataSymbol(k, data, i, chk, t, before);
      if !ok {
        return;
      }
      i := i + 1;
    }
    assert data[..i] == data;
    ok := true;
  }

  method AddZeros(k: Code, chk0: nat, n: nat, ghost s: seq<nat>) returns (chk: nat)
    requires chk0 == Register(k, s)
    ensures chk == Register(k, s + Zeros(n))
  {
    chk := chk0;
    var i := 0;
    assert s + Zeros(0) == s;
    while i < n
      invariant 0 <= i <= n && chk == Register(k, s + Zeros(i))
    {
      chk := ShiftZero(k, chk, s + Zeros(i));
      assert s + Zeros(i + 1) == (s + Zeros(i)) + [0];
      i := i + 1;
    }
  }

  /** charset[(chk >> 5 (n - 1 - i)) & 31] is put. */
  method PutDigit(v: nat, n: nat, i: nat, t0: string) returns (t: string)
    requires v < Pow(32, n) && i < n && t0 == Chars(FixedDigits(v, n)[..i])
    ensures t == Chars(FixedDigits(v, n)[..i + 1])
  {
    ghost var c := FixedDigits(v, n);
    DigitOfBig(c, i);
    assert c[..i + 1] == c[..i] + [c[i]];
    t := Put(t0, (v / Pow(32, n - 1 - i)) % 32, c[..i]);
  }

  /** A digit is the number without the digits after it, modulo the base. */
  lemma {:induction false} DigitOfBig(c: seq<nat>, i: nat)
    requires Symbols(c) && i < |c|
    ensures Big(c, 32) >= 0 && (Big(c, 32) / Pow(32, |c| - 1 - i)) % 32 == c[i]
  {
    BigBound(c, 32);
    var n := |c| - 1;
    BigBound(c[..n], 32);
    if i == n {
      DivModUnique(Big(c, 32), Big(c, 32), 0, 1);
      DivModUnique(Big(c, 32), Big(c[..n], 32), c[n], 32);
    } else {
      DigitOfBig(c[..n], i);
      DivModUnique(Big(c, 32), Big(c[..n], 32), c[n], 32);
      DivDiv(Big(c, 32), 32, Pow(32, n - 1 - i));
    }
  }

  method PutDigits(v: nat, n: nat) returns (t: string)
    requires v < Pow(32, n)
    ensures t == Chars(FixedDigits(v, n))
  {
    t := "";
    var i := 0;
    assert Symbols(FixedDigits(v, n)[..0]);
    while i < n
      invariant 0 <= i <= n && t == Chars(FixedDigits(v, n)[..i])
    {
      t := PutDigit(v, n, i, t);
      i := i + 1;
    }
    assert FixedDigits(v, n)[..i] == FixedDigits(v, n);
  }

  /** The checksum's characters. */
  method PutChecksum(k: Code, chk0: nat, ghost s: seq<nat>) returns (t: string)
    requires Symbols(s) && chk0 == Register(k, s)
    ensures t == Chars(ChecksumOf(k, s))
  {
    var n := Count(k);
    var chk := AddZeros(k, chk0, n, s);
    ChecksumFits(k, s);
    chk := Xor(chk, 1);
    t := PutDigits(chk, n);
  }

  /** bech32_encode and cash_encode, with the written characters as the result. */
  method Encode(k: Code, hrp: string, data: seq<nat>) returns (output: Option<string>)
    ensures output.Some? <==> Encodable(k, hrp, data)
    ensures output.Some? ==> output.value == Encoding(k, hrp, data)
  {
    var ok, chk := CheckPrefix(k, hrp);
    if !ok {
      return None;
    }
    if |hrp| + 1 + |data| + Count(k) > MaxSize(k) {
      return None;
    }
    ghost var e := Expand(k, hrp);
    chk := FinishPrefix(k, hrp, chk, hrp);
    var t: string;
    ok, chk, t := AddData(k, data, chk, e);
    if !ok {
      return None;
    }
    var c := PutChecksum(k, chk, e + data);
    CharsJoin(data, ChecksumOf(k, e + data));
    return Some(hrp + [Separator(k)] + (t + c));
  }

  lemma CharsJoin(s: seq<nat>, t: seq<nat>)
    requires Symbols(s) && Symbols(t)
    ensures Chars(s) + Chars(t) == Chars(s + t)
  {}

  // ------------------------------------------------------------ decoding

  /** Which cases have been seen. */
  ghost predicate Seen(lower: bool, upper: bool, t: string) {
    (lower <==> !NoLower(t)) && (upper <==> !NoUpper(t))
  }

  method See(ch: char, lower: bool, upper: bool, ghost t: string) returns (lower': bool, upper': bool)
    requires Seen(lower, upper, t)
    ensures Seen(lower', upper', t + [ch])
  {
    lower' := lower || 'a' <= ch <= 'z';
    upper' := upper || 'A' <= ch <= 'Z';
    SeeOne(ch, t);
  }

  lemma SeeOne(ch: char, t: string)
    ensures NoLower(t + [ch]) <==> NoLower(t) && !IsLower(ch)
    ensures NoUpper(t + [ch]) <==> NoUpper(t) && !IsUpper(ch)
  {
    assert (t + [ch])[|t|] == ch;
    assert forall i :: 0 <= i < |t| ==> (t + [ch])[i] == t[i];
  }

  /** The number of characters after the last separator. */
  method AfterSeparator(k: Code, input: string) returns (d: nat)
    ensures d <= |input| && forall i :: |input| - d <= i < |input| ==> input[i] != Separator(k)
    ensures d < |input| ==> input[|input| - 1 - d] == Separator(k)
  {
    d := 0;
    while d < |input| && input[|input| - 1 - d] != Separator(k)
      invariant 0 <= d <= |input| && forall i :: |input| - d <= i < |input| ==> input[i] != Separator(k)
    {
      d := d + 1;
    }
  }

  /** The next prefix character, as the decoder reads it. */
  method ReadPrefixChar(k: Code, t: string, i: nat, chk0: nat, hrp0: string, lower0: bool, upper0: bool)
    returns (ok: bool, chk: nat, hrp: string, lower: bool, upper: bool)
    requires i < |t| && InRange(t[..i]) && hrp0 == LowerAll(t[..i]) && InRange(hrp0)
    requires chk0 == Register(k, Parts(k, hrp0)) && Seen(lower0, upper0, t[..i])
    ensures ok <==> Printable(t[i])
    ensures ok ==> InRange(t[..i + 1]) && hrp == LowerAll(t[..i + 1]) && InRange(hrp)
    ensures ok ==> chk == Register(k, Parts(k, hrp)) && Seen(lower, upper, t[..i + 1])
  {
    var ch := t[i];
    if ch as int < 33 || ch as int > 126 {
      return false, chk0, hrp0, lower0, upper0;
    }
    assert t[..i + 1] == t[..i] + [ch];
    lower, upper := See(ch, lower0, upper0, t[..i]);
    hrp := hrp0 + [Lower(ch)];
    assert hrp == LowerAll(t[..i + 1]);
    assert Parts(k, hrp) == Parts(k, hrp0) + [PartOf(k, Lower(ch))];
    chk := Shift(k, chk0, PartOf(k, Lower(ch)), Parts(k, hrp0));
    ok := true;
  }

  method ReadPrefix(k: Code, t: string) returns (ok: bool, chk: nat, hrp: string, lower: bool, upper: bool)
    ensures ok <==> InRange(t)
    ensures ok ==> hrp == LowerAll(t) && InRange(hrp) && chk == Register(k, Expand(k, hrp)) && Seen(lower, upper, t)
  {
    chk, hrp, lower, upper := 1, "", false, false;
    var i := 0;
    RegisterEmpty(k);
    assert t[..0] == [] && Parts(k, "") == [];
    while i < |t|
      invariant 0 <= i <= |t| && InRange(t[..i]) && hrp == LowerAll(t[..i]) && InRange(hrp)
      invariant chk == Register(k, Parts(k, hrp)) && Seen(lower, upper, t[..i])
    {
      ok, chk, hrp, lower, upper := ReadPrefixChar(k, t, i, chk, hrp, lower, upper);
      if !ok {
        return;
      }
      i := i + 1;
    }
    assert t[..i] == t;
    SameLowParts(t);
    chk := FinishPrefix(k, t, chk, hrp);
    ok := true;
  }

  lemma SameLowParts(t: string)
    ensures LowParts(t) == LowParts(LowerAll(t))
  {
    forall i | 0 <= i < |t| ensures LowParts(t)[i] == LowParts(LowerAll(t))[i] { LowerLow(t[i]); }
  }

  /** The next symbol; only those before the checksum are stored. */
  method ReadSymbol(k: Code, t: string, i: nat, chk0: nat, data0: seq<nat>, ghost before: seq<nat>)
    returns (ok: bool, chk: nat, data: seq<nat>)
    requires i < |t| && Count(k) <= |t| && AllSymbols(t[..i])
    requires chk0 == Register(k, before + SymbolsOf(t[..i])) && data0 == Stored(k, t, i)
    ensures ok <==> SymbolOf(t[i]) >= 0
    ensures ok ==> AllSymbols(t[..i + 1])
    ensures ok ==> chk == Register(k, before + SymbolsOf(t[..i + 1])) && data == Stored(k, t, i + 1)
  {
    var v := Lookup(t[i]);
    if v == -1 {
      return false, chk0, data0;
    }
    ghost var s := SymbolsOf(t[..i]);
    SymbolSnoc(t, i, v, before);
    chk := Shift(k, chk0, v, before + s);
    data := if i + Count(k) < |t| then data0 + [v] else data0;
    StoredSnoc(k, t, i, v, data0);
    ok := true;
  }

  lemma SymbolSnoc(t: string, i: nat, v: nat, before: seq<nat>)
    requires i < |t| && AllSymbols(t[..i]) && SymbolOf(t[i]) == v
    ensures AllSymbols(t[..i + 1]) && SymbolsOf(t[..i + 1]) == SymbolsOf(t[..i]) + [v]
    ensures before + SymbolsOf(t[..i + 1]) == (before + SymbolsOf(t[..i])) + [v]
  {
    assert t[..i + 1] == t[..i] + [t[i]];
  }

  /** The symbols stored after the first i characters. */
  ghost function Stored(k: Code, t: string, i: nat): seq<nat>
    requires i <= |t| && Count(k) <= |t| && AllSymbols(t[..i])
  {
    if i <= |t| - Count(k) then SymbolsOf(t[..i]) else SymbolsOf(t[..i])[..|t| - Count(k)]
  }

  lemma StoredSnoc(k: Code, t: string, i: nat, v: nat, data: seq<nat>)
    requires i < |t| && Count(k) <= |t| && AllSymbols(t[..i]) && AllSymbols(t[..i + 1])
    requires SymbolsOf(t[..i + 1]) == SymbolsOf(t[..i]) + [v] && data == Stored(k, t, i)
    ensures Stored(k, t, i + 1) == if i + Count(k) < |t| then data + [v] else data
  {}

  method ReadSymbols(k: Code, t: string, chk0: nat, lower0: bool, upper0: bool, ghost before: seq<nat>, ghost hrp: string)
    returns (ok: bool, chk: nat, data: seq<nat>, lower: bool, upper: bool)
    requires Count(k) <= |t| && Seen(lower0, upper0, hrp) && chk0 == Register(k, before)
    ensures ok <==> AllSymbols(t)
    ensures ok ==> chk == Register(k, before + SymbolsOf(t)) && Seen(lower, upper, hrp + t)
    ensures ok ==> data == SymbolsOf(t)[..|t| - Count(k)]
  {
    chk, data, lower, upper := chk0, [], lower0, upper0;
    var i := 0;
    assert t[..0] == [] && hrp + t[..0] == hrp && SymbolsOf(t[..0]) == [] && before + [] == before;
    while i < |t|
      invariant 0 <= i <= |t| && AllSymbols(t[..i]) && Seen(lower, upper, hrp + t[..i])
      invariant chk == Register(k, before + SymbolsOf(t[..i])) && data == Stored(k, t, i)
    {
      assert hrp + t[..i + 1] == (hrp + t[..i]) + [t[i]];
      lower, upper := See(t[i], lower, upper, hrp + t[..i]);
      ok, chk, data := ReadSymbol(k, t, i, chk, data, before);
      if !ok {
        return;
      }
      i := i + 1;
    }
    assert t[..i] == t;
    ok := true;
  }

  /** The limits on where the separator is. */
  predicate Limits(k: Code, n: nat, d: nat) {
    1 + d < n && (k.CashAddr? ==> n - 1 - d <= 20 && d <= 112) && d >= Count(k)
  }

  lemma OnlySeparator(k: Code, input: string, d: nat)
    requires d < |input| && input[|input| - 1 - d] == Separator(k)
    requires forall i :: |input| - d <= i < |input| ==> input[i] != Separator(k)
    ensures Accepted(k, input) ==> AcceptedAt(k, input, |input| - 1 - d)
  {
    var p := |input| - 1 - d;
    forall q: nat | AcceptedAt(k, input, q) ensures q == p { SeparatorUnique(k, input, p, q); }
  }

  /**
   bech32_decode and cash_decode: the prefix in lower case and the symbols before the
   checksum, for exactly the accepted strings.
   */
  method Decode(k: Code, input: string) returns (output: Option<Decoded>)
    ensures output.Some? <==> Accepted(k, input)
    ensures output.Some? ==> DecodesTo(k, input, output.value)
  {
    if |input| < 8 || |input| > MaxSize(k) {
      return None;
    }
    var d := AfterSeparator(k, input);
    if d == |input| {
      return None;
    }
    OnlySeparator(k, input, d);
    if !Limits(k, |input|, d) {
      return None;
    }
    output := DecodeAt(k, input, |input| - 1 - d);
    if output.Some? { DecodesMeans(k, input, output.value); }
  }

  method DecodeAt(k: Code, input: string, p: nat) returns (output: Option<Decoded>)
    requires SeparatedAt(k, input, p) && 8 <= |input| <= MaxSize(k) && Limits(k, |input|, |input| - 1 - p)
    ensures output.Some? <==> AcceptedAt(k, input, p)
    ensures output.Some? ==> output.value == Result(k, input, p)
  {
    var ok, chk, hrp, lower, upper := ReadPrefix(k, input[..p]);
    if !ok {
      return None;
    }
    var data: seq<nat>;
    ok, chk, data, lower, upper := ReadSymbols(k, input[p + 1..], chk, lower, upper, Expand(k, hrp), input[..p]);
    if !ok {
      return None;
    }
    AcceptedWhen(k, input, p, hrp, lower, upper, chk);
    if lower && upper {
      return None;
    }
    if chk != 1 {
      return None;
    }
    return Some(Decoded(hrp, data));
  }

  lemma AcceptedWhen(k: Code, input: string, p: nat, hrp: string, lower: bool, upper: bool, chk: nat)
    requires SeparatedAt(k, input, p) && 8 <= |input| <= MaxSize(k) && Limits(k, |input|, |input| - 1 - p)
    requires InRange(input[..p]) && AllSymbols(input[p + 1..]) && hrp == LowerAll(input[..p]) && InRange(hrp)
    requires Seen(lower, upper, input[..p] + input[p + 1..])
    requires chk == Register(k, Expand(k, hrp) + SymbolsOf(input[p + 1..]))
    ensures AcceptedAt(k, input, p) <==> !(lower && upper) && chk == 1
  {}
}
