/** Bech32 and CashAddr strings: a prefix, a separator, and symbols with a checksum. */
module Bech32Spec {
  import opened Arith
  import opened Words
  import opened Wrappers
  import opened Limbs
  import opened BigEndian
  import opened Polymod
  import opened Checksum

  /** The prefix, in lower case, and the symbols before the checksum. */
  datatype Decoded = Decoded(hrp: string, data: seq<nat>)

  function CharTable(v: nat): char
    requires v < 32
  {
    match v
    case 0 => 'q' case 1 => 'p' case 2 => 'z' case 3 => 'r' case 4 => 'y' case 5 => '9' case 6 => 'x' case 7 => '8'
    case 8 => 'g' case 9 => 'f' case 10 => '2' case 11 => 't' case 12 => 'v' case 13 => 'd' case 14 => 'w' case 15 => '0'
    case 16 => 's' case 17 => '3' case 18 => 'j' case 19 => 'n' case 20 => '5' case 21 => '4' case 22 => 'k' case 23 => 'h'
    case 24 => 'c' case 25 => 'e' case 26 => '6' case 27 => 'm' case 28 => 'u' case 29 => 'a' case 30 => '7' case _ => 'l'
  }

  predicate IsUpper(ch: char) { 'A' <= ch <= 'Z' }
  predicate IsLower(ch: char) { 'a' <= ch <= 'z' }

  function Lower(ch: char): char {
    if IsUpper(ch) then (ch as int - 'A' as int + 'a' as int) as char else ch
  }

  /** The table of symbols, either case, as cases; -1 for any other character. */
  function SymbolTable(ch: char): (v: int)
    ensures -1 <= v < 32
  {
    match Lower(ch)
    case 'q' => 0 case 'p' => 1 case 'z' => 2 case 'r' => 3 case 'y' => 4 case '9' => 5 case 'x' => 6 case '8' => 7
    case 'g' => 8 case 'f' => 9 case '2' => 10 case 't' => 11 case 'v' => 12 case 'd' => 13 case 'w' => 14 case '0' => 15
    case 's' => 16 case '3' => 17 case 'j' => 18 case 'n' => 19 case '5' => 20 case '4' => 21 case 'k' => 22 case 'h' => 23
    case 'c' => 24 case 'e' => 25 case '6' => 26 case 'm' => 27 case 'u' => 28 case 'a' => 29 case '7' => 30 case 'l' => 31
    case _ => -1
  }

  lemma TablesInverse(v: nat, ch: char)
    requires v < 32
    ensures SymbolTable(CharTable(v)) == v && !IsUpper(CharTable(v)) && CharTable(v) != '1' && CharTable(v) != ':'
    ensures SymbolTable(ch) >= 0 ==> CharTable(SymbolTable(ch)) == Lower(ch) && ch != '1' && ch != ':'
  {}

  /** The symbols' characters are those of the character set, in its order. */
  lemma CharsetMeans(v: nat, charset: string)
    requires v < 32 && charset == "qpzry9x8gf2tvdw0s3jn54khce6mua7l"
    ensures |charset| == 32 && CharTable(v) == charset[v]
  {}

  ghost function CharIn(depth: nat, v: nat): char
    requires v < 32
  {
    if depth > 0 then CharIn(depth - 1, v) else CharTable(v)
  }

  /** The symbol's character; folded (see Arith). */
  ghost function CharOf(v: nat): char
    requires v < 32
  {
    CharIn(FOLDS, v)
  }

  ghost function SymbolIn(depth: nat, ch: char): (v: int)
    ensures -1 <= v < 32
  {
    if depth > 0 then SymbolIn(depth - 1, ch) else SymbolTable(ch)
  }

  /** The character's symbol, or -1; folded. */
  ghost function SymbolOf(ch: char): (v: int)
    ensures -1 <= v < 32
  {
    SymbolIn(FOLDS, ch)
  }

  lemma {:induction false} CharInMeans(depth: nat, v: nat)
    requires v < 32
    ensures CharIn(depth, v) == CharTable(v)
  {
    if depth > 0 { CharInMeans(depth - 1, v); }
  }

  lemma CharMeans(v: nat)
    requires v < 32
    ensures CharOf(v) == CharTable(v)
  {
    CharInMeans(FOLDS, v);
  }

  lemma {:induction false} SymbolInMeans(depth: nat, ch: char)
    ensures SymbolIn(depth, ch) == SymbolTable(ch)
  {
    if depth > 0 { SymbolInMeans(depth - 1, ch); }
  }

  lemma SymbolMeans(ch: char)
    ensures SymbolOf(ch) == SymbolTable(ch)
  {
    SymbolInMeans(FOLDS, ch);
  }

  lemma SymbolOfChar(v: nat)
    requires v < 32
    ensures SymbolOf(CharOf(v)) == v && !IsUpper(CharOf(v)) && CharOf(v) != '1' && CharOf(v) != ':'
  {
    CharMeans(v);
    SymbolMeans(CharOf(v));
    TablesInverse(v, CharOf(v));
  }

  ghost function Chars(s: seq<nat>): (t: string)
    requires Symbols(s)
    ensures |t| == |s| && forall i :: 0 <= i < |s| ==> t[i] == CharOf(s[i])
  {
    seq(|s|, i requires 0 <= i < |s| && Symbols(s) => CharOf(s[i]))
  }

  ghost predicate AllSymbols(t: string) {
    forall i :: 0 <= i < |t| ==> SymbolOf(t[i]) >= 0
  }

  ghost function SymbolsOf(t: string): (s: seq<nat>)
    requires AllSymbols(t)
    ensures |s| == |t| && Symbols(s) && forall i :: 0 <= i < |t| ==> s[i] == SymbolOf(t[i])
  {
    seq(|t|, i requires 0 <= i < |t| && AllSymbols(t) => SymbolOf(t[i]))
  }

  function LowerAll(t: string): (s: string)
    ensures |s| == |t| && forall i :: 0 <= i < |t| ==> s[i] == Lower(t[i])
  {
    seq(|t|, i requires 0 <= i < |t| => Lower(t[i]))
  }

  predicate NoUpper(t: string) {
    forall i :: 0 <= i < |t| ==> !IsUpper(t[i])
  }

  predicate NoLower(t: string) {
    forall i :: 0 <= i < |t| ==> !IsLower(t[i])
  }

  /** The printable characters a prefix may have. */
  predicate InRange(t: string) {
    forall i :: 0 <= i < |t| ==> 33 <= t[i] as int <= 126
  }

  function Separator(k: Code): char {
    if k.Bech32? then '1' else ':'
  }

  function MaxSize(k: Code): nat {
    if k.Bech32? then 90 else 129
  }

  /** What the checksum takes first of a prefix character: the high bits, or for CashAddr the low ones. */
  function PartOf(k: Code, ch: char): (v: nat)
    requires 33 <= ch as int <= 126
    ensures v < 32
  {
    if k.Bech32? then ch as int / 32 else ch as int % 32
  }

  function Parts(k: Code, hrp: string): (s: seq<nat>)
    requires InRange(hrp)
    ensures |s| == |hrp| && Symbols(s) && forall i :: 0 <= i < |s| ==> s[i] == PartOf(k, hrp[i])
  {
    seq(|hrp|, i requires 0 <= i < |hrp| && InRange(hrp) => PartOf(k, hrp[i]))
  }

  /** What the checksum covers of the prefix. */
  function Expand(k: Code, hrp: string): (s: seq<nat>)
    requires InRange(hrp)
    ensures Symbols(s)
  {
    Parts(k, hrp) + [0] + (if k.Bech32? then LowParts(hrp) else [])
  }

  function LowParts(hrp: string): (s: seq<nat>)
    ensures |s| == |hrp| && Symbols(s) && forall i :: 0 <= i < |s| ==> s[i] == hrp[i] as int % 32
  {
    seq(|hrp|, i requires 0 <= i < |hrp| => hrp[i] as int % 32)
  }

  /** Case does not matter to the low part. */
  lemma LowerLow(ch: char)
    ensures Lower(ch) as int % 32 == ch as int % 32
  {}

  // ------------------------------------------------------------ encoding

  predicate Encodable(k: Code, hrp: string, data: seq<nat>) {
    && InRange(hrp) && (k.Bech32? ==> NoUpper(hrp)) && Symbols(data)
    && |hrp| + 1 + |data| + Count(k) <= MaxSize(k)
  }

  /** The string for a prefix and symbols. */
  ghost function Encoding(k: Code, hrp: string, data: seq<nat>): string
    requires Encodable(k, hrp, data)
  {
    hrp + [Separator(k)] + Chars(data + ChecksumOf(k, Expand(k, hrp) + data))
  }

  // ------------------------------------------------------------ decoding

  /** The position of the last separator. */
  ghost predicate SeparatedAt(k: Code, input: string, p: nat) {
    p < |input| && input[p] == Separator(k) && forall i :: p < i < |input| ==> input[i] != Separator(k)
  }

  /** The input is accepted with the prefix before position p. */
  ghost predicate AcceptedAt(k: Code, input: string, p: nat) {
    && 8 <= |input| <= MaxSize(k) && SeparatedAt(k, input, p) && p >= 1 && |input| - 1 - p >= Count(k)
    && (k.CashAddr? ==> p <= 20 && |input| - 1 - p <= 112)
    && InRange(input[..p]) && AllSymbols(input[p + 1..])
    && (NoUpper(input[..p] + input[p + 1..]) || NoLower(input[..p] + input[p + 1..]))
    && InRange(LowerAll(input[..p]))
    && Register(k, Expand(k, LowerAll(input[..p])) + SymbolsOf(input[p + 1..])) == 1
  }

  ghost predicate Accepted(k: Code, input: string) {
    exists p: nat :: AcceptedAt(k, input, p)
  }

  ghost function Result(k: Code, input: string, p: nat): Decoded
    requires AcceptedAt(k, input, p)
  {
    Decoded(LowerAll(input[..p]), SymbolsOf(input[p + 1..])[..|input| - 1 - p - Count(k)])
  }

  lemma SeparatorUnique(k: Code, input: string, p: nat, q: nat)
    requires SeparatedAt(k, input, p) && SeparatedAt(k, input, q)
    ensures p == q
  {}

  // ------------------------------------------------------------ what the two promise

  /** What decoding an encoding needs beyond encoding it. */
  predicate Decodable(k: Code, hrp: string, data: seq<nat>) {
    hrp != "" && NoUpper(hrp) && (k.CashAddr? ==> |hrp| <= 20 && |data| <= 104)
  }

  /** The parts of a string of a prefix, a separator and symbols. */
  lemma StringParts(k: Code, hrp: string, s: seq<nat>, t: string)
    requires Symbols(s) && t == hrp + [Separator(k)] + Chars(s)
    ensures var p := |hrp|; |t| == p + 1 + |s| && t[..p] == hrp && t[p + 1..] == Chars(s) && SeparatedAt(k, t, p)
  {
    var p := |hrp|;
    assert t[..p] == hrp && t[p + 1..] == Chars(s);
    forall i | p < i < |t| ensures t[i] != Separator(k) {
      assert t[i] == Chars(s)[i - p - 1];
      SymbolOfChar(s[i - p - 1]);
    }
  }

  /** The parts of an encoding. */
  lemma EncodingParts(k: Code, hrp: string, data: seq<nat>) returns (c: seq<nat>)
    requires Encodable(k, hrp, data)
    ensures var t := Encoding(k, hrp, data); var p := |hrp|;
      && |t| == p + 1 + |data| + Count(k) && t[..p] == hrp && SeparatedAt(k, t, p)
      && Symbols(data + c) && t[p + 1..] == Chars(data + c)
    ensures |c| == Count(k) && Register(k, Expand(k, hrp) + (data + c)) == 1
  {
    c := ChecksumOf(k, Expand(k, hrp) + data);
    assert (Expand(k, hrp) + data) + c == Expand(k, hrp) + (data + c);
    StringParts(k, hrp, data + c, Encoding(k, hrp, data));
  }

  lemma CharsAreSymbols(s: seq<nat>)
    requires Symbols(s)
    ensures AllSymbols(Chars(s)) && SymbolsOf(Chars(s)) == s && NoUpper(Chars(s))
  {
    forall i | 0 <= i < |s| ensures SymbolOf(Chars(s)[i]) == s[i] && !IsUpper(Chars(s)[i]) { SymbolOfChar(s[i]); }
  }

  lemma LowerUnchanged(t: string)
    ensures LowerAll(t) == t <==> NoUpper(t)
  {
    if LowerAll(t) == t {
      forall i | 0 <= i < |t| ensures !IsUpper(t[i]) { assert LowerAll(t)[i] == Lower(t[i]); }
    }
  }

  /** Decoding an encoding restores the prefix and the symbols exactly when they are decodable. */
  lemma RoundTrip(k: Code, hrp: string, data: seq<nat>)
    requires Encodable(k, hrp, data)
    ensures DecodesTo(k, Encoding(k, hrp, data), Decoded(hrp, data)) <==> Decodable(k, hrp, data)
  {
    var t := Encoding(k, hrp, data);
    var c := EncodingParts(k, hrp, data);
    LowerUnchanged(hrp);
    if Decodable(k, hrp, data) {
      CharsAreSymbols(data + c);
      EncodingAccepted(k, hrp, data, c, t);
    } else if DecodesTo(k, t, Decoded(hrp, data)) {
      NotRestored(k, hrp, data, t);
      assert false;
    }
  }

  lemma NotRestored(k: Code, hrp: string, data: seq<nat>, t: string)
    requires !Decodable(k, hrp, data) && (LowerAll(hrp) == hrp <==> NoUpper(hrp))
    requires |t| == |hrp| + 1 + |data| + Count(k) && t[..|hrp|] == hrp && SeparatedAt(k, t, |hrp|)
    ensures !DecodesTo(k, t, Decoded(hrp, data))
  {
    DecodesMeans(k, t, Decoded(hrp, data));
    forall q: nat | AcceptedAt(k, t, q) ensures Result(k, t, q) != Decoded(hrp, data) {
      SeparatorUnique(k, t, |hrp|, q);
    }
  }

  /** An empty prefix is encoded, but what is written is not decoded. */
  lemma EmptyPrefixLost(k: Code, data: seq<nat>)
    requires Symbols(data) && 1 + |data| + Count(k) <= MaxSize(k)
    ensures Encodable(k, "", data) && !DecodesTo(k, Encoding(k, "", data), Decoded("", data))
  {
    RoundTrip(k, "", data);
  }

  /** A CashAddr prefix in upper case is encoded, but not restored. */
  lemma UpperPrefixLost()
    ensures Encodable(CashAddr, "A", []) && !DecodesTo(CashAddr, Encoding(CashAddr, "A", []), Decoded("A", []))
  {
    RoundTrip(CashAddr, "A", []);
    assert IsUpper("A"[0]);
  }

  ghost predicate DecodesIn(depth: nat, k: Code, input: string, d: Decoded) {
    if depth > 0 then DecodesIn(depth - 1, k, input, d)
    else exists p: nat :: AcceptedAt(k, input, p) && Result(k, input, p) == d
  }

  /** The input is accepted and stands for d; folded (see Arith), DecodesMeans unfolds it. */
  ghost predicate DecodesTo(k: Code, input: string, d: Decoded) {
    DecodesIn(FOLDS, k, input, d)
  }

  lemma {:induction false} DecodesInMeans(depth: nat, k: Code, input: string, d: Decoded)
    ensures DecodesIn(depth, k, input, d) <==> exists p: nat :: AcceptedAt(k, input, p) && Result(k, input, p) == d
  {
    if depth > 0 { DecodesInMeans(depth - 1, k, input, d); }
  }

  lemma DecodesMeans(k: Code, input: string, d: Decoded)
    ensures DecodesTo(k, input, d) <==> exists p: nat :: AcceptedAt(k, input, p) && Result(k, input, p) == d
  {
    DecodesInMeans(FOLDS, k, input, d);
  }

  lemma EncodingAccepted(k: Code, hrp: string, data: seq<nat>, c: seq<nat>, t: string)
    requires Encodable(k, hrp, data) && Decodable(k, hrp, data) && LowerAll(hrp) == hrp
    requires |c| == Count(k) && Symbols(data + c) && Register(k, Expand(k, hrp) + (data + c)) == 1
    requires |t| == |hrp| + 1 + |data| + Count(k) && t[..|hrp|] == hrp && SeparatedAt(k, t, |hrp|)
    requires t[|hrp| + 1..] == Chars(data + c) && AllSymbols(Chars(data + c)) && SymbolsOf(Chars(data + c)) == data + c
    requires NoUpper(Chars(data + c))
    ensures DecodesTo(k, t, Decoded(hrp, data))
  {
    var p := |hrp|;
    assert NoUpper(t[..p] + t[p + 1..]);
    assert AcceptedAt(k, t, p);
    assert (data + c)[..|data|] == data;
    assert Result(k, t, p) == Decoded(hrp, data);
    DecodesMeans(k, t, Decoded(hrp, data));
  }

  /**
   Two strings with the same prefix whose symbols differ only inside a window as long as
   the checksum cannot both be accepted.
   */
  lemma BurstErrors(k: Code, s: string, t: string, p: nat, i: nat)
    requires AcceptedAt(k, s, p) && AcceptedAt(k, t, p) && |s| == |t| && LowerAll(s[..p]) == LowerAll(t[..p])
    requires forall j :: p < j < |s| && !(i <= j < i + Count(k)) ==> SymbolOf(s[j]) == SymbolOf(t[j])
    ensures SymbolsOf(s[p + 1..]) == SymbolsOf(t[p + 1..])
  {
    var e, x, y := Expand(k, LowerAll(s[..p])), SymbolsOf(s[p + 1..]), SymbolsOf(t[p + 1..]);
    RegisterMeans(k, e + x);
    RegisterMeans(k, e + y);
    RunConcat(k, 1, e, x);
    RunConcat(k, 1, e, y);
    var w := if i <= p then 0 else i - p - 1;
    forall j | 0 <= j < |x| && !(w <= j < w + Count(k)) ensures x[j] == y[j] {
      assert x[j] == SymbolOf(s[p + 1 + j]) && y[j] == SymbolOf(t[p + 1 + j]);
    }
    BurstDetected(k, Run(k, 1, e), x, y, w);
  }

  // ------------------------------------------------------------ the prefix under the checksum

  /** The checksum of Bech32 covers all of the prefix. */
  lemma ExpandInjective(hrp: string, other: string)
    requires InRange(hrp) && InRange(other) && Expand(Code.Bech32, hrp) == Expand(Code.Bech32, other)
    ensures hrp == other
  {
    var k, n := Code.Bech32, |hrp|;
    var e := Expand(k, hrp);
    assert |e| == 2 * |hrp| + 1 == 2 * |other| + 1;
    forall i | 0 <= i < n ensures hrp[i] == other[i] {
      assert e[i] == hrp[i] as int / 32 == other[i] as int / 32;
      assert e[n + 1 + i] == hrp[i] as int % 32 == other[i] as int % 32;
      DivMod(hrp[i] as int, 32);
      DivMod(other[i] as int, 32);
    }
  }

  /** In letters of one case only the low part differs, and it does. */
  lemma LettersApart(a: char, b: char)
    requires IsLower(a) && IsLower(b) && a as int % 32 == b as int % 32
    ensures a == b
  {}

  /** Prefixes of letters differ under the checksum where they differ, and only there. */
  lemma ExpandedApart(k: Code, hrp: string, other: string, j: nat)
    requires InRange(hrp) && InRange(other) && |hrp| == |other| && j < |Expand(k, hrp)|
    requires forall i :: 0 <= i < |hrp| && hrp[i] != other[i] ==> IsLower(hrp[i]) && IsLower(other[i])
    ensures |Expand(k, hrp)| == |Expand(k, other)|
    ensures Expand(k, hrp)[j] != Expand(k, other)[j] ==>
              var i := if k.Bech32? then j - |hrp| - 1 else j; 0 <= i < |hrp| && hrp[i] != other[i]
  {
    var n := |hrp|;
    if k.Bech32? && j < n {
      assert Expand(k, hrp)[j] == hrp[j] as int / 32 && Expand(k, other)[j] == other[j] as int / 32;
    }
  }

  lemma ExpandDetermines(k: Code, x: string, y: string)
    requires InRange(x) && InRange(y) && |x| == |y| && Expand(k, x) == Expand(k, y)
    requires forall i :: 0 <= i < |x| && x[i] != y[i] ==> IsLower(x[i]) && IsLower(y[i])
    ensures x == y
  {
    var n := if k.Bech32? then |x| + 1 else 0;
    forall i | 0 <= i < |x| ensures x[i] == y[i] {
      assert Expand(k, x)[n + i] == x[i] as int % 32 && Expand(k, y)[n + i] == y[i] as int % 32;
      if x[i] != y[i] { LettersApart(x[i], y[i]); }
    }
  }

  /** Such prefixes before the same symbols do not both end in 1. */
  lemma PrefixDetected(k: Code, x: string, y: string, d: seq<nat>, w: nat)
    requires InRange(x) && InRange(y) && |x| == |y| && Symbols(d)
    requires forall i :: 0 <= i < |x| && x[i] != y[i] ==> IsLower(x[i]) && IsLower(y[i]) && w <= i < w + Count(k)
    requires Register(k, Expand(k, x) + d) == 1 && Register(k, Expand(k, y) + d) == 1
    ensures x == y
  {
    var e, f := Expand(k, x), Expand(k, y);
    RegisterMeans(k, e + d);
    RegisterMeans(k, f + d);
    var i := if k.Bech32? then |x| + 1 + w else w;
    assert |e| == |f|;
    forall j | 0 <= j < |e + d| && !(i <= j < i + Count(k)) ensures (e + d)[j] == (f + d)[j] {
      if j < |e| { ExpandedApart(k, x, y, j); }
    }
    BurstDetected(k, 1, e + d, f + d, i);
    assert e == (e + d)[..|e|] && f == (f + d)[..|e|];
    ExpandDetermines(k, x, y);
  }

  /**
   Two strings with equal symbols whose prefixes differ only in letters, all of them inside a
   window as long as the checksum, cannot both be accepted: also a typing error in the prefix
   is detected.
   */
  lemma PrefixErrors(k: Code, s: string, t: string, p: nat, w: nat)
    requires AcceptedAt(k, s, p) && AcceptedAt(k, t, p) && |s| == |t|
    requires SymbolsOf(s[p + 1..]) == SymbolsOf(t[p + 1..])
    requires var x, y := LowerAll(s[..p]), LowerAll(t[..p]);
             forall i :: 0 <= i < p && x[i] != y[i] ==> IsLower(x[i]) && IsLower(y[i]) && w <= i < w + Count(k)
    ensures LowerAll(s[..p]) == LowerAll(t[..p])
  {
    PrefixDetected(k, LowerAll(s[..p]), LowerAll(t[..p]), SymbolsOf(s[p + 1..]), w);
  }

  // ------------------------------------------------------------ in the standards' terms

  /** Symbols are written with the characters of the set. */
  lemma CharsMean(s: seq<nat>, i: nat, charset: string)
    requires Symbols(s) && i < |s| && charset == "qpzry9x8gf2tvdw0s3jn54khce6mua7l"
    ensures |charset| == 32 && Chars(s)[i] == charset[s[i]]
  {
    CharMeans(s[i]);
    CharsetMeans(s[i], charset);
  }

  /** The string that encodes: prefix, separator, the symbols' characters, and the equation of the checksum. */
  lemma EncodingMeans(k: Code, hrp: string, data: seq<nat>) returns (c: seq<nat>)
    requires Encodable(k, hrp, data)
    ensures |c| == (if k.Bech32? then 6 else 8) && Symbols(data + c)
    ensures Encoding(k, hrp, data) == hrp + [if k.Bech32? then '1' else ':'] + Chars(data + c)
    ensures Run(k, 1, Expand(k, hrp) + (data + c)) == 1
  {
    c := ChecksumOf(k, Expand(k, hrp) + data);
    assert (Expand(k, hrp) + data) + c == Expand(k, hrp) + (data + c);
    RegisterMeans(k, Expand(k, hrp) + (data + c));
  }

  /** BIP-173: the high bits of the prefix, a zero, its low bits; CashAddr: its low bits and a zero. */
  lemma ExpandMeans(hrp: string, i: nat)
    requires InRange(hrp) && i < |hrp|
    ensures var e := Expand(Code.Bech32, hrp);
      |e| == 2 * |hrp| + 1 && e[i] == hrp[i] as int / 32 && e[|hrp|] == 0 && e[|hrp| + 1 + i] == hrp[i] as int % 32
    ensures var e := Expand(Code.CashAddr, hrp); |e| == |hrp| + 1 && e[i] == hrp[i] as int % 32 && e[|hrp|] == 0
  {}

  lemma CharsetSymbol(v: nat, ch: char)
    requires v < 32 && CharTable(v) == Lower(ch)
    ensures SymbolOf(ch) == v
  {
    SymbolMeans(ch);
    TablesInverse(v, ch);
    SameSymbol(ch, CharTable(v));
  }

  lemma SameSymbol(a: char, b: char)
    requires Lower(a) == b && !IsUpper(b)
    ensures SymbolTable(a) == SymbolTable(b)
  {}

  /** A character has a symbol exactly when, in lower case, it is in the character set, at that place. */
  lemma SymbolsAreCharset(ch: char, charset: string)
    requires charset == "qpzry9x8gf2tvdw0s3jn54khce6mua7l"
    ensures |charset| == 32
    ensures SymbolOf(ch) >= 0 <==> Lower(ch) in charset
    ensures SymbolOf(ch) >= 0 ==> charset[SymbolOf(ch)] == Lower(ch)
  {
    if SymbolOf(ch) >= 0 {
      SymbolMeans(ch);
      TablesInverse(0, ch);
      CharsetMeans(SymbolOf(ch), charset);
    } else if Lower(ch) in charset {
      var v: nat :| v < |charset| && charset[v] == Lower(ch);
      CharsetMeans(v, charset);
      CharsetSymbol(v, ch);
    }
  }

  /** The separator has no case. */
  lemma OneCase(k: Code, input: string, p: nat)
    requires p < |input| && input[p] == Separator(k)
    ensures NoUpper(input[..p] + input[p + 1..]) <==> forall i :: 0 <= i < |input| ==> !('A' <= input[i] <= 'Z')
    ensures NoLower(input[..p] + input[p + 1..]) <==> forall i :: 0 <= i < |input| ==> !('a' <= input[i] <= 'z')
  {
    var t := input[..p] + input[p + 1..];
    forall i | 0 <= i < |input| ensures i == p || (exists j :: 0 <= j < |t| && t[j] == input[i]) {
      if i < p { assert t[i] == input[i]; }
      if i > p { assert t[i - 1] == input[i]; }
    }
    forall j | 0 <= j < |t| ensures exists i :: 0 <= i < |input| && t[j] == input[i] {
      assert t[j] == input[if j < p then j else j + 1];
    }
  }

  /** What an accepted string stands for: the prefix in lower case, and the symbols without the checksum. */
  lemma ResultMeans(k: Code, input: string, p: nat, i: nat)
    requires AcceptedAt(k, input, p)
    ensures var d := Result(k, input, p); var n := |input| - 1 - p - (if k.Bech32? then 6 else 8);
      && |d.hrp| == p && |d.data| == n
      && (i < p ==> d.hrp[i] == if 'A' <= input[i] <= 'Z' then (input[i] as int + 32) as char else input[i])
      && (i < n ==> d.data[i] == SymbolOf(input[p + 1 + i]))
  {}

  /** BIP-173, "Bech32", and the CashAddr decoder: what is accepted, with the separator at p. */
  lemma AcceptedMeans(k: Code, input: string, p: nat)
    ensures AcceptedAt(k, input, p) <==>
      && 8 <= |input| <= (if k.Bech32? then 90 else 129) && 1 <= p < |input|
      && input[p] == (if k.Bech32? then '1' else ':') && (forall i :: p < i < |input| ==> input[i] != input[p])
      && |input| - 1 - p >= (if k.Bech32? then 6 else 8) && (k.CashAddr? ==> p <= 20 && |input| - 1 - p <= 112)
      && InRange(input[..p]) && AllSymbols(input[p + 1..]) && InRange(LowerAll(input[..p]))
      && ((forall i :: 0 <= i < |input| ==> !('A' <= input[i] <= 'Z')) || (forall i :: 0 <= i < |input| ==> !('a' <= input[i] <= 'z')))
      && Run(k, 1, Expand(k, LowerAll(input[..p])) + SymbolsOf(input[p + 1..])) == 1
  {
    if p < |input| && input[p] == Separator(k) { OneCase(k, input, p); }
    if p < |input| && InRange(LowerAll(input[..p])) && AllSymbols(input[p + 1..]) {
      RegisterMeans(k, Expand(k, LowerAll(input[..p])) + SymbolsOf(input[p + 1..]));
    }
  }
}
