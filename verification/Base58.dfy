/** b58enc and b58tobin: radix change in place. */
module Base58 {
  import opened Arith
  import opened Words
  import opened Limbs
  import opened Powers
  import opened BigEndian
  import opened Base58Spec

  // ------------------------------------------------------------ encoding

  /** One digit of 256 times a number. */
  method OneDigit(d: u8, carry: int) returns (digit: u8, carry': int)
    requires d < 58 && 0 <= carry < 256
    ensures digit < 58 && 0 <= carry' < 256 && 256 * d + carry == digit + 58 * carry'
  {
    var t := carry + 256 * d;
    digit, carry' := t % 58, t / 58;
  }

  /** The digits from position i on have been replaced, and carry is left over. */
  ghost predicate Partial(s: seq<int>, now: seq<int>, i: nat, carry: int, byte: int) {
    && |s| == |now| && i <= |s| && 0 <= carry < 256 && Normalized(now, 58)
    && (forall k :: 0 <= k < i ==> now[k] == s[k])
    && Big([carry] + now[i..], 58) == 256 * Big(s[i..], 58) + byte
  }

  method StepAt(buf: array<u8>, j: nat, carry: int, ghost s: seq<int>, ghost byte: int) returns (carry': int)
    requires j < buf.Length && Partial(s, buf[..], j + 1, carry, byte)
    modifies buf
    ensures Partial(s, buf[..], j, carry', byte)
  {
    ghost var t := buf[j + 1..];
    assert t == buf[..][j + 1..];
    var digit: u8;
    digit, carry' := OneDigit(buf[j], carry);
    buf[j] := digit;
    assert buf[..][j..] == [digit] + t;
    CarryMoved(s, j, t, 256, byte, carry, digit, carry', 58);
  }

  /** buf := 256 buf + byte, from the last digit up to the first position that stays 0. */
  method AppendByte(buf: array<u8>, high: nat, byte: u8) returns (j: nat)
    requires high < buf.Length && Normalized(buf[..], 58)
    requires forall k :: 0 <= k <= high ==> buf[k] == 0
    requires 256 * Big(buf[..], 58) + byte < Pow(58, buf.Length)
    modifies buf
    ensures Normalized(buf[..], 58) && Big(buf[..], 58) == 256 * Big(old(buf[..]), 58) + byte
    ensures j < buf.Length && (forall k :: 0 <= k < j ==> buf[k] == 0) && (buf[j] == 0 || j == 0)
  {
    ghost var s := buf[..];
    var carry: int := byte;
    j := buf.Length - 1;
    assert s[j + 1..] == [] && [carry] + s[j + 1..] == [carry];
    BigSingle(carry, 58);
    while j > high || carry != 0
      invariant j < buf.Length && Partial(s, buf[..], j + 1, carry, byte)
      decreases j
    {
      carry := StepAt(buf, j, carry, s, byte);
      if j == 0 {
        AllReplaced(s, buf[..], carry, byte);
        return;
      }
      j := j - 1;
    }
    RestZero(s, buf[..], j, byte);
  }

  /** After the first position nothing is carried. */
  lemma AllReplaced(s: seq<int>, now: seq<int>, carry: int, byte: int)
    requires Partial(s, now, 0, carry, byte) && 256 * Big(s, 58) + byte < Pow(58, |s|)
    ensures Big(now, 58) == 256 * Big(s, 58) + byte
  {
    assert now[0..] == now && s[0..] == s;
    BigCons(carry, now, 58);
    NoCarry(now, carry, 58);
  }

  /** Without a carry the zeros in front stay. */
  lemma RestZero(s: seq<int>, now: seq<int>, j: nat, byte: int)
    requires j < |s| && Partial(s, now, j + 1, 0, byte) && forall k :: 0 <= k <= j ==> s[k] == 0
    ensures Big(now, 58) == 256 * Big(s, 58) + byte
  {
    var t, u := now[j + 1..], s[j + 1..];
    assert Big(now, 58) == Big(t, 58) by { BigDropZeros(now, j + 1, 58); }
    assert Big(s, 58) == Big(u, 58) by { BigDropZeros(s, j + 1, 58); }
    assert Big([0] + t, 58) == Big(t, 58) by { ZeroInFront(t, 58); }
  }

  lemma NoCarry(s: seq<int>, carry: int, b: nat)
    requires b > 0 && Normalized(s, b) && carry >= 0 && Pow(b, |s|) * carry + Big(s, b) < Pow(b, |s|)
    ensures carry == 0
  {
    BigBound(s, b);
    if carry > 0 { MulLe(Pow(b, |s|), 1, carry); }
  }

  /** The bytes after the leading zeros fit the digit buffer; only all of them reach its first digit. */
  lemma DigitsFit(bin: seq<u8>, z: nat, i: nat, size: nat)
    requires z <= i <= |bin| && size == RoomFor(|bin| - z)
    ensures Big(bin[z..i], 256) < Pow(58, size)
    ensures i < |bin| ==> Big(bin[z..i], 256) < Pow(58, size - 1)
  {
    var n := |bin| - z;
    BigBound(bin[z..i], 256);
    RoomSuffices(n);
    if i < |bin| {
      PowMonotone(256, i - z, n - 1);
      PowStep(256, n - 1);
      PowStep(58, size - 1);
    } else {
      assert i - z == n;
    }
  }

  /** The digits hold the bytes from z to i; only the last byte reaches the first digit. */
  ghost predicate Holding(digits: seq<int>, bin: seq<u8>, z: nat, i: nat, high: int) {
    && z <= i <= |bin| && |digits| == RoomFor(|bin| - z) && Normalized(digits, 58)
    && Big(digits, 58) == Big(bin[z..i], 256)
    && 0 <= high < |digits| && (forall k :: 0 <= k < high ==> digits[k] == 0) && (digits[high] == 0 || i == |bin|)
  }

  method NextByte(buf: array<u8>, bin: seq<u8>, z: nat, i: nat, high: nat) returns (high': nat)
    requires Holding(buf[..], bin, z, i, high) && i < |bin|
    modifies buf
    ensures Holding(buf[..], bin, z, i + 1, high')
  {
    assert bin[z..i + 1] == bin[z..][..i - z + 1] && bin[z..i] == bin[z..][..i - z];
    BigPrefix(bin[z..], i - z, 256);
    DigitsFit(bin, z, i + 1, buf.Length);
    high' := AppendByte(buf, high, bin[i]);
    if buf[high'] != 0 && i + 1 < |bin| {
      BigFirst(buf[..], 58);
      assert false;
    }
  }

  /** The digits of the bytes after the leading zeros. */
  method ToDigits(bin: seq<u8>, z: nat) returns (buf: array<u8>)
    requires z <= |bin|
    ensures fresh(buf) && buf.Length == RoomFor(|bin| - z)
    ensures Normalized(buf[..], 58) && Big(buf[..], 58) == Big(bin[z..], 256)
  {
    var size := RoomFor(|bin| - z);
    buf := new u8[size](_ => 0);
    BigZeros(buf[..], 58);
    assert bin[z..z] == [];
    var i, high := z, size - 1;
    while i < |bin|
      invariant z <= i <= |bin| && high >= 0 && Holding(buf[..], bin, z, i, high)
    {
      high := NextByte(buf, bin, z, i, high);
      i := i + 1;
    }
    assert bin[z..i] == bin[z..];
  }

  /** The number of leading zeros. */
  method CountZeros(s: seq<u8>) returns (z: nat)
    ensures z == Leading(s, 0)
  {
    z := 0;
    while z < |s| && s[z] == 0
      invariant 0 <= z <= |s| && forall k :: 0 <= k < z ==> s[k] == 0
    {
      z := z + 1;
    }
    LeadingUnique(s, 0, z);
  }

  function TextAt(digits: seq<u8>, z: nat, j: nat, k: nat): u8
    requires Normalized(digits, 58) && j <= |digits| && k < z + |digits| - j
  {
    if k < z then ONE else CharOf(digits[j + k - z])
  }

  function TextOf(digits: seq<u8>, z: nat, j: nat): (text: seq<u8>)
    requires Normalized(digits, 58) && j <= |digits|
    ensures |text| == z + |digits| - j && forall k :: 0 <= k < z ==> text[k] == ONE
    ensures forall k :: z <= k < |text| ==> text[k] == CharOf(digits[j + k - z])
  {
    seq<u8>(z + |digits| - j, k requires 0 <= k < z + |digits| - j && j <= |digits| && Normalized(digits, 58) =>
      TextAt(digits, z, j, k))
  }

  /** A one for every leading zero byte and the digits without their leading zeros. */
  lemma TextEncodes(text: seq<u8>, bin: seq<u8>, buf: seq<u8>, z: nat, j: nat)
    requires z == Leading(bin, 0) && j == Leading(buf, 0) && Normalized(buf, 58)
    requires Big(buf, 58) == Big(bin[z..], 256) && |text| == z + |buf| - j
    requires forall k :: 0 <= k < z ==> text[k] == ONE
    requires forall k :: z <= k < |text| ==> text[k] == CharOf(buf[j + k - z])
    ensures Encodes(text, bin)
  {
    forall k | z <= k < |text| ensures DigitOf(text[k]) == buf[j + k - z] { TablesInverse(text[k], buf[j + k - z]); }
    assert ValidText(text);
    assert Digits(text)[z..] == buf[j..];
    BigDropZeros(Digits(text), z, 58);
    BigDropZeros(buf, j, 58);
    BigDropZeros(bin, z, 256);
    LeadingUnique(text, ONE, z);
  }

  lemma PartsEncode(bin: seq<u8>, buf: seq<u8>, z: nat, j: nat)
    requires z == Leading(bin, 0) && j == Leading(buf, 0) && Normalized(buf, 58)
    requires Big(buf, 58) == Big(bin[z..], 256)
    ensures j <= |buf| && Encodes(TextOf(buf, z, j), bin)
  {
    TextEncodes(TextOf(buf, z, j), bin, buf, z, j);
  }

  /** The leading zeros, the digits, and the leading zeros among the digits. */
  method TextParts(bin: seq<u8>) returns (zcount: nat, buf: array<u8>, j: nat)
    ensures fresh(buf) && j <= buf.Length && Normalized(buf[..], 58)
    ensures Encodes(TextOf(buf[..], zcount, j), bin)
  {
    zcount := CountZeros(bin);
    buf := ToDigits(bin, zcount);
    j := CountZeros(buf[..]);
    PartsEncode(bin, buf[..], zcount, j);
  }

  /**
   b58enc: the text and a terminating 0, if they fit b58sz bytes; otherwise nothing is
   written.  The size returned is the one needed.
   */
  method Encode(b58: array<u8>, b58sz: nat, bin: seq<u8>) returns (ok: bool, size: nat, ghost text: seq<u8>)
    requires b58sz <= b58.Length
    modifies b58
    ensures Encodes(text, bin) && size == |text| + 1 && (ok <==> size <= b58sz)
    ensures ok ==> b58[..|text|] == text && b58[|text|] == 0
    ensures !ok ==> b58[..] == old(b58[..])
  {
    var zcount, buf, j := TextParts(bin);
    text := TextOf(buf[..], zcount, j);
    var length := zcount + buf.Length - j;
    if b58sz <= length {
      return false, length + 1, text;
    }
    Write(b58, zcount, buf, j, text);
    b58[length] := 0;
    return true, length + 1, text;
  }

  method Write(b58: array<u8>, zcount: nat, buf: array<u8>, j0: nat, ghost text: seq<u8>)
    requires b58 != buf && j0 <= buf.Length && Normalized(buf[..], 58) && text == TextOf(buf[..], zcount, j0)
    requires |text| < b58.Length
    modifies b58
    ensures b58[..|text|] == text
  {
    var i, j := 0, j0;
    while i < zcount
      invariant 0 <= i <= zcount && forall k :: 0 <= k < i ==> b58[k] == text[k]
    {
      b58[i] := ONE;
      i := i + 1;
    }
    while j < buf.Length
      invariant zcount <= i <= |text| && j - i == buf.Length - |text|
      invariant forall k :: 0 <= k < i ==> b58[k] == text[k]
    {
      b58[i] := CharOf(buf[j]);
      i, j := i + 1, j + 1;
    }
  }

  // ------------------------------------------------------------ decoding

  const WORD := 0x1_0000_0000

  /** One word of 58 times a number. */
  method OneWord(w: u32, c: u32) returns (word: u32, c': u32)
    requires c < 58
    ensures c' < 58 && 58 * w + c == word + WORD * c'
  {
    var t: u64 := (w as u64) * 58 + c;
    word, c' := t % WORD, t / WORD;
  }

  /** The words from position i on have been replaced, and c is left over. */
  ghost predicate Replaced(s: seq<int>, now: seq<int>, i: nat, c: int, digit: int) {
    && |s| == |now| && i <= |s| && 0 <= c < 58 && Normalized(now, WORD)
    && (forall k :: 0 <= k < i ==> now[k] == s[k])
    && Big([c] + now[i..], WORD) == 58 * Big(s[i..], WORD) + digit
  }

  method WordAt(outi: array<u32>, j: nat, c: u32, ghost s: seq<int>, ghost digit: int) returns (c': u32)
    requires j < outi.Length && Replaced(s, outi[..], j + 1, c, digit)
    modifies outi
    ensures Replaced(s, outi[..], j, c', digit)
  {
    ghost var t := outi[j + 1..];
    assert t == outi[..][j + 1..];
    var word: u32;
    word, c' := OneWord(outi[j], c);
    outi[j] := word;
    assert outi[..][j..] == [word] + t;
    CarryMoved(s, j, t, 58, digit, c, word, c', WORD);
  }

  /** outi := 58 outi + digit; returns the carry out. */
  method AppendDigit(outi: array<u32>, digit: u32) returns (c: u32)
    requires digit < 58
    modifies outi
    ensures Pow(WORD, outi.Length) * c + Big(outi[..], WORD) == 58 * Big(old(outi[..]), WORD) + digit
  {
    ghost var s := outi[..];
    c := digit;
    var j := outi.Length;
    assert s[j..] == [] && [c] + s[j..] == [c];
    BigSingle(c, WORD);
    while j > 0
      invariant 0 <= j <= outi.Length && Replaced(s, outi[..], j, c, digit)
    {
      j := j - 1;
      c := WordAt(outi, j, c, s, digit);
    }
    assert outi[..][0..] == outi[..] && s[0..] == s;
    BigCons(c, outi[..], WORD);
  }

  /** Masking with m moved up by n bits: q is x without its low n bits, pm is 2^n m. */
  lemma {:induction false} AndShifted(x: nat, q: nat, m: nat, pm: nat, n: nat)
    requires q == x / Pow2(n) && pm == Pow2(n) * m
    ensures And(x, pm) == Pow2(n) * And(q, m)
    decreases n
  {
    if n == 0 {
      DivModUnique(x, x, 0, 1);
    } else {
      var p := Pow2(n - 1);
      MulNonNegative(p, m);
      DivDiv(x, 2, p);
      AndShifted(x / 2, q, m, p * m, n - 1);
      Assoc(2, p, m);
      AndDouble(x, p * m, pm);
      Assoc(2, p, And(q, m));
    }
  }

  lemma AndDouble(x: nat, y: nat, z: nat)
    requires z == 2 * y
    ensures And(x, z) == 2 * And(x / 2, y)
  {
    Halved(y, z);
    if x == 0 || y == 0 {
      assert And(x / 2, y) == 0;
    } else {
      assert And(x, z) == 2 * And(x / 2, z / 2) + (if x % 2 == 1 && z % 2 == 1 then 1 else 0);
    }
  }

  lemma Halved(y: nat, z: nat)
    requires z == 2 * y
    ensures z / 2 == y && z % 2 == 0
  {}

  /** The mask tests whether a word needs more than n bits. */
  lemma MaskTest(x: u32, ones: u32, n: nat)
    requires n <= 32 && ones == 0xFFFF_FFFF
    ensures And(x, Shl32(ones, n)) == 0 <==> x < Pow2(n)
  {
    var p, q := Pow2(n), Pow2(32 - n);
    assert p * q == WORD by { Pow2Literals(); Pow2Add(n, 32 - n); }
    assert Shl32(ones, n) == p * (q - 1) by { Shl32Value(ones, n); LowOnes(ones, p, q); }
    MaskedHigh(x, n, p, q, Shl32(ones, n));
    QuotientZero(x, p);
  }

  lemma MaskedHigh(x: nat, n: nat, p: nat, q: nat, mask: nat)
    requires n <= 32 && p == Pow2(n) && q == Pow2(32 - n) && mask == p * (q - 1) && x < p * q
    ensures And(x, mask) == p * (x / p)
  {
    HighPart(x, p, q);
    AndShifted(x, x / p, q - 1, mask, n);
    AndMask(x / p, 32 - n);
  }

  lemma LowOnes(ones: int, p: int, q: int)
    requires p * q == ones + 1 && p > 0 && q > 0
    ensures ones % q == q - 1
  {
    Distrib(q, p, 1);
    DivModUnique(ones, p - 1, q - 1, q);
  }

  lemma HighPart(x: int, p: int, q: int)
    requires 0 <= x < p * q && p > 0 && q > 0
    ensures 0 <= x / p < q && (x / p) % q == x / p
  {
    DivBounds(x, p, q);
    DivBounds(x, p, 0);
    DivModUnique(x / p, 0, x / p, q);
  }

  lemma QuotientZero(x: int, p: int)
    requires 0 <= x && p > 0
    ensures p * (x / p) == 0 <==> x < p
  {
    DivMod(x, p);
    DivBounds(x, p, 1);
    DivBounds(x, p, 0);
    if x >= p { MulPositive(p, x / p); }
  }

  lemma {:induction false} BytesOfWords(n: nat)
    ensures Pow(WORD, n) == Pow(256, 4 * n)
  {
    if n > 0 {
      BytesOfWords(n - 1);
      var e := 4;
      FourBytes(e);
      PowAdd(256, e, 4 * (n - 1));
    }
  }

  lemma FourBytes(e: nat)
    requires e == 4
    ensures Pow(256, e) == WORD && Pow(256, e - 1) == 0x100_0000 && Pow(256, e - 2) == 0x1_0000 && Pow(256, e - 3) == 0x100
  {}

  lemma BytesAbove(k: nat, r: nat, n: nat)
    requires n == 4 * k + r
    ensures Pow(256, n) == Pow(WORD, k) * Pow(256, r)
  {
    BytesOfWords(k);
    PowAdd(256, 4 * k, r);
  }

  lemma TopWord(s: seq<int>, k: nat)
    requires |s| == k + 1 && Normalized(s, WORD)
    ensures Big(s, WORD) == Pow(WORD, k) * s[0] + Big(s[1..], WORD) && 0 <= Big(s[1..], WORD) < Pow(WORD, k)
  {
    BigSuffix(s, 0, WORD);
    assert s[0..] == s;
    BigBound(s[1..], WORD);
  }

  /** With r bytes in its first word, a number fits n bytes when that word fits r. */
  lemma TopWordFits(s: seq<int>, n: nat, r: nat)
    requires |s| > 0 && Normalized(s, WORD) && 0 < r <= 4 && n == 4 * (|s| - 1) + r
    ensures Big(s, WORD) < Pow(256, n) <==> s[0] < Pow(256, r)
  {
    BytesAbove(|s| - 1, r, n);
    TopWord(s, |s| - 1);
    SplitBelow(Pow(WORD, |s| - 1), s[0], Big(s[1..], WORD), Pow(256, r));
  }

  lemma SplitBelow(w: int, h: int, l: int, p: int)
    requires 0 <= l < w
    ensures w * h + l < w * p <==> h < p
  {
    if h < p {
      MulLe(w, h, p - 1);
      Distrib(w, p, 1);
    } else {
      MulLe(w, p, h);
    }
  }

  /** The words hold the number of the first i characters, and it fits n bytes. */
  ghost predicate Read(words: seq<int>, text: seq<u8>, i: nat, n: nat) {
    && i <= |text| && ValidText(text[..i]) && |words| == (n + 3) / 4 && Normalized(words, WORD)
    && Big(words, WORD) == Big(Digits(text[..i]), 58) < Pow(256, n)
  }

  /** The words that n bytes need, and the mask of the bits beyond them. */
  method ZeroMask(n: nat) returns (bytesleft: nat, zeromask: u32)
    requires n > 0
    ensures bytesleft == n % 4
    ensures forall x: u32 :: And(x, zeromask) == 0 <==> bytesleft == 0 || x < Pow(256, bytesleft)
  {
    bytesleft := n % 4;
    zeromask := if bytesleft > 0 then Shl32(0xFFFF_FFFF, bytesleft * 8) else 0;
    forall x: u32 ensures And(x, zeromask) == 0 <==> bytesleft == 0 || x < Pow(256, bytesleft) {
      if bytesleft > 0 {
        MaskTest(x, 0xFFFF_FFFF, bytesleft * 8);
        BytePower(bytesleft);
      }
    }
  }

  lemma NextDigit(text: seq<u8>, i: nat)
    requires i < |text| && ValidText(text[..i]) && DigitOf(text[i]) >= 0
    ensures ValidText(text[..i + 1])
    ensures Big(Digits(text[..i + 1]), 58) == 58 * Big(Digits(text[..i]), 58) + DigitOf(text[i])
  {
    assert text[..i + 1] == text[..i] + [text[i]];
    assert Digits(text[..i + 1]) == Digits(text[..i]) + [DigitOf(text[i])];
    BigSnoc(Digits(text[..i]), DigitOf(text[i]), 58);
  }

  /** A number that does not fit stays too big, and a carry out or bits under the mask mean that. */
  lemma FitTest(words: seq<int>, c: int, n: nat, v: int)
    requires n > 0 && |words| == (n + 3) / 4 && Normalized(words, WORD) && c >= 0
    requires Pow(WORD, |words|) * c + Big(words, WORD) == v
    ensures v < Pow(256, n) <==> c == 0 && (n % 4 == 0 || words[0] < Pow(256, n % 4))
  {
    var k := |words|;
    var w := Pow(WORD, k);
    assert Pow(256, n) <= w by { BytesOfWords(k); PowMonotone(256, n, 4 * k); }
    assert 0 <= Big(words, WORD) < w by { BigBound(words, WORD); }
    if c > 0 {
      MulLe(w, 1, c);
    } else if n % 4 != 0 {
      TopWordFits(words, n, n % 4);
    } else {
      assert n == 4 * k;
      assert Pow(256, n) == w by { BytesOfWords(k); }
    }
  }

  /** One more character; false if it is no digit or the number outgrows n bytes. */
  method ReadDigit(outi: array<u32>, text: seq<u8>, i: nat, n: nat, zeromask: u32) returns (ok: bool)
    requires n > 0 && i < |text| && Read(outi[..], text, i, n)
    requires forall x: u32 :: And(x, zeromask) == 0 <==> n % 4 == 0 || x < Pow(256, n % 4)
    modifies outi
    ensures ok ==> Read(outi[..], text, i + 1, n)
    ensures !ok ==> DigitOf(text[i]) < 0 || (ValidText(text[..i + 1]) && Big(Digits(text[..i + 1]), 58) >= Pow(256, n))
  {
    if text[i] >= 128 {
      return false;
    }
    if DigitOf(text[i]) == -1 {
      return false;
    }
    NextDigit(text, i);
    var c := AppendDigit(outi, DigitOf(text[i]));
    FitTest(outi[..], c, n, Big(Digits(text[..i + 1]), 58));
    return c == 0 && And(outi[0], zeromask) == 0;
  }

  /** The number of leading ones. */
  method CountOnes(text: seq<u8>) returns (z: nat)
    ensures z == Leading(text, ONE)
  {
    z := 0;
    while z < |text| && text[z] == ONE
      invariant 0 <= z <= |text| && forall k :: 0 <= k < z ==> text[k] == ONE
    {
      z := z + 1;
    }
    LeadingUnique(text, ONE, z);
  }

  lemma OnesAreZero(text: seq<u8>, z: nat)
    requires z <= |text| && forall k :: 0 <= k < z ==> text[k] == ONE
    ensures ValidText(text[..z]) && Big(Digits(text[..z]), 58) == 0
  {
    BigZeros(Digits(text[..z]), 58);
  }

  /** The number of the text in words; false if it is invalid or does not fit n bytes. */
  method ReadText(text: seq<u8>, n: nat) returns (ok: bool, outi: array<u32>, zerocount: nat)
    requires n > 0
    ensures fresh(outi) && outi.Length == (n + 3) / 4 && zerocount == Leading(text, ONE)
    ensures ok <==> ValidText(text) && Big(Digits(text), 58) < Pow(256, n)
    ensures ok ==> Big(outi[..], WORD) == Big(Digits(text), 58)
  {
    outi := new u32[(n + 3) / 4](_ => 0);
    BigZeros(outi[..], WORD);
    var bytesleft, zeromask := ZeroMask(n);
    zerocount := CountOnes(text);
    OnesAreZero(text, zerocount);
    var i := zerocount;
    while i < |text|
      invariant zerocount <= i && Read(outi[..], text, i, n)
    {
      var good := ReadDigit(outi, text, i, n, zeromask);
      if !good {
        TooBig(text, i + 1);
        return false, outi, zerocount;
      }
      i := i + 1;
    }
    assert text[..i] == text;
    return true, outi, zerocount;
  }

  lemma TooBig(text: seq<u8>, i: nat)
    requires i <= |text|
    ensures ValidText(text) ==> ValidText(text[..i]) && Big(Digits(text[..i]), 58) <= Big(Digits(text), 58)
  {
    if ValidText(text) {
      assert Digits(text[..i]) == Digits(text)[..i];
      BigGrows(Digits(text), i, 58);
    }
  }

  /** Byte i of a word, counted from its least significant one. */
  method ByteOf(w: u32, i: nat) returns (byte: u8)
    requires i < 4
    ensures byte == (w / Pow(256, i)) % 256
  {
    Shr32Value(w, 8 * i);
    BytePower(i);
    ghost var n := 8;
    Pow2Literals();
    AndMask(Shr32(w, 8 * i), n);
    byte := And(Shr32(w, 8 * i), 0xFF);
  }

  /** The bytes from the most significant one down to byte i make w / 256^i. */
  lemma NextByteOf(w: int, i: nat, p: int, x: int, v: int)
    requires i > 0 && v == p * x + w / Pow(256, i)
    ensures 256 * v + (w / Pow(256, i - 1)) % 256 == (256 * p) * x + w / Pow(256, i - 1)
  {
    var q := Pow(256, i - 1);
    PowStep(256, i - 1);
    DivDiv(w, q, 256);
    assert q * 256 == Pow(256, i);
    DivMod(w / q, 256);
    Distrib(256, p * x, w / Pow(256, i));
    Assoc(256, p, x);
  }

  /** cnt bytes of a word, most significant first. */
  method EmitWord(bin: array<u8>, pos: nat, w: u32, cnt: nat)
    requires cnt <= 4 && w < Pow(256, cnt) && pos + cnt <= bin.Length
    modifies bin
    ensures Big(bin[..pos + cnt], 256) == Pow(256, cnt) * Big(old(bin[..pos]), 256) + w
  {
    ghost var x := Big(bin[..pos], 256);
    var i := cnt;
    DivModUnique(w, 0, w, Pow(256, cnt));
    assert Pow(256, 0) == 1;
    while i > 0
      invariant 0 <= i <= cnt
      invariant Big(bin[..pos + cnt - i], 256) == Pow(256, cnt - i) * x + w / Pow(256, i)
    {
      ghost var before := bin[..pos + cnt - i];
      var byte := ByteOf(w, i - 1);
      bin[pos + cnt - i] := byte;
      assert bin[..pos + cnt - i + 1] == before + [byte];
      BigSnoc(before, byte, 256);
      NextByteOf(w, i, Pow(256, cnt - i), x, Big(before, 256));
      PowStep(256, cnt - i);
      i := i - 1;
    }
  }

  /** The bytes of the words, without the unused bytes of the first one. */
  method WriteBytes(bin: array<u8>, n: nat, outi: array<u32>)
    requires n > 0 && n <= bin.Length && outi.Length == (n + 3) / 4 && Big(outi[..], WORD) < Pow(256, n)
    modifies bin
    ensures Big(bin[..n], 256) == Big(outi[..], WORD)
  {
    var bytesleft := n % 4;
    var j := 0;
    var pos := 0;
    assert bin[..0] == [] && outi[..0] == [];
    if bytesleft > 0 {
      TopWordFits(outi[..], n, bytesleft);
      WriteWord(bin, pos, outi, j, bytesleft);
      j, pos := 1, bytesleft;
    }
    while j < outi.Length
      invariant 0 <= j <= outi.Length && pos == n - 4 * (outi.Length - j)
      invariant Big(bin[..pos], 256) == Big(outi[..j], WORD)
    {
      FullWord(outi[j], 4);
      WriteWord(bin, pos, outi, j, 4);
      j, pos := j + 1, pos + 4;
    }
    assert outi[..j] == outi[..];
  }

  /** The next word after the first j, in cnt bytes. */
  method WriteWord(bin: array<u8>, pos: nat, outi: array<u32>, j: nat, cnt: nat)
    requires 0 < cnt <= 4 && pos + cnt <= bin.Length && j < outi.Length && outi[j] < Pow(256, cnt)
    requires Big(bin[..pos], 256) == Big(outi[..j], WORD) && (cnt == 4 || j == 0)
    modifies bin
    ensures Big(bin[..pos + cnt], 256) == Big(outi[..j + 1], WORD)
  {
    EmitWord(bin, pos, outi[j], cnt);
    BigPrefix(outi[..], j, WORD);
    assert outi[..][..j] == outi[..j] && outi[..][..j + 1] == outi[..j + 1];
    if j == 0 {
      assert outi[..0] == [];
    } else {
      FullWord(outi[j], cnt);
    }
  }

  lemma FullWord(w: u32, e: nat)
    requires e == 4
    ensures w < Pow(256, e) == WORD
  {
    FourBytes(e);
  }

  /** The reported size; false if there are more leading ones than zero bytes before the number. */
  method CountBytes(bin: array<u8>, n: nat, zerocount: nat) returns (ok: bool, size: nat)
    requires n <= bin.Length
    ensures ok <==> Leading(bin[..n], 0) == n || zerocount <= Leading(bin[..n], 0)
    ensures ok ==> size == n - Leading(bin[..n], 0) + zerocount
  {
    size := n;
    var i := 0;
    while i < n
      invariant 0 <= i <= n && size == n - i && forall k :: 0 <= k < i ==> bin[k] == 0
    {
      if bin[i] != 0 {
        LeadingUnique(bin[..n], 0, i);
        if zerocount > i {
          return false, 0;
        }
        return true, size + zerocount;
      }
      size := size - 1;
      i := i + 1;
    }
    LeadingUnique(bin[..n], 0, n);
    return true, size + zerocount;
  }

  /**
   b58tobin: the text's number, right-aligned in n bytes.  It fails exactly on texts that
   are invalid or do not fit; the data are the last `size` bytes.
   */
  method Decode(bin: array<u8>, n: nat, text: seq<u8>) returns (ok: bool, size: nat)
    requires n <= bin.Length
    modifies bin
    ensures ok <==> Accepted(text, n)
    ensures ok ==> Padded(text, n, bin[..n]) && size == ReportedSize(text, bin[..n])
  {
    if n == 0 {
      return false, 0;
    }
    var good, outi, zerocount := ReadText(text, n);
    if !good {
      return false, 0;
    }
    WriteBytes(bin, n, outi);
    ok, size := CountBytes(bin, n, zerocount);
    AcceptedWith(text, n, bin[..n]);
  }

  /** The zero count is checked on the one padded form of the number. */
  lemma AcceptedWith(text: seq<u8>, n: nat, p: seq<u8>)
    requires n > 0 && Padded(text, n, p)
    ensures Accepted(text, n) <==> Leading(p, 0) == n || Leading(text, ONE) <= Leading(p, 0)
  {
    BigBound(p, 256);
    forall q: seq<u8> | Padded(text, n, q) ensures q == p { BigInjective(p, q, 256); }
    if Big(p, 256) == 0 { ZeroNumber(p, 256); }
    if Leading(p, 0) == n { BigZeros(p, 256); }
  }
}
