/** What a Base58 text stands for, and that texts and byte strings determine each other. */
module Base58Spec {
  import opened Arith
  import opened Words
  import opened Limbs
  import opened BigEndian

  const ONE: u8 := 49

  /** The digit's character; the alphabet leaves out 0, I, O and l. */
  function CharOf(d: u8): u8
    requires d < 58
  {
    if d < 9 then 49 + d
    else if d < 17 then 65 + (d - 9)
    else if d < 22 then 74 + (d - 17)
    else if d < 33 then 80 + (d - 22)
    else if d < 44 then 97 + (d - 33)
    else 109 + (d - 44)
  }

  /** The character's digit, or -1; the table of the source as ranges. */
  function DigitOf(ch: u8): (d: int)
    ensures -1 <= d < 58 && (d >= 0 ==> ch < 128) && (d == 0 <==> ch == ONE)
  {
    if 49 <= ch <= 57 then ch - 49
    else if 65 <= ch <= 72 then ch - 65 + 9
    else if 74 <= ch <= 78 then ch - 74 + 17
    else if 80 <= ch <= 90 then ch - 80 + 22
    else if 97 <= ch <= 107 then ch - 97 + 33
    else if 109 <= ch <= 122 then ch - 109 + 44
    else -1
  }

  /** The two tables are each other's inverse. */
  lemma TablesInverse(ch: u8, d: u8)
    requires d < 58
    ensures DigitOf(ch) == d <==> ch == CharOf(d)
  {}

  /** The digits' characters are those of the alphabet, in its order. */
  lemma AlphabetMeans(d: u8, low: string, high: string)
    requires low == "123456789ABCDEFGHJKLMNPQR" && high == "STUVWXYZabcdefghijkmnopqrstuvwxyz" && d < 58
    ensures |low| == 25 && |low + high| == 58 && CharOf(d) == (low + high)[d] as int
  {
    if d < 25 {
      assert (low + high)[d] == low[d];
    } else {
      assert (low + high)[d] == high[d - 25];
    }
  }

  predicate ValidText(text: seq<u8>) {
    forall i :: 0 <= i < |text| ==> DigitOf(text[i]) >= 0
  }

  function Digits(text: seq<u8>): (s: seq<int>)
    requires ValidText(text)
    ensures |s| == |text| && Normalized(s, 58) && forall i :: 0 <= i < |s| ==> s[i] == DigitOf(text[i])
  {
    seq(|text|, i requires 0 <= i < |text| && ValidText(text) => DigitOf(text[i]))
  }

  /** text encodes data: the same number, and a leading 1 for every leading zero byte. */
  predicate Encodes(text: seq<u8>, data: seq<u8>) {
    && ValidText(text) && Big(Digits(text), 58) == Big(data, 256)
    && Leading(text, ONE) == Leading(data, 0)
  }

  lemma LeadingDigits(text: seq<u8>)
    requires ValidText(text)
    ensures Leading(Digits(text), 0) == Leading(text, ONE)
  {
    LeadingUnique(Digits(text), 0, Leading(text, ONE));
  }

  /** A byte string has one encoding. */
  lemma EncodingUnique(text: seq<u8>, text': seq<u8>, data: seq<u8>)
    requires Encodes(text, data) && Encodes(text', data)
    ensures text == text'
  {
    LeadingDigits(text);
    LeadingDigits(text');
    DigitsUnique(Digits(text), Digits(text'), 58);
    forall i | 0 <= i < |text| ensures text[i] == text'[i] {
      var d := Digits(text)[i];
      assert d == Digits(text')[i];
      TablesInverse(text[i], d);
      TablesInverse(text'[i], d);
    }
  }

  /** A text encodes at most one byte string. */
  lemma DecodingUnique(text: seq<u8>, data: seq<u8>, data': seq<u8>)
    requires Encodes(text, data) && Encodes(text, data')
    ensures data == data'
  {
    DigitsUnique(data, data', 256);
  }

  /** An example: the bytes 51 6b 6f cd 0f and the text ABnLTmg, with as many zeros and ones before them as one likes. */
  lemma EncodingExample(zeros: nat, text: seq<u8>, data: seq<u8>)
    requires |text| == zeros + 7 && forall i :: 0 <= i < |text| ==> text[i] == if i < zeros then 49 else "ABnLTmg"[i - zeros] as int
    requires |data| == zeros + 5 && forall i :: 0 <= i < |data| ==> data[i] == if i < zeros then 0 else [0x51, 0x6b, 0x6f, 0xcd, 0x0f][i - zeros]
    ensures Encodes(text, data)
  {
    var s := Digits(text);
    assert s[zeros..] == [9, 10, 45, 19, 26, 44, 39];
    assert data[zeros..] == [0x51, 0x6b, 0x6f, 0xcd, 0x0f];
    BigDropZeros(s, zeros, 58);
    BigDropZeros(data, zeros, 256);
    SevenDigits(s[zeros..]);
    FiveBytes(data[zeros..]);
    LeadingUnique(text, ONE, zeros);
    LeadingUnique(data, 0, zeros);
  }

  lemma SevenDigits(s: seq<int>)
    requires s == [9, 10, 45, 19, 26, 44, 39]
    ensures Big(s, 58) == 349694840079
  {
    BigPrefix(s, 0, 58);
    BigPrefix(s, 1, 58);
    BigPrefix(s, 2, 58);
    BigPrefix(s, 3, 58);
    BigPrefix(s, 4, 58);
    BigPrefix(s, 5, 58);
    BigPrefix(s, 6, 58);
    assert s[..0] == [] && s[..7] == s;
  }

  lemma FiveBytes(s: seq<int>)
    requires s == [0x51, 0x6b, 0x6f, 0xcd, 0x0f]
    ensures Big(s, 256) == 349694840079
  {
    BigPrefix(s, 0, 256);
    BigPrefix(s, 1, 256);
    BigPrefix(s, 2, 256);
    BigPrefix(s, 3, 256);
    BigPrefix(s, 4, 256);
    assert s[..0] == [] && s[..5] == s;
  }

  // ------------------------------------------------------------ decoding into a buffer

  /** The buffer of n bytes takes the text: it is valid, its number fits, and its zeros fit before it. */
  ghost predicate Accepted(text: seq<u8>, n: nat) {
    && n > 0 && ValidText(text) && Big(Digits(text), 58) < Pow(256, n)
    && forall p: seq<u8> :: Padded(text, n, p) && Big(p, 256) != 0 ==> Leading(text, ONE) <= Leading(p, 0)
  }

  /** p is the text's number in n bytes. */
  predicate Padded(text: seq<u8>, n: nat, p: seq<u8>) {
    ValidText(text) && |p| == n && Big(p, 256) == Big(Digits(text), 58)
  }

  /** The size that decoding reports. */
  function ReportedSize(text: seq<u8>, p: seq<u8>): nat {
    |p| - Leading(p, 0) + Leading(text, ONE)
  }

  /** What decoding returns is encoded by the text, when the leading ones fit the buffer. */
  lemma DecodedEncodes(text: seq<u8>, n: nat, p: seq<u8>)
    requires Accepted(text, n) && Padded(text, n, p) && Leading(text, ONE) <= n
    ensures var size := ReportedSize(text, p); size <= n && Encodes(text, p[n - size..])
  {
    var z, size := Leading(p, 0), ReportedSize(text, p);
    if Big(p, 256) == 0 {
      ZeroNumber(p, 256);
    }
    BigDropZeros(p, n - size, 256);
    LeadingUnique(p[n - size..], 0, Leading(text, ONE));
  }

  /**
   The reported size exceeds the buffer exactly when the leading ones do, which the decoder
   does not test for a text of ones alone.
   */
  lemma SizeFits(text: seq<u8>, n: nat, p: seq<u8>)
    requires Accepted(text, n) && Padded(text, n, p)
    ensures ReportedSize(text, p) <= n <==> Leading(text, ONE) <= n
  {
    if Big(p, 256) == 0 { ZeroNumber(p, 256); }
  }

  /** Any number of ones is accepted by any buffer. */
  lemma OnesAccepted(text: seq<u8>, n: nat)
    requires n > 0 && forall i :: 0 <= i < |text| ==> text[i] == ONE
    ensures Accepted(text, n) && Leading(text, ONE) == |text|
  {
    BigZeros(Digits(text), 58);
    LeadingUnique(text, ONE, |text|);
  }

  lemma {:induction false} ZeroNumber(s: seq<int>, b: nat)
    requires b > 0 && Normalized(s, b) && Big(s, b) == 0
    ensures Leading(s, 0) == |s|
  {
    if Leading(s, 0) < |s| {
      var n := Leading(s, 0);
      BigDropZeros(s, n, b);
      BigFirst(s[n..], b);
      assert false;
    }
  }

  /** Decoding what was encoded: any large enough buffer takes the text, and ends with the data. */
  lemma RoundTrip(text: seq<u8>, data: seq<u8>, n: nat, p: seq<u8>)
    requires Encodes(text, data) && |data| <= n && n > 0 && Padded(text, n, p)
    ensures Accepted(text, n)
    ensures ReportedSize(text, p) == |data| && p[n - |data|..] == data
  {
    var zeros := seq(n - |data|, _ => 0);
    var q := zeros + data;
    BigDropZeros(q, n - |data|, 256);
    assert q[n - |data|..] == data;
    BigBound(q, 256);
    BigInjective(p, q, 256);
    LeadingUnique(q, 0, n - |data| + Leading(data, 0));
    forall p': seq<u8> | Padded(text, n, p') ensures p' == q {
      BigInjective(p', q, 256);
    }
  }

  // ------------------------------------------------------------ the size of the digit buffer

  /** The number of digits that the encoder makes room for. */
  function RoomFor(n: nat): nat {
    n * 138 / 100 + 1
  }

  lemma PowChain(b: nat, v: int, n: nat)
    requires Pow(b, n) == v
    ensures Pow(b, n + 1) == b * v
  {}

  lemma Powers(k: nat)
    requires k == 0
    ensures Pow(58, k) == 1 && Pow(58, k + 1) == 58 && Pow(58, k + 2) == 3364 && Pow(58, k + 3) == 195112
    ensures Pow(58, k + 5) == 656356768 && Pow(58, k + 6) == 38068692544 && Pow(58, k + 7) == 2207984167552
    ensures Pow(58, k + 9) == 7427658739644928 && Pow(58, k + 10) == 430804206899405824
    ensures Pow(58, k + 11) == 24986644000165537792
  {
    PowChain(58, 1, k); PowChain(58, 58, k + 1); PowChain(58, 3364, k + 2); PowChain(58, 195112, k + 3);
    PowChain(58, 11316496, k + 4); PowChain(58, 656356768, k + 5); PowChain(58, 38068692544, k + 6);
    PowChain(58, 2207984167552, k + 7); PowChain(58, 128063081718016, k + 8);
    PowChain(58, 7427658739644928, k + 9); PowChain(58, 430804206899405824, k + 10);
  }

  lemma Powers256(k: nat)
    requires k == 0
    ensures Pow(256, k) == 1 && Pow(256, k + 1) == 256 && Pow(256, k + 2) == 65536 && Pow(256, k + 3) == 16777216
    ensures Pow(256, k + 4) == 4294967296 && Pow(256, k + 5) == 1099511627776 && Pow(256, k + 6) == 281474976710656
    ensures Pow(256, k + 7) == 72057594037927936 && Pow(256, k + 8) == 18446744073709551616
  {
    PowChain(256, 1, k); PowChain(256, 256, k + 1); PowChain(256, 65536, k + 2); PowChain(256, 16777216, k + 3);
    PowChain(256, 4294967296, k + 4); PowChain(256, 1099511627776, k + 5); PowChain(256, 281474976710656, k + 6);
    PowChain(256, 72057594037927936, k + 7);
  }

  lemma SmallRoom(k: nat, n: nat)
    requires k == 0 && n < 8
    ensures Pow(256, k + n) < Pow(58, k + RoomFor(n))
  {
    Powers(k);
    Powers256(k);
  }

  /** Eight bytes more need at most eleven digits more. */
  lemma {:induction false} RoomSuffices(n: nat)
    ensures Pow(256, n) < Pow(58, RoomFor(n))
  {
    if n < 8 {
      SmallRoom(0, n);
    } else {
      RoomSuffices(n - 8);
      EightMore(n - 8, 0, 8, 11, RoomFor(n - 8), RoomFor(n));
    }
  }

  lemma EightMore(m: nat, k: nat, e: nat, f: nat, room: nat, room': nat)
    requires k == 0 && e == 8 && f == 11 && Pow(256, m) < Pow(58, room) && f + room <= room'
    ensures Pow(256, m + e) < Pow(58, room')
  {
    ElevenDigits(k, e, f);
    PowAdd(256, e, m);
    PowAdd(58, f, room);
    ProductsOrdered(Pow(256, e), Pow(58, f), Pow(256, m), Pow(58, room));
    PowMonotone(58, f + room, room');
  }

  lemma ElevenDigits(k: nat, e: nat, f: nat)
    requires k == 0 && e == 8 && f == 11
    ensures Pow(256, e) < Pow(58, f)
  {
    Powers(k);
    Powers256(k);
  }

  lemma ProductsOrdered(p: int, q: int, x: int, y: int)
    requires 0 <= p <= q && 0 < q && 0 <= x < y
    ensures p * x < q * y
  {
    MulLe2(p, x, q, y - 1);
    MulLt(q, y - 1, y);
  }
}
