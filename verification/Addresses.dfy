/** segwit_addr_encode / decode and cash_addr_encode / decode. */
module Addresses {
  import opened Arith
  import opened Words
  import opened Wrappers
  import opened Limbs
  import opened Powers
  import opened Polymod
  import opened Checksum
  import opened Bech32Spec
  import opened ConvertBits
  import Bech32

  // ------------------------------------------------------------ SegWit

  predicate Bytes(s: seq<nat>) {
    forall i :: 0 <= i < |s| ==> s[i] < 256
  }

  lemma BytesAreDigits(s: seq<nat>)
    ensures Bytes(s) <==> Normalized(s, Two(8))
  {
    TwoMeans(8);
    Pow2Literals();
  }

  lemma SymbolsAreDigits(s: seq<nat>)
    ensures Symbols(s) <==> Normalized(s, Two(5))
  {
    TwoMeans(5);
    Pow2Literals();
  }

  /** The witness versions and program lengths that are allowed. */
  predicate Witness(version: nat, program: seq<nat>) {
    && version <= 16 && 2 <= |program| <= 40 && (version == 0 ==> |program| == 20 || |program| == 32)
  }

  /** The data part of an address: the version and the program's bits. */
  ghost predicate SegwitData(version: nat, program: seq<nat>, data: seq<nat>) {
    Witness(version, program) && Bytes(program) && |data| > 0 && data[0] == version && Packed(program, data[1..])
  }

  /** The string is an address of the witness program. */
  ghost predicate SegwitAddress(hrp: string, version: nat, program: seq<nat>, addr: string) {
    exists data :: SegwitData(version, program, data) && DecodesTo(Code.Bech32, addr, Decoded(hrp, data))
  }

  /** The string is the encoding of these data. */
  ghost predicate Encodes(k: Code, hrp: string, data: seq<nat>, addr: string) {
    Encodable(k, hrp, data) && addr == Encoding(k, hrp, data)
  }

  /** The data part as the encoder makes it. */
  ghost predicate SegwitEncoding(hrp: string, version: nat, program: seq<nat>, addr: string) {
    exists data :: SegwitData(version, program, data) && Encodes(Code.Bech32, hrp, data, addr)
  }

  method SegwitEncode(hrp: string, version: nat, program: seq<nat>) returns (addr: Option<string>)
    requires Bytes(program)
    ensures addr.Some? ==> SegwitEncoding(hrp, version, program, addr.value)
    ensures addr.None? ==> forall t :: !SegwitEncoding(hrp, version, program, t)
    ensures addr.Some? <==>
      && version <= 16 && 2 <= |program| <= 40 && (version == 0 ==> |program| == 20 || |program| == 32)
      && (forall i :: 0 <= i < |hrp| ==> 33 <= hrp[i] as int <= 126 && !('A' <= hrp[i] <= 'Z'))
      && |hrp| + 1 + 1 + (8 * |program| + 4) / 5 + 6 <= 90
  {
    if version > 16 {
      return None;
    }
    if version == 0 && |program| != 20 && |program| != 32 {
      return None;
    }
    if |program| < 2 || |program| > 40 {
      return None;
    }
    BytesAreDigits(program);
    var symbols := ToSymbols(program);
    var data := [version] + symbols;
    assert data[1..] == symbols;
    assert SegwitData(version, program, data);
    PackedLength(program, symbols);
    PackedBytes(program, symbols);
    addr := Bech32.Encode(Code.Bech32, hrp, data);
    forall other | SegwitData(version, program, other) ensures other == data {
      SegwitDataUnique(version, program, other, data);
    }
  }

  /** What decoding gives back is unique. */
  lemma DecodedUnique(k: Code, input: string, x: Decoded, y: Decoded)
    requires DecodesTo(k, input, x) && DecodesTo(k, input, y)
    ensures x == y
  {
    DecodesMeans(k, input, x);
    DecodesMeans(k, input, y);
    var p: nat :| AcceptedAt(k, input, p) && Result(k, input, p) == x;
    var q: nat :| AcceptedAt(k, input, q) && Result(k, input, q) == y;
    SeparatorUnique(k, input, p, q);
  }

  /** Decoded data are symbols. */
  lemma DecodedSymbols(k: Code, input: string, d: Decoded)
    requires DecodesTo(k, input, d)
    ensures Symbols(d.data) && Accepted(k, input)
  {
    DecodesMeans(k, input, d);
    var p: nat :| AcceptedAt(k, input, p) && Result(k, input, p) == d;
  }

  /** The version and the program of exactly the addresses with the prefix. */
  method SegwitDecode(hrp: string, addr: string) returns (r: Option<(nat, seq<nat>)>)
    ensures r.Some? ==> SegwitAddress(hrp, r.value.0, r.value.1, addr)
    ensures r.None? ==> forall version, program :: !SegwitAddress(hrp, version, program, addr)
  {
    var d := Bech32.Decode(Code.Bech32, addr);
    if d.None? {
      forall data | DecodesTo(Code.Bech32, addr, Decoded(hrp, data)) ensures false { DecodedSymbols(Code.Bech32, addr, Decoded(hrp, data)); }
      return None;
    }
    forall data | DecodesTo(Code.Bech32, addr, Decoded(hrp, data)) ensures d.value == Decoded(hrp, data) {
      DecodedUnique(Code.Bech32, addr, d.value, Decoded(hrp, data));
    }
    DecodedSymbols(Code.Bech32, addr, d.value);
    var data := d.value.data;
    if |data| == 0 || |data| > 65 {
      TooLong(data);
      return None;
    }
    if d.value.hrp != hrp {
      return None;
    }
    r := SegwitProgram(data);
  }

  lemma PackedLength(w: seq<nat>, s: seq<nat>)
    requires Packed(w, s)
    ensures 8 * |w| <= 5 * |s| < 8 * |w| + 5
  {
    var p: nat :| p < 5 && Regrouped(s, 5, w, 8, p, 0);
  }

  /** More symbols than 65 are more than 40 bytes. */
  lemma TooLong(data: seq<nat>)
    requires |data| == 0 || |data| > 65
    ensures forall version, program :: !SegwitData(version, program, data)
  {
    forall version, program | SegwitData(version, program, data) ensures false {
      PackedLength(program, data[1..]);
    }
  }

  method SegwitProgram(data: seq<nat>) returns (r: Option<(nat, seq<nat>)>)
    requires Symbols(data) && 0 < |data| <= 65
    ensures r.Some? ==> SegwitData(r.value.0, r.value.1, data)
    ensures r.None? ==> forall version, program :: !SegwitData(version, program, data)
  {
    if data[0] > 16 {
      return None;
    }
    SymbolsAreDigits(data[1..]);
    var program := ToBytes(data[1..]);
    if program.None? {
      return None;
    }
    var w := program.value;
    PackedBytes(w, data[1..]);
    forall other | Packed(other, data[1..]) ensures other == w { UnpackedUnique(other, w, data[1..]); }
    if |w| < 2 || |w| > 40 {
      return None;
    }
    if data[0] == 0 && |w| != 20 && |w| != 32 {
      return None;
    }
    return Some((data[0], w));
  }

  lemma PackedBytes(w: seq<nat>, s: seq<nat>)
    requires Packed(w, s)
    ensures Bytes(w) && Symbols(s)
  {
    var p: nat :| p < 5 && Regrouped(s, 5, w, 8, p, 0);
    BytesAreDigits(w);
    SymbolsAreDigits(s);
  }

  /** An encoded address decodes to what was encoded, exactly when its prefix is not empty. */
  lemma SegwitRoundTrip(hrp: string, version: nat, program: seq<nat>, addr: string)
    requires SegwitEncoding(hrp, version, program, addr)
    ensures SegwitAddress(hrp, version, program, addr) <==> hrp != ""
  {
    var data :| SegwitData(version, program, data) && Encodes(Code.Bech32, hrp, data, addr);
    RoundTrip(Code.Bech32, hrp, data);
    if SegwitAddress(hrp, version, program, addr) {
      var d :| SegwitData(version, program, d) && DecodesTo(Code.Bech32, addr, Decoded(hrp, d));
      SegwitDataUnique(version, program, d, data);
    }
  }

  lemma SegwitDataUnique(version: nat, program: seq<nat>, d: seq<nat>, e: seq<nat>)
    requires SegwitData(version, program, d) && SegwitData(version, program, e)
    ensures d == e
  {
    PackedUnique(program, d[1..], e[1..]);
    assert d == [version] + d[1..] && e == [version] + e[1..];
  }

  /** BIP-173, "Segwit address format": the string for the version and then the program's bits. */
  lemma SegwitMeans(hrp: string, version: nat, program: seq<nat>, s: seq<nat>, addr: string)
    requires Packed(program, s)
    ensures SegwitEncoding(hrp, version, program, addr) <==>
      && version <= 16 && 2 <= |program| <= 40 && (version == 0 ==> |program| == 20 || |program| == 32)
      && Encodable(Code.Bech32, hrp, [version] + s) && addr == Encoding(Code.Bech32, hrp, [version] + s)
  {
    var data := [version] + s;
    PackedBytes(program, s);
    assert data[1..] == s;
    if Witness(version, program) {
      assert SegwitData(version, program, data);
      forall other | SegwitData(version, program, other) ensures other == data { SegwitDataUnique(version, program, other, data); }
      assert SegwitEncoding(hrp, version, program, addr) <==> Encodes(Code.Bech32, hrp, data, addr);
    }
  }

  /** And back: what an address must decode to. */
  lemma SegwitAddressMeans(hrp: string, version: nat, program: seq<nat>, s: seq<nat>, addr: string)
    requires Packed(program, s)
    ensures SegwitAddress(hrp, version, program, addr) <==>
      && version <= 16 && 2 <= |program| <= 40 && (version == 0 ==> |program| == 20 || |program| == 32)
      && DecodesTo(Code.Bech32, addr, Decoded(hrp, [version] + s))
  {
    var data := [version] + s;
    PackedBytes(program, s);
    assert data[1..] == s;
    if Witness(version, program) {
      assert SegwitData(version, program, data);
      forall other | SegwitData(version, program, other) ensures other == data { SegwitDataUnique(version, program, other, data); }
    }
  }

  /** An address stands for one witness program. */
  lemma SegwitUnique(hrp: string, version: nat, program: seq<nat>, version': nat, program': seq<nat>, addr: string)
    requires SegwitAddress(hrp, version, program, addr) && SegwitAddress(hrp, version', program', addr)
    ensures version == version' && program == program'
  {
    var d :| SegwitData(version, program, d) && DecodesTo(Code.Bech32, addr, Decoded(hrp, d));
    var e :| SegwitData(version', program', e) && DecodesTo(Code.Bech32, addr, Decoded(hrp, e));
    DecodedUnique(Code.Bech32, addr, Decoded(hrp, d), Decoded(hrp, e));
    UnpackedUnique(program, program', d[1..]);
  }

  // ------------------------------------------------------------ CashAddr

  ghost predicate CashData(payload: seq<nat>, data: seq<nat>) {
    2 <= |payload| <= 65 && Bytes(payload) && Packed(payload, data)
  }

  ghost predicate CashAddress(hrp: string, payload: seq<nat>, addr: string) {
    exists data :: CashData(payload, data) && DecodesTo(Code.CashAddr, addr, Decoded(hrp, data))
  }

  ghost predicate CashEncoding(hrp: string, payload: seq<nat>, addr: string) {
    exists data :: CashData(payload, data) && Encodes(Code.CashAddr, hrp, data, addr)
  }

  method CashEncode(hrp: string, payload: seq<nat>) returns (addr: Option<string>)
    requires Bytes(payload)
    ensures addr.Some? ==> CashEncoding(hrp, payload, addr.value)
    ensures addr.None? ==> forall t :: !CashEncoding(hrp, payload, t)
    ensures addr.Some? <==>
      && 2 <= |payload| <= 65 && (forall i :: 0 <= i < |hrp| ==> 33 <= hrp[i] as int <= 126)
      && |hrp| + 1 + (8 * |payload| + 4) / 5 + 8 <= 129
  {
    if |payload| < 2 || |payload| > 65 {
      return None;
    }
    BytesAreDigits(payload);
    var data := ToSymbols(payload);
    assert CashData(payload, data);
    PackedLength(payload, data);
    PackedBytes(payload, data);
    addr := Bech32.Encode(Code.CashAddr, hrp, data);
    if addr.None? { NotEncodable(hrp, payload, data); }
  }

  /** A payload has one string of symbols; if that is not encodable, the payload is not. */
  lemma NotEncodable(hrp: string, payload: seq<nat>, data: seq<nat>)
    requires CashData(payload, data) && !Encodable(Code.CashAddr, hrp, data)
    ensures forall t :: !CashEncoding(hrp, payload, t)
  {
    forall other | CashData(payload, other) ensures other == data { PackedUnique(payload, other, data); }
  }

  method CashDecode(hrp: string, addr: string) returns (r: Option<seq<nat>>)
    ensures r.Some? ==> CashAddress(hrp, r.value, addr)
    ensures r.None? ==> forall payload :: !CashAddress(hrp, payload, addr)
  {
    var d := Bech32.Decode(Code.CashAddr, addr);
    if d.None? {
      forall data | DecodesTo(Code.CashAddr, addr, Decoded(hrp, data)) ensures false { DecodedSymbols(Code.CashAddr, addr, Decoded(hrp, data)); }
      return None;
    }
    forall data | DecodesTo(Code.CashAddr, addr, Decoded(hrp, data)) ensures d.value == Decoded(hrp, data) {
      DecodedUnique(Code.CashAddr, addr, d.value, Decoded(hrp, data));
    }
    DecodedSymbols(Code.CashAddr, addr, d.value);
    var data := d.value.data;
    if |data| == 0 || |data| > 104 {
      CashTooLong(data);
      return None;
    }
    if d.value.hrp != hrp {
      return None;
    }
    r := CashPayload(data);
  }

  lemma CashTooLong(data: seq<nat>)
    requires |data| == 0 || |data| > 104
    ensures forall payload :: !CashData(payload, data)
  {
    forall payload | CashData(payload, data) ensures false {
      PackedLength(payload, data);
    }
  }

  method CashPayload(data: seq<nat>) returns (r: Option<seq<nat>>)
    requires Symbols(data)
    ensures r.Some? ==> CashData(r.value, data)
    ensures r.None? ==> forall payload :: !CashData(payload, data)
  {
    SymbolsAreDigits(data);
    r := ToBytes(data);
    if r.None? {
      return None;
    }
    var w := r.value;
    PackedBytes(w, data);
    forall other | Packed(other, data) ensures other == w { UnpackedUnique(other, w, data); }
    if |w| < 2 || |w| > 65 {
      return None;
    }
  }

  lemma CashTrip(hrp: string, payload: seq<nat>, data: seq<nat>)
    requires CashData(payload, data) && Encodable(Code.CashAddr, hrp, data)
    ensures DecodesTo(Code.CashAddr, Encoding(Code.CashAddr, hrp, data), Decoded(hrp, data)) <==> hrp != "" && |hrp| <= 20 && NoUpper(hrp)
  {
    RoundTrip(Code.CashAddr, hrp, data);
    ShortPayload(payload, data);
  }

  /** An encoded address decodes to its payload exactly when the prefix is short, not empty and not in upper case. */
  lemma CashRoundTrip(hrp: string, payload: seq<nat>, addr: string)
    requires CashEncoding(hrp, payload, addr)
    ensures CashAddress(hrp, payload, addr) <==> hrp != "" && |hrp| <= 20 && NoUpper(hrp)
  {
    var data :| CashData(payload, data) && Encodes(Code.CashAddr, hrp, data, addr);
    CashTrip(hrp, payload, data);
    CashDecoded(hrp, payload, addr, data);
  }

  /** A payload has one string of symbols. */
  lemma CashDecoded(hrp: string, payload: seq<nat>, addr: string, data: seq<nat>)
    requires CashData(payload, data)
    ensures CashAddress(hrp, payload, addr) <==> DecodesTo(Code.CashAddr, addr, Decoded(hrp, data))
  {
    forall d | CashData(payload, d) ensures d == data { PackedUnique(payload, d, data); }
  }

  /** A CashAddr address is of a payload of 2 to 65 bytes, packed into the symbols. */
  lemma CashMeans(hrp: string, payload: seq<nat>, s: seq<nat>, addr: string)
    requires Packed(payload, s)
    ensures CashAddress(hrp, payload, addr) <==> 2 <= |payload| <= 65 && DecodesTo(Code.CashAddr, addr, Decoded(hrp, s))
    ensures CashEncoding(hrp, payload, addr) <==>
      2 <= |payload| <= 65 && Encodable(Code.CashAddr, hrp, s) && addr == Encoding(Code.CashAddr, hrp, s)
  {
    PackedBytes(payload, s);
    if 2 <= |payload| <= 65 {
      CashDecoded(hrp, payload, addr, s);
      forall d | CashData(payload, d) ensures d == s { PackedUnique(payload, d, s); }
      assert CashEncoding(hrp, payload, addr) <==> Encodes(Code.CashAddr, hrp, s, addr);
    }
  }

  lemma ShortPayload(payload: seq<nat>, data: seq<nat>)
    requires CashData(payload, data)
    ensures |data| <= 104
  {
    PackedLength(payload, data);
  }
}
