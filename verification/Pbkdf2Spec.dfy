/** PBKDF2 with HMAC-SHA-256, section 5.2 of RFC 8018. */
module Pbkdf2Spec {
  import opened Arith
  import opened Words
  import opened Sha256Spec
  import opened HmacSpec

  /** The password, the salt and the number of the block. */
  datatype Input = Input(password: seq<u8>, salt: seq<u8>, block: u32)

  ghost predicate Usable(h: Sha, x: Input) {
    Proper(h) && Short(|x.password|) && Short(68 + |x.salt|)
  }

  /** U_c */
  ghost function U(h: Sha, x: Input, c: nat): (d: seq<u8>)
    requires Usable(h, x) && c > 0
    ensures |d| == 32
  {
    if c == 1 then Hmac(h, x.password, x.salt + BytesOfWord(x.block)) else Hmac(h, x.password, U(h, x, c - 1))
  }

  /** F, the exclusive or of U_1 ... U_c */
  ghost function F(h: Sha, x: Input, c: nat): (d: seq<u8>)
    requires Usable(h, x) && c > 0
    ensures |d| == 32
  {
    if c == 1 then U(h, x, 1) else XorBytes(F(h, x, c - 1), U(h, x, c))
  }

  /** T_1 ... T_n */
  ghost function Concatenated(h: Sha, password: seq<u8>, salt: seq<u8>, c: nat, n: nat): (d: seq<u8>)
    requires Usable(h, Input(password, salt, 0)) && c > 0 && n < 0x1_0000_0000
    ensures |d| == 32 * n
  {
    if n == 0 then [] else Concatenated(h, password, salt, c, n - 1) + F(h, Input(password, salt, n), c)
  }

  ghost function Key(h: Sha, password: seq<u8>, salt: seq<u8>, c: nat, length: nat): (d: seq<u8>)
    requires Usable(h, Input(password, salt, 0)) && c > 0 && length < 0x8000_0000
    ensures |d| == length
  {
    Concatenated(h, password, salt, c, Calls(length))[..length]
  }

  // ------------------------------------------------------------ in the standard's terms

  lemma {:induction false} BlockByte(h: Sha, password: seq<u8>, salt: seq<u8>, c: nat, n: nat, i: nat)
    requires Usable(h, Input(password, salt, 0)) && c > 0 && n < 0x1_0000_0000 && i < 32 * n
    ensures Concatenated(h, password, salt, c, n)[i] == F(h, Input(password, salt, i / 32 + 1), c)[i % 32]
    decreases n
  {
    DivMod(i, 32);
    if i < 32 * (n - 1) {
      BlockByte(h, password, salt, c, n - 1, i);
    } else {
      DivModUnique(i, n - 1, i - 32 * (n - 1), 32);
    }
  }

  /** Section 5.2, steps 3 and 4: byte i of the key is in block i / 32 + 1, counted from 1. */
  lemma KeyMeans(h: Sha, password: seq<u8>, salt: seq<u8>, c: nat, length: nat, i: nat)
    requires Usable(h, Input(password, salt, 0)) && c > 0 && i < length < 0x8000_0000
    ensures Key(h, password, salt, c, length)[i] == F(h, Input(password, salt, i / 32 + 1), c)[i % 32]
  {
    BlockByte(h, password, salt, c, Calls(length), i);
  }

  /** U_1 from the salt and the number of the block, most significant byte first; the others each from the one before. */
  lemma UMeans(h: Sha, x: Input, c: nat)
    requires Usable(h, x) && c > 0
    ensures U(h, x, 1) == Hmac(h, x.password, x.salt + [x.block / 0x100_0000, x.block / 0x1_0000 % 0x100, x.block / 0x100 % 0x100, x.block % 0x100])
    ensures U(h, x, c + 1) == Hmac(h, x.password, U(h, x, c))
  {}

  function BitCount(h: seq<bool>): nat {
    if |h| == 0 then 0 else BitCount(h[1..]) + (if h[0] then 1 else 0)
  }

  /** Bit b of byte j of U_1 ... U_c */
  ghost function BitsOfU(h: Sha, x: Input, c: nat, j: nat, b: nat): (s: seq<bool>)
    requires Usable(h, x) && j < 32
    ensures |s| == c
  {
    seq(c, i requires 0 <= i < c => Bit(U(h, x, i + 1)[j], b))
  }

  lemma {:induction false} BitCountSnoc(s: seq<bool>, b: bool)
    ensures BitCount(s + [b]) == BitCount(s) + (if b then 1 else 0)
  {
    if |s| > 0 {
      BitCountSnoc(s[1..], b);
      assert (s + [b])[1..] == s[1..] + [b];
    } else {
      assert s + [b] == [b] && [b][1..] == [];
    }
  }

  /** A bit of F is set when it is set in an odd number of U_1 ... U_c. */
  lemma {:induction false} FMeans(h: Sha, x: Input, c: nat, j: nat, b: nat)
    requires Usable(h, x) && c > 0 && j < 32
    ensures Bit(F(h, x, c)[j], b) <==> BitCount(BitsOfU(h, x, c, j, b)) % 2 == 1
    decreases c
  {
    var s := BitsOfU(h, x, c, j, b);
    assert s == s[..c - 1] + [Bit(U(h, x, c)[j], b)];
    BitCountSnoc(s[..c - 1], Bit(U(h, x, c)[j], b));
    if c > 1 {
      FMeans(h, x, c - 1, j, b);
      assert BitsOfU(h, x, c - 1, j, b) == s[..c - 1];
      MaskBits(F(h, x, c - 1)[j], U(h, x, c)[j], b);
    } else {
      assert s[..0] == [];
    }
  }

  // ------------------------------------------------------------ iterations split over calls

  /** Whether no iterations were asked for so far, and how many were done. */
  datatype Progress = Progress(first: bool, count: nat)

  function Next(p: Progress, iterations: nat): Progress {
    if p.first then Progress(false, if iterations == 0 then 1 else iterations)
    else Progress(false, p.count + iterations)
  }

  function Run(p: Progress, calls: seq<nat>): Progress
    decreases |calls|
  {
    if |calls| == 0 then p else Run(Next(p, calls[0]), calls[1..])
  }

  function Sum(calls: seq<nat>): nat {
    if |calls| == 0 then 0 else calls[0] + Sum(calls[1..])
  }

  lemma {:induction false} RunLater(count: nat, calls: seq<nat>)
    ensures Run(Progress(false, count), calls).count == count + Sum(calls)
    decreases |calls|
  {
    if |calls| > 0 { RunLater(count + calls[0], calls[1..]); }
  }

  /** However the iterations are split, they are done, unless the first call asks for none: then it does one. */
  lemma SplitIterations(calls: seq<nat>)
    requires |calls| > 0
    ensures Run(Progress(true, 1), calls).count == Sum(calls) <==> calls[0] > 0
    ensures Run(Progress(true, 1), calls).count == Sum(calls) + (if calls[0] == 0 then 1 else 0)
  {
    RunLater(Next(Progress(true, 1), calls[0]).count, calls[1..]);
  }
}
