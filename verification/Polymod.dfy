/**
 The checksum of Bech32 (BIP-173, "Checksum") and CashAddr: a linear code over five-bit
 symbols, kept in a shift register of six or eight symbols.
 */
module Polymod {
  import opened Arith
  import opened Words
  import opened Limbs
  import opened BigEndian

  datatype Code = Bech32 | CashAddr

  /** The bits below the symbol that is shifted out. */
  function Low(k: Code): nat {
    if k.Bech32? then 0x200_0000 else 0x8_0000_0000
  }

  /** The symbols of a checksum. */
  function Count(k: Code): nat {
    if k.Bech32? then 6 else 8
  }

  function Generator(k: Code, i: nat): nat
    requires i < 5
  {
    match k
    case Bech32 =>
      if i == 0 then 0x3b6a57b2 else if i == 1 then 0x26508e6d else if i == 2 then 0x1ea119fa
      else if i == 3 then 0x3d4233dd else 0x2a1462b3
    case CashAddr =>
      if i == 0 then 0x98f2bc8e61 else if i == 1 then 0x79b76d99e2 else if i == 2 then 0xf33e5fb3c4
      else if i == 3 then 0xae2eabe2a8 else 0x1e4f43e470
  }

  /** Bit i of b, spread over a generator. */
  function Tap(k: Code, b: nat, i: nat): nat
    requires i < 5
  {
    if Bit(b, i) then Generator(k, i) else 0
  }

  function Feedback(k: Code, b: nat): nat {
    Xor(Xor(Xor(Xor(Tap(k, b, 0), Tap(k, b, 1)), Tap(k, b, 2)), Tap(k, b, 3)), Tap(k, b, 4))
  }

  /** bech32_polymod_step and cashaddr_polymod_step */
  function Step(k: Code, pre: nat): nat {
    Xor(32 * (pre % Low(k)), Feedback(k, pre / Low(k)))
  }

  // ------------------------------------------------------------ exclusive or

  /** (a ^ b) ^ (c ^ d) = (a ^ c) ^ (b ^ d) */
  lemma XorExchange(a: nat, b: nat, c: nat, d: nat)
    ensures Xor(Xor(a, b), Xor(c, d)) == Xor(Xor(a, c), Xor(b, d))
  {
    XorAssoc(a, b, Xor(c, d));
    XorAssoc(b, c, d);
    XorComm(b, c);
    XorAssoc(c, b, d);
    XorAssoc(a, c, Xor(b, d));
  }

  lemma Xor32(a: nat, b: nat)
    ensures Xor(32 * a, 32 * b) == 32 * Xor(a, b)
  {
    var n := 5;
    XorParts(32 * a, 32 * b, n, 32, a, 0, b, 0);
  }

  /** A symbol below the base is appended. */
  lemma XorSymbol(u: nat, v: nat)
    requires v < 32
    ensures Xor(32 * u, v) == 32 * u + v
  {
    var n := 5;
    XorParts(32 * u, v, n, 32, u, 0, 0, v);
    assert Xor(u, 0) == u && Xor(0, v) == v;
  }

  // ------------------------------------------------------------ linearity

  lemma LowIsPower(k: Code, n: nat)
    requires n == if k.Bech32? then 25 else 35
    ensures Low(k) == Pow2(n)
  {
    Pow2Literals();
    Pow2Add(n - 5, 5);
    if k.Bech32? { Pow2Add(16, 4); assert Pow2(4) == 16; }
  }

  lemma TapLinear(k: Code, a: nat, b: nat, i: nat)
    requires i < 5
    ensures Tap(k, Xor(a, b), i) == Xor(Tap(k, a, i), Tap(k, b, i))
  {
    BitXor(a, b, i);
    XorSelf(Generator(k, i));
    assert Xor(0, Generator(k, i)) == Generator(k, i) == Xor(Generator(k, i), 0);
  }

  lemma FeedbackLinear(k: Code, a: nat, b: nat)
    ensures Feedback(k, Xor(a, b)) == Xor(Feedback(k, a), Feedback(k, b))
  {
    TapLinear(k, a, b, 0);
    TapLinear(k, a, b, 1);
    TapLinear(k, a, b, 2);
    TapLinear(k, a, b, 3);
    TapLinear(k, a, b, 4);
    var a0, a1, a2, a3, a4 := Tap(k, a, 0), Tap(k, a, 1), Tap(k, a, 2), Tap(k, a, 3), Tap(k, a, 4);
    var b0, b1, b2, b3, b4 := Tap(k, b, 0), Tap(k, b, 1), Tap(k, b, 2), Tap(k, b, 3), Tap(k, b, 4);
    XorExchange(a0, b0, a1, b1);
    XorExchange(Xor(a0, a1), Xor(b0, b1), a2, b2);
    XorExchange(Xor(Xor(a0, a1), a2), Xor(Xor(b0, b1), b2), a3, b3);
    XorExchange(Xor(Xor(Xor(a0, a1), a2), a3), Xor(Xor(Xor(b0, b1), b2), b3), a4, b4);
  }

  lemma StepLinear(k: Code, a: nat, b: nat)
    ensures Step(k, Xor(a, b)) == Xor(Step(k, a), Step(k, b))
  {
    var n, p := if k.Bech32? then 25 else 35, Low(k);
    LowIsPower(k, n);
    DivMod(a, p);
    DivMod(b, p);
    XorParts(a, b, n, p, a / p, a % p, b / p, b % p);
    DivModUnique(Xor(a, b), Xor(a / p, b / p), Xor(a % p, b % p), p);
    Xor32(a % p, b % p);
    FeedbackLinear(k, a / p, b / p);
    XorExchange(32 * (a % p), 32 * (b % p), Feedback(k, a / p), Feedback(k, b / p));
  }

  /** A symbol that is not shifted out only moves up. */
  lemma StepSmall(k: Code, a: nat)
    requires a < Low(k)
    ensures Step(k, a) == 32 * a
  {
    DivModUnique(a, 0, a, Low(k));
    NoFeedback(k);
  }

  lemma NoFeedback(k: Code)
    ensures Feedback(k, 0) == 0
  {
    forall i: nat | i < 5 ensures Tap(k, 0, i) == 0 { BitZero(i); }
  }

  /** The low bits of the feedback determine the symbol shifted out. */
  lemma FeedbackBits(k: Code, b: nat, i: nat)
    requires i < 5
    ensures Bit(Feedback(k, b), i) <==>
            (((((Bit(b, 0) && Bit(Generator(k, 0), i)) != (Bit(b, 1) && Bit(Generator(k, 1), i))) !=
               (Bit(b, 2) && Bit(Generator(k, 2), i))) != (Bit(b, 3) && Bit(Generator(k, 3), i))) !=
             (Bit(b, 4) && Bit(Generator(k, 4), i)))
  {
    BitZero(i);
    var t0, t1, t2, t3, t4 := Tap(k, b, 0), Tap(k, b, 1), Tap(k, b, 2), Tap(k, b, 3), Tap(k, b, 4);
    BitXor(t0, t1, i);
    BitXor(Xor(t0, t1), t2, i);
    BitXor(Xor(Xor(t0, t1), t2), t3, i);
    BitXor(Xor(Xor(Xor(t0, t1), t2), t3), t4, i);
  }

  /** The generators' lowest five bits are independent. */
  lemma FeedbackZero(k: Code, b: nat)
    requires b < 32 && Feedback(k, b) % 32 == 0
    ensures b == 0
  {
    forall i: nat | i < 5 ensures !Bit(Feedback(k, b), i) { LowBitsZero(Feedback(k, b), i, 5); }
    FeedbackBits(k, b, 0);
    FeedbackBits(k, b, 1);
    FeedbackBits(k, b, 2);
    FeedbackBits(k, b, 3);
    FeedbackBits(k, b, 4);
    if k.Bech32? { Bech32Bits(); } else { CashAddrBits(); }
    forall i: nat | i < 5 ensures !Bit(b, i) && !Bit(0, i) { BitZero(i); }
    var n := 5;
    assert Pow2(n) == 32;
    BitsDetermine(b, 0, n);
  }

  lemma {:induction false} LowBitsZero(x: nat, i: nat, n: nat)
    requires i < n && x % Pow2(n) == 0
    ensures !Bit(x, i)
    decreases n
  {
    DivDiv(x, 2, Pow2(n - 1));
    if i > 0 { LowBitsZero(x / 2, i - 1, n - 1); }
  }

  lemma Bech32Bits()
    ensures !Bit(0x3b6a57b2, 0) && Bit(0x3b6a57b2, 1) && !Bit(0x3b6a57b2, 2) && !Bit(0x3b6a57b2, 3) && Bit(0x3b6a57b2, 4)
    ensures Bit(0x26508e6d, 0) && !Bit(0x26508e6d, 1) && Bit(0x26508e6d, 2) && Bit(0x26508e6d, 3) && !Bit(0x26508e6d, 4)
    ensures !Bit(0x1ea119fa, 0) && Bit(0x1ea119fa, 1) && !Bit(0x1ea119fa, 2) && Bit(0x1ea119fa, 3) && Bit(0x1ea119fa, 4)
    ensures Bit(0x3d4233dd, 0) && !Bit(0x3d4233dd, 1) && Bit(0x3d4233dd, 2) && Bit(0x3d4233dd, 3) && Bit(0x3d4233dd, 4)
    ensures Bit(0x2a1462b3, 0) && Bit(0x2a1462b3, 1) && !Bit(0x2a1462b3, 2) && !Bit(0x2a1462b3, 3) && Bit(0x2a1462b3, 4)
  {}

  lemma CashAddrBits()
    ensures Bit(0x98f2bc8e61, 0) && !Bit(0x98f2bc8e61, 1) && !Bit(0x98f2bc8e61, 2) && !Bit(0x98f2bc8e61, 3) && !Bit(0x98f2bc8e61, 4)
    ensures !Bit(0x79b76d99e2, 0) && Bit(0x79b76d99e2, 1) && !Bit(0x79b76d99e2, 2) && !Bit(0x79b76d99e2, 3) && !Bit(0x79b76d99e2, 4)
    ensures !Bit(0xf33e5fb3c4, 0) && !Bit(0xf33e5fb3c4, 1) && Bit(0xf33e5fb3c4, 2) && !Bit(0xf33e5fb3c4, 3) && !Bit(0xf33e5fb3c4, 4)
    ensures !Bit(0xae2eabe2a8, 0) && !Bit(0xae2eabe2a8, 1) && !Bit(0xae2eabe2a8, 2) && Bit(0xae2eabe2a8, 3) && !Bit(0xae2eabe2a8, 4)
    ensures !Bit(0x1e4f43e470, 0) && !Bit(0x1e4f43e470, 1) && !Bit(0x1e4f43e470, 2) && !Bit(0x1e4f43e470, 3) && Bit(0x1e4f43e470, 4)
  {}

  // ------------------------------------------------------------ the generator polynomials

  /** Multiplication by x in the field of 32 elements, where x^5 is x^3 + 1: bits 0 and 3 of the rest are flipped. */
  function Double(v: nat): (w: nat)
    requires v < 32
    ensures w < 32
  {
    if v < 16 then 2 * v
    else
      var rest := 2 * v - 32;
      if rest / 8 % 2 == 0 then rest + 9 else rest - 7
  }

  function Doubled(s: seq<nat>): (t: seq<nat>)
    requires forall i :: 0 <= i < |s| ==> s[i] < 32
    ensures |t| == |s| && forall i :: 0 <= i < |s| ==> t[i] == Double(s[i])
  {
    seq(|s|, i requires 0 <= i < |s| => Double(s[i]))
  }

  /** x^i times the generator polynomial below its leading one, its coefficients in the order of BIP-173. */
  function Row(k: Code, i: nat): (s: seq<nat>)
    requires i < 5
    ensures forall j :: 0 <= j < |s| ==> s[j] < 32
  {
    match k
    case Bech32 =>
      if i == 0 then [29, 22, 20, 21, 29, 18] else if i == 1 then [19, 5, 1, 3, 19, 13] else if i == 2 then [15, 10, 2, 6, 15, 26]
      else if i == 3 then [30, 20, 4, 12, 30, 29] else [21, 1, 8, 24, 21, 19]
    case CashAddr =>
      if i == 0 then [19, 3, 25, 11, 25, 3, 19, 1] else if i == 1 then [15, 6, 27, 22, 27, 6, 15, 2]
      else if i == 2 then [30, 12, 31, 5, 31, 12, 30, 4] else if i == 3 then [21, 24, 23, 10, 23, 24, 21, 8]
      else [3, 25, 7, 20, 7, 25, 3, 16]
  }

  /** Each row is twice the one before. */
  lemma RowsDouble(k: Code, i: nat)
    requires i < 4
    ensures Row(k, i + 1) == Doubled(Row(k, i))
  {}

  lemma SixSymbols(s: seq<int>)
    requires |s| == 6
    ensures Big(s, 32) == 0x200_0000 * s[0] + 0x10_0000 * s[1] + 0x8000 * s[2] + 0x400 * s[3] + 32 * s[4] + s[5]
  {
    BigPrefix(s, 0, 32);
    BigPrefix(s, 1, 32);
    BigPrefix(s, 2, 32);
    BigPrefix(s, 3, 32);
    BigPrefix(s, 4, 32);
    BigPrefix(s, 5, 32);
    assert s[..0] == [] && s[..6] == s;
  }

  lemma EightSymbols(s: seq<int>)
    requires |s| == 8
    ensures Big(s, 32) == 0x400 * Big(s[..6], 32) + 32 * s[6] + s[7]
  {
    BigPrefix(s, 6, 32);
    BigPrefix(s, 7, 32);
    assert s[..8] == s;
  }

  /** The generators are these rows. */
  lemma GeneratorMeans(k: Code, i: nat)
    requires i < 5
    ensures Big(Row(k, i), 32) == Generator(k, i)
  {
    if k.Bech32? {
      SixSymbols(Row(k, i));
    } else {
      EightSymbols(Row(k, i));
      SixSymbols(Row(k, i)[..6]);
    }
  }

  /** Shifting out bit i of the top symbol subtracts x^i times the generator polynomial. */
  lemma StepOfTopBit(k: Code, i: nat)
    requires i < 5
    ensures Step(k, Low(k) * Pow2(i)) == Generator(k, i)
  {
    var b := Pow2(i);
    DivModUnique(Low(k) * b, b, 0, Low(k));
    forall j: nat | j < 5 ensures Bit(b, j) <==> j == i { PowerBit(i, j); }
  }

  lemma {:induction false} PowerBit(i: nat, j: nat)
    ensures Bit(Pow2(i), j) <==> i == j
  {
    if i > 0 && j > 0 { PowerBit(i - 1, j - 1); }
    if i == 0 && j > 0 { BitZero(j - 1); }
  }
}
