/**
 The fast modular inverse: Schroeppel's almost modular inverse on two combo registers,
 followed by a division by 2^k modulo the prime.
 */
module BnInverse {
  import opened Words
  import opened Limbs
  import opened Powers
  import opened Arith
  import opened Modular
  import opened Primes
  import opened ComboSpec
  import opened Combos
  import opened BignumSpec
  import opened BnDivide
  import B = Bignum

  /** floor(log2(n)) */
  function Log2(n: int): nat
    requires n > 0
  {
    if n == 1 then 0 else 1 + Log2(n / 2)
  }

  lemma {:induction false} Log2Monotone(m: int, n: int)
    requires 0 < m <= n
    ensures Log2(m) <= Log2(n)
    decreases n
  {
    if m > 1 { Log2Monotone(m / 2, n / 2); }
  }

  lemma {:induction false} Log2Shift(n: int, j: nat)
    requires n > 0
    ensures Pow2(j) * n > 0 && Log2(Pow2(j) * n) == Log2(n) + j
    decreases j
  {
    MulPositive(Pow2(j), n);
    if j > 0 {
      Log2Shift(n, j - 1);
      Assoc(2, Pow2(j - 1), n);
      var m := Pow2(j - 1) * n;
      assert Pow2(j) * n == 2 * m && (2 * m) / 2 == m;
    }
  }

  lemma {:induction false} Log2Bound(n: int, j: nat)
    requires 0 < n < Pow2(j)
    ensures Log2(n) < j
    decreases j
  {
    if n > 1 { Log2Bound(n / 2, j - 1); }
  }

  /**
   The loop invariant, for the register that may be even (ef, es) and the odd one (of, os):
   sign is 1 when the even register is vr.  It says, for u, s in us and v, r in vr,
     u s + v r = p,  x s = v 2^k  and  -x r = u 2^k  modulo p.
   */
  ghost predicate Almost(ef: int, es: int, of: int, os: int, sign: int, k: nat, x: int, p: int)
    requires p > 0
  {
    ef >= 1 && of >= 1 && es >= 0 && os >= 0 && Relations(ef, es, of, os, sign, k, x, p).Holds?
  }

  ghost function Relations(ef: int, es: int, of: int, os: int, sign: int, k: nat, x: int, p: int): Verdict
    requires p > 0
  {
    if && ef * es + of * os == p
       && Cong(x * os, sign * (ef * Pow2(k)), p)
       && Cong(x * es, -sign * (of * Pow2(k)), p)
    then Holds else Fails
  }

  /** The rest of the invariant: k, the sizes and the parities. */
  ghost predicate Sizes(ef: int, es: int, of: int, os: int, k: nat)
    requires ef >= 1 && of >= 1
  {
    && Log2(ef) + Log2(of) + k <= 510
    && es <= Pow2(k) && os <= (if ef % 2 == 0 then 2 * Pow2(k) else Pow2(k))
    && of % 2 == 1 && os % 2 == 1 && (ef % 2 == 0 || es % 2 == 0)
  }

  /** Halving the even register's first number j times doubles its second one. */
  lemma AlmostHalve(ef: int, es: int, of: int, os: int, sign: int, k: nat, x: int, p: int, f: int, s: int, j: nat)
    requires p > 0 && Almost(ef, es, of, os, sign, k, x, p) && (sign == 1 || sign == -1)
    requires ef == Pow2(j) * f && s == Pow2(j) * es
    ensures Almost(f, s, of, os, sign, k + j, x, p)
  {
    var m, w := Pow2(j), Pow2(k);
    Pow2Add(k, j);
    if f < 1 { MulLe(m, f, 0); assert false; }
    MulNonNegative(m, es);
    HalveProducts(ef, es, f, s, of, x, m, w, sign);
    CongMul(m, m, x * es, -sign * (of * w), p);
  }

  lemma HalveProducts(ef: int, es: int, f: int, s: int, of: int, x: int, m: int, w: int, sign: int)
    requires ef == m * f && s == m * es && (sign == 1 || sign == -1)
    ensures f * s == ef * es
    ensures ef * w == f * (w * m)
    ensures m * (x * es) == x * s
    ensures m * (-sign * (of * w)) == -sign * (of * (w * m))
  {
    Assoc(f, m, es);
    MulEq(es, ef, m * f);
    MulEq(w, ef, m * f);
    Assoc(w, m, f);
    Assoc(m, x, es);
    Assoc(x, m, es);
    Assoc(of, w, m);
    Assoc(m, of, w);
  }

  /** Exchanging the registers flips the sign. */
  lemma AlmostSwap(ef: int, es: int, of: int, os: int, sign: int, k: nat, x: int, p: int)
    requires p > 0 && Almost(ef, es, of, os, sign, k, x, p)
    ensures Almost(of, os, ef, es, -sign, k, x, p)
  {}

  /** u - v with r + s, or v - u with s + r. */
  lemma AlmostSubtract(ef: int, es: int, of: int, os: int, sign: int, k: nat, x: int, p: int)
    requires p > 0 && Almost(ef, es, of, os, sign, k, x, p) && ef > of
    ensures Almost(ef - of, es, of, os + es, sign, k, x, p)
  {
    var w := Pow2(k);
    SubtractProducts(ef, es, of, os, sign, x, w);
    CongAdd(x * os, sign * (ef * w), x * es, -sign * (of * w), p);
  }

  lemma SubtractProducts(ef: int, es: int, of: int, os: int, sign: int, x: int, w: int)
    ensures (ef - of) * es + of * (os + es) == ef * es + of * os
    ensures x * (os + es) == x * os + x * es
    ensures sign * ((ef - of) * w) == sign * (ef * w) + -sign * (of * w)
  {
    Distrib(es, ef, of);
    Distrib(of, os, es);
    Distrib(x, os, es);
    Distrib(w, ef, of);
    Distrib(sign, ef * w, of * w);
    assert -sign * (of * w) == -(sign * (of * w));
  }

  /** u s + v r = p bounds both products by p. */
  lemma ProductsBounded(ef: int, es: int, of: int, os: int, sign: int, k: nat, x: int, p: int)
    requires p > 0 && Almost(ef, es, of, os, sign, k, x, p)
    ensures 0 <= ef * es <= p && 0 <= of * os <= p
  {
    MulNonNegative(ef, es);
    MulNonNegative(of, os);
  }

  /** Equal first numbers divide the prime; being smaller than it, they are 1. */
  lemma EqualIsOne(f: int, es: int, os: int, sign: int, k: nat, x: int, p: int)
    requires IsPrime(p) && Almost(f, es, f, os, sign, k, x, p) && f < p
    ensures f == 1 && es + os == p
  {
    Distrib(f, es, os);
    PrimeFactor(p, f, es + os);
  }

  /** The first numbers have no common divisor. */
  lemma CoprimeFirsts(ef: int, es: int, of: int, os: int, sign: int, k: nat, x: int, p: int, d: int)
    requires IsPrime(p) && Almost(ef, es, of, os, sign, k, x, p) && (ef < p || of < p)
    requires d >= 1 && Divides(d, ef) && Divides(d, of)
    ensures d == 1
  {
    DivMod(ef, d);
    DivMod(of, d);
    var a, b := ef / d, of / d;
    MulEq(es, ef, d * a);
    MulEq(os, of, d * b);
    Assoc(d, a, es);
    Assoc(d, b, os);
    Distrib(d, a * es, b * os);
    PrimeFactor(p, d, a * es + b * os);
    if d == p {
      if a <= 0 { MulLe(d, a, 0); assert false; }
      if b <= 0 { MulLe(d, b, 0); assert false; }
      MulLe(d, 1, a);
      MulLe(d, 1, b);
      assert false;
    }
  }

  lemma BitParity(x: nat, j: nat)
    ensures Bit(x, j) <==> (x / Pow2(j)) % 2 == 1
    decreases j
  {
    if j > 0 {
      BitParity(x / 2, j - 1);
      DivDiv(x, 2, Pow2(j - 1));
    }
  }

  /** One more trailing zero bit. */
  lemma TrailingZero(x: int, j: nat)
    requires 0 < x && x % Pow2(j) == 0 && !Bit(x, j)
    ensures x % Pow2(j + 1) == 0 && Pow2(j + 1) <= x
  {
    BitParity(x, j);
    DivDiv(x, Pow2(j), 2);
    DivMod(x, Pow2(j + 1));
    assert Pow2(j) * 2 == Pow2(j + 1);
    if x / Pow2(j + 1) <= 0 { MulLe(Pow2(j + 1), x / Pow2(j + 1), 0); assert false; }
    MulLe(Pow2(j + 1), 1, x / Pow2(j + 1));
  }

  lemma WordQuotient(first: int, h: int, word: int, p: int, q: int, wq: int, wr: int)
    requires first == 0x1_0000_0000 * h + word && p * q == 0x1_0000_0000 && word == p * wq + wr
    ensures first == p * (q * h + wq) + wr
  {
    Assoc(p, q, h);
    Distrib(p, q * h, wq);
  }

  /** Dividing out all trailing zeros of the low word makes the number odd. */
  lemma OddQuotient(first: int, word: int, f: int, j: nat)
    requires 0 <= j < 32 && first == Pow2(j) * f && first % 0x1_0000_0000 == word && Bit(word, j)
    requires 0 <= word
    ensures f % 2 == 1
  {
    var p, q, h := Pow2(j), Pow2(32 - j), first / 0x1_0000_0000;
    Pow2Literals();
    Pow2Add(j, 32 - j);
    DivMod(first, 0x1_0000_0000);
    DivMod(word, p);
    WordQuotient(first, h, word, p, q, word / p, word % p);
    DivModUnique(first, q * h + word / p, word % p, p);
    DivModUnique(first, f, 0, p);
    BitParity(word, j);
    EvenFactor(Pow2(31 - j), q, h, word / p);
  }

  lemma EvenFactor(r: int, q: int, h: int, w: int)
    requires q == 2 * r
    ensures (q * h + w) % 2 == w % 2
  {
    Assoc(2, r, h);
  }

  /** Shift whole zero words out of the first number and into the second. */
  method DropZeroWords(even: Combo) returns (j: nat)
    requires even.Valid() && even.Trimmed() && even.First() > 0
    modifies even, even.a
    ensures even.Valid() && even.Trimmed() && even.len1 <= old(even.len1) && even.a[0] != 0
    ensures old(even.First()) == Pow2(j) * even.First() && even.First() > 0
    ensures even.Second() == Pow2(j) * old(even.Second())
  {
    j := 0;
    ghost var f0, s0 := even.First(), even.Second();
    while even.a[0] == 0
      invariant even.Valid() && even.Trimmed() && even.len1 <= old(even.len1)
      invariant f0 == Pow2(j) * even.First() && even.Second() == Pow2(j) * s0
      invariant even.First() > 0
      decreases even.len1
    {
      ghost var f, s := even.First(), even.Second();
      even.ShiftWord();
      WordStep(f0, s0, f, s, even.First(), even.Second(), j);
      j := j + 32;
    }
  }

  /** The number of zero bits below the lowest set bit of a word. */
  method CountZeroBits(word: u32) returns (b: nat)
    requires word != 0
    ensures b < 32 && Bit(word, b) && word % Pow2(b) == 0
  {
    b := 0;
    DivModUnique(word, word, 0, 1);
    Pow2Literals();
    while !Bit(word, b)
      invariant 0 <= b < 32 && word % Pow2(b) == 0
      decreases 32 - b
    {
      TrailingZero(word, b);
      b := b + 1;
    }
  }

  /** Shift both numbers by less than a word; f0 and s0 are what they were j bits earlier. */
  method ShiftBits(even: Combo, b: nat, ghost f0: int, ghost s0: int, ghost j: nat)
    requires even.Valid() && even.Trimmed() && even.First() > 0 && b < 32 && even.a[0] % Pow2(b) == 0
    requires f0 == Pow2(j) * even.First() && even.Second() == Pow2(j) * s0
    requires s0 >= 0 && f0 * s0 < Pow(0x1_0000_0000, 8)
    modifies even, even.a
    ensures even.Valid() && even.Trimmed() && even.len1 <= old(even.len1)
    ensures if b == 0 then even.First() == old(even.First()) && even.Second() == old(even.Second())
            else old(even.First()) == Pow2(b) * even.First() && even.Second() == Pow2(b) * old(even.Second())
  {
    ghost var f, s := even.First(), even.Second();
    if b > 0 {
      even.ShiftFirst(b);
      FitsAfterShift(even.a[..], even.len1, f, s, b, f0, s0, j);
      even.ShiftSecond(b);
    }
  }

  /** Shift the trailing zero bits of the first number out of it and into the second. */
  method ReduceEven(even: Combo) returns (j: nat)
    requires even.Valid() && even.Trimmed() && even.First() > 0 && even.Second() >= 0
    requires even.First() * even.Second() < Pow(0x1_0000_0000, 8)
    modifies even, even.a
    ensures even.Valid() && even.Trimmed() && even.len1 <= old(even.len1)
    ensures old(even.First()) == Pow2(j) * even.First() && even.First() % 2 == 1
    ensures even.Second() == Pow2(j) * old(even.Second())
    ensures j == 0 ==> old(even.First()) == even.First()
  {
    ghost var f0, s0 := even.First(), even.Second();
    j := DropZeroWords(even);
    ghost var f, s := even.First(), even.Second();
    LowWord(even.a[..], even.len1);
    var b := CountZeroBits(even.a[0]);
    ghost var word := even.a[0];
    ShiftBits(even, b, f0, s0, j);
    EvenDone(f0, s0, f, s, even.First(), even.Second(), j, b, word);
    j := j + b;
  }

  lemma WordStep(f0: int, s0: int, f: int, s: int, f': int, s': int, j: nat)
    requires f0 == Pow2(j) * f && s == Pow2(j) * s0 && f == 0x1_0000_0000 * f' && s' == 0x1_0000_0000 * s
    requires f > 0
    ensures f0 == Pow2(j + 32) * f' && s' == Pow2(j + 32) * s0 && f' > 0
  {
    Pow2Literals();
    BitStep(f0, s0, f, s, f', s', j, 32);
  }

  lemma BitStep(f0: int, s0: int, f: int, s: int, f': int, s': int, j: nat, b: nat)
    requires f0 == Pow2(j) * f && s == Pow2(j) * s0 && f == Pow2(b) * f' && s' == Pow2(b) * s
    requires f > 0
    ensures f0 == Pow2(j + b) * f' && s' == Pow2(j + b) * s0 && f' > 0
    ensures j + b == 0 ==> f0 == f'
  {
    Pow2Add(j, b);
    MulEq(Pow2(j), f, Pow2(b) * f');
    Assoc(Pow2(j), Pow2(b), f');
    MulEq(Pow2(b), s, Pow2(j) * s0);
    Assoc(Pow2(b), Pow2(j), s0);
    if f' <= 0 { MulLe(Pow2(b), f', 0); assert false; }
  }

  lemma EvenDone(f0: int, s0: int, f: int, s: int, f': int, s': int, j: nat, b: nat, word: int)
    requires f0 == Pow2(j) * f && s == Pow2(j) * s0 && f > 0
    requires if b == 0 then f' == f && s' == s else f == Pow2(b) * f' && s' == Pow2(b) * s
    requires b < 32 && f % 0x1_0000_0000 == word && 0 <= word && Bit(word, b)
    ensures f0 == Pow2(j + b) * f' && s' == Pow2(j + b) * s0
    ensures f' % 2 == 1 && (j + b == 0 ==> f0 == f')
  {
    assert Pow2(0) == 1;
    OddQuotient(f, word, f', b);
    BitStep(f0, s0, f, s, f', s', j, b);
  }

  lemma FitsAfterShift(w: seq<u32>, n: int, f: int, s: int, b: nat, f0: int, s0: int, j: nat)
    requires Shape(w, n) && n > 0 && w[n - 1] != 0 && s0 >= 0
    requires f == Pow2(b) * ComboSpec.First(w, n)
    requires f0 == Pow2(j) * f && s == Pow2(j) * s0 && f0 * s0 < Pow(0x1_0000_0000, 8)
    ensures Pow2(b) * s < Pow(0x1_0000_0000, 9 - n)
  {
    var f' := ComboSpec.First(w, n);
    Top(w, n);
    MulNonNegative(Pow2(j), s0);
    MulNonNegative(Pow2(b), s);
    SameProduct(f0, s0, f, s, Pow2(j));
    SameProduct(f, s, f', Pow2(b) * s, Pow2(b));
    Room(n, f', Pow2(b) * s, f' * (Pow2(b) * s));
  }

  lemma SameProduct(f0: int, s0: int, f: int, s: int, m: int)
    requires f0 == m * f && s == m * s0
    ensures f0 * s0 == f * s
  {
    MulEq(s0, f0, m * f);
    MulEq(f, s, m * s0);
    Assoc(f, m, s0);
  }

  /** After the reduction both first numbers are odd and only the even register's second is even. */
  ghost predicate Reduced(ef: int, es: int, of: int, os: int, k: nat)
    requires ef >= 1 && of >= 1
  {
    && Log2(ef) + Log2(of) + k <= 510
    && 0 <= es <= Pow2(k) && 0 <= os <= Pow2(k)
    && ef % 2 == 1 && of % 2 == 1 && es % 2 == 0 && os % 2 == 1
  }

  lemma SizesHalve(ef: int, es: int, of: int, os: int, k: nat, f: int, s: int, j: nat)
    requires ef >= 1 && of >= 1 && es >= 0 && os >= 0 && f >= 1 && Sizes(ef, es, of, os, k)
    requires ef == Pow2(j) * f && s == Pow2(j) * es && f % 2 == 1 && (j == 0 ==> ef == f)
    ensures Reduced(f, s, of, os, k + j)
  {
    Log2Shift(f, j);
    Doubled(es, k, s, j);
    if j == 0 { assert Pow2(0) == 1; }
    Pow2Monotone(k, k + j);
    if j > 0 { Pow2Monotone(k + 1, k + j); }
  }

  lemma Doubled(es: int, k: nat, s: int, j: nat)
    requires 0 <= es <= Pow2(k) && s == Pow2(j) * es
    ensures 0 <= s <= Pow2(k + j)
    ensures j > 0 ==> s % 2 == 0
  {
    Pow2Add(k, j);
    MulLe(Pow2(j), es, Pow2(k));
    MulNonNegative(Pow2(j), es);
    if j > 0 { EvenProduct(Pow2(j), Pow2(j - 1), es); }
  }

  lemma EvenProduct(m: int, h: int, e: int)
    requires m == 2 * h
    ensures (m * e) % 2 == 0
  {
    Assoc(2, h, e);
  }

  lemma SizesSubtract(ef: int, es: int, of: int, os: int, k: nat)
    requires ef > of >= 1 && es >= 0 && os >= 0
    requires Reduced(ef, es, of, os, k) || Reduced(of, os, ef, es, k)
    ensures Sizes(ef - of, es, of, os + es, k)
  {
    Log2Monotone(ef - of, ef);
  }

  lemma StartAlmost(x: int, p: int)
    requires p % 2 == 1 && 0 < x < p < Pow(0x1_0000_0000, 8)
    ensures Almost(x, 0, p, 1, 1, 0, x, p) && Sizes(x, 0, p, 1, 0)
  {
    CongByMultiple(0, -p, p, 1);
    WordPower(8);
    Log2Bound(x, 256);
    Log2Bound(p, 256);
  }

  lemma QuotientSmaller(ef: int, f: int, j: nat)
    requires ef == Pow2(j) * f && f >= 1
    ensures f <= ef
  {
    MulLe(f, 1, Pow2(j));
  }

  /** What the source asserts of the lowest words once both first numbers are odd. */
  lemma ParityWords(even: Combo, odd: Combo)
    requires even.Valid() && odd.Valid() && even.Trimmed() && odd.Trimmed()
    requires even.First() % 2 == 1 && odd.First() % 2 == 1 && even.Second() % 2 == 0 && odd.Second() % 2 == 1
    ensures odd.a[0] % 2 == 1 && odd.a[8] % 2 == 1 && even.a[0] % 2 == 1 && even.a[8] % 2 == 0
  {
    LowWord(even.a[..], even.len1);
    LowWord(odd.a[..], odd.len1);
    LowWordBE(even.a[..], even.len1);
    LowWordBE(odd.a[..], odd.len1);
  }

  /** With u = v = 1: s + r = p, and s < p because x s = 2^k is not 0 modulo p. */
  lemma FinishAlmost(s: int, r: int, k: nat, x: int, p: int)
    requires p > 2 && p % 2 == 1 && s >= 0 && r >= 0 && s + r == p
    requires s <= Pow2(k) && r <= Pow2(k) && Cong(x * s, Pow2(k), p)
    ensures s < p && p <= 2 * Pow2(k)
  {
    if s == p {
      CongByMultiple(0, x * p, p, -x);
      CongTrans(0, x * s, Pow2(k), p);
      CancelPow2(1, k, p);
      SmallZero(1, p);
      assert false;
    }
  }

  /** The two registers in either role. */
  ghost predicate Registers(us: Combo, vr: Combo, even: Combo, odd: Combo, sign: int)
    reads us, us.a, vr, vr.a
  {
    && us.Valid() && vr.Valid() && us != vr && us.a != vr.a
    && ((odd == us && even == vr && sign == 1) || (odd == vr && even == us && sign == -1))
  }

  /** What holds at the head of the loop. */
  ghost predicate LoopInvariant(us: Combo, vr: Combo, even: Combo, odd: Combo, sign: int, k: nat, x: int, p: int)
    requires p > 0
    reads us, us.a, vr, vr.a
  {
    && Registers(us, vr, even, odd, sign) && odd.Trimmed() && vr.First() < p
    && Almost(even.First(), even.Second(), odd.First(), odd.Second(), sign, k, x, p)
    && Sizes(even.First(), even.Second(), odd.First(), odd.Second(), k)
  }

  /** What holds once both first numbers are odd. */
  ghost predicate BothOdd(us: Combo, vr: Combo, even: Combo, odd: Combo, sign: int, k: nat, x: int, p: int)
    requires p > 0
    reads us, us.a, vr, vr.a
  {
    && Registers(us, vr, even, odd, sign) && even.Trimmed() && odd.Trimmed() && vr.First() < p
    && Almost(even.First(), even.Second(), odd.First(), odd.Second(), sign, k, x, p)
    && Reduced(even.First(), even.Second(), odd.First(), odd.Second(), k)
  }

  /** What holds when the larger first number has been made the even register's. */
  ghost predicate Chosen(us: Combo, vr: Combo, even: Combo, odd: Combo, sign: int, k: nat, x: int, p: int)
    requires p > 0
    reads us, us.a, vr, vr.a
  {
    && Registers(us, vr, even, odd, sign) && odd.Trimmed() && vr.First() < p
    && Almost(even.First(), even.Second(), odd.First(), odd.Second(), sign, k, x, p)
    && even.First() > odd.First() && odd.len1 <= even.len1
    && Sizes(even.First() - odd.First(), even.Second(), odd.First(), odd.Second() + even.Second(), k)
  }

  /** The almost inverse is found: u = v = 1 and x s = 2^k modulo p. */
  ghost predicate Found(us: Combo, k: nat, x: int, p: int)
    requires p > 0
    reads us, us.a
  {
    && us.Valid() && us.len1 == 1 && us.First() == 1
    && 0 <= us.Second() < p && Cong(x * us.Second(), Pow2(k), p)
    && k <= 510 && p <= 2 * Pow2(k)
  }

  /** The first part of an iteration: make both first numbers odd. */
  method ReduceStep(us: Combo, vr: Combo, even: Combo, odd: Combo, k: nat, ghost sign: int, ghost x: int, ghost p: int)
    returns (k': nat)
    requires 0 < p < Pow(0x1_0000_0000, 8) && LoopInvariant(us, vr, even, odd, sign, k, x, p)
    modifies even, even.a
    ensures BothOdd(us, vr, even, odd, sign, k', x, p)
    ensures even.First() <= old(even.First())
    ensures odd.a[0] % 2 == 1 && odd.a[8] % 2 == 1 && even.a[0] % 2 == 1 && even.a[8] % 2 == 0
  {
    even.AdjustLength();
    ghost var ef, es, of, os := even.First(), even.Second(), odd.First(), odd.Second();
    ProductsBounded(ef, es, of, os, sign, k, x, p);
    var j := ReduceEven(even);
    AlmostHalve(ef, es, of, os, sign, k, x, p, even.First(), even.Second(), j);
    SizesHalve(ef, es, of, os, k, even.First(), even.Second(), j);
    QuotientSmaller(ef, even.First(), j);
    k' := k + j;
    ParityWords(even, odd);
  }

  /** The larger of two odd first numbers becomes the even register's; equal ones end the loop. */
  method Choose(us: Combo, vr: Combo, even: Combo, odd: Combo, ghost sign: int, ghost k: nat, ghost x: int, ghost p: int)
    returns (done: bool, e: Combo, o: Combo, ghost g: int)
    requires IsPrime(p) && p % 2 == 1 && BothOdd(us, vr, even, odd, sign, k, x, p)
    ensures done ==> Found(us, k, x, p)
    ensures !done ==> Chosen(us, vr, e, o, g, k, x, p)
    ensures e.Valid() && o.Valid() && e.First() + o.First() == even.First() + odd.First()
  {
    ghost var ef, es, of, os := even.First(), even.Second(), odd.First(), odd.Second();
    AlmostSwap(ef, es, of, os, sign, k, x, p);
    var cmp := Compare(us, vr);
    done := cmp == 0;
    if cmp > 0 {
      e, o, g := us, vr, -1;
    } else {
      e, o, g := vr, us, 1;
    }
    if done {
      ReadOff(us, vr, even, odd, sign, k, x, p);
    } else if ef > of {
      SizesSubtract(ef, es, of, os, k);
    } else {
      SizesSubtract(of, os, ef, es, k);
    }
  }

  /** Reading off the result when both first numbers are equal. */
  lemma ReadOff(us: Combo, vr: Combo, even: Combo, odd: Combo, sign: int, k: nat, x: int, p: int)
    requires IsPrime(p) && p % 2 == 1 && BothOdd(us, vr, even, odd, sign, k, x, p)
    requires even.First() == odd.First()
    ensures Found(us, k, x, p)
  {
    EqualIsOne(even.First(), even.Second(), odd.Second(), sign, k, x, p);
    assert 1 * Pow2(k) == Pow2(k);
    FinishAlmost(us.Second(), vr.Second(), k, x, p);
    OneWord(us.a[..], us.len1);
  }

  lemma SubtractFits(ef: int, es: int, s: seq<u32>, n: int, os: int, sign: int, k: nat, x: int, p: int)
    requires 0 < p < Pow(0x1_0000_0000, 8) && Shape(s, n) && n > 0 && s[n - 1] != 0
    requires Almost(ef, es, ComboSpec.First(s, n), os, sign, k, x, p) && ef > ComboSpec.First(s, n)
    ensures Almost(ef - ComboSpec.First(s, n), es, ComboSpec.First(s, n), os + es, sign, k, x, p)
    ensures os + es < Pow(0x1_0000_0000, 9 - n)
  {
    var of := ComboSpec.First(s, n);
    AlmostSubtract(ef, es, of, os, sign, k, x, p);
    ProductsBounded(ef - of, es, of, os + es, sign, k, x, p);
    Top(s, n);
    Room(n, of, os + es, p);
  }

  /** The last part: subtract the smaller first number, add the second numbers. */
  method SubtractStep(us: Combo, vr: Combo, even: Combo, odd: Combo, ghost k: nat, ghost sign: int, ghost x: int, ghost p: int)
    requires 0 < p < Pow(0x1_0000_0000, 8) && Chosen(us, vr, even, odd, sign, k, x, p)
    modifies even.a, odd.a
    ensures LoopInvariant(us, vr, even, odd, sign, k, x, p)
    ensures 0 <= even.First() + odd.First() < old(even.First() + odd.First())
  {
    SubtractFits(even.First(), even.Second(), odd.a[..], odd.len1, odd.Second(), sign, k, x, p);
    SubtractAndAdd(even, odd);
  }

  method SubtractAndAdd(even: Combo, odd: Combo)
    requires even.Valid() && odd.Valid() && even != odd && even.a != odd.a && odd.len1 <= even.len1
    requires odd.Trimmed() && odd.First() < even.First()
    requires odd.Second() + even.Second() < Pow(0x1_0000_0000, 9 - odd.len1)
    modifies even.a, odd.a
    ensures even.Valid() && odd.Valid() && odd.Trimmed()
    ensures even.First() == old(even.First()) - old(odd.First()) && odd.First() == old(odd.First())
    ensures even.Second() == old(even.Second()) && odd.Second() == old(odd.Second()) + old(even.Second())
  {
    SubtractFirst(even, odd);
    AddSecond(odd, even);
    assert odd.a[odd.len1 - 1] == odd.a[..odd.len1][odd.len1 - 1];
  }

  /** One iteration of the loop. */
  method Iterate(us: Combo, vr: Combo, even: Combo, odd: Combo, k: nat, ghost sign: int, ghost x: int, ghost p: int)
    returns (done: bool, e: Combo, o: Combo, k': nat, ghost g: int)
    requires IsPrime(p) && p % 2 == 1 && p < Pow(0x1_0000_0000, 8)
    requires LoopInvariant(us, vr, even, odd, sign, k, x, p)
    modifies us, us.a, vr, vr.a
    ensures done ==> Found(us, k', x, p)
    ensures !done ==> LoopInvariant(us, vr, e, o, g, k', x, p)
    ensures !done ==> 0 <= e.First() + o.First() < old(even.First() + odd.First())
  {
    k' := ReduceStep(us, vr, even, odd, k, sign, x, p);
    done, e, o, g := Choose(us, vr, even, odd, sign, k', x, p);
    if !done {
      SubtractStep(us, vr, e, o, k', g, x, p);
    }
  }

  /** The almost inverse: x s = 2^k modulo p, with s in the us register. */
  method AlmostInverse(us: Combo, vr: Combo, ghost x: int, ghost p: int) returns (k: nat)
    requires us != vr && us.a != vr.a && us.Valid() && vr.Valid() && us.Trimmed()
    requires IsPrime(p) && p % 2 == 1 && 0 < x < p < Pow(0x1_0000_0000, 8)
    requires us.First() == p && us.Second() == 1 && vr.First() == x && vr.Second() == 0
    modifies us, us.a, vr, vr.a
    ensures Found(us, k, x, p)
  {
    k := 0;
    var odd, even := us, vr;
    ghost var sign := 1;
    StartAlmost(x, p);
    var done := false;
    while !done
      invariant done ==> Found(us, k, x, p)
      invariant !done ==> LoopInvariant(us, vr, even, odd, sign, k, x, p)
      decreases !done, if done then 0 else even.First() + odd.First()
    {
      done, even, odd, k, sign := Iterate(us, vr, even, odd, k, sign, x, p);
    }
  }

  lemma OneWord(s: seq<int>, n: int)
    requires Shape(s, n) && n > 0 && s[n - 1] != 0 && ComboSpec.First(s, n) == 1
    ensures n == 1
  {
    Top(s, n);
  }

  // ------------------------------------------------------------- the whole inverse

  /** A register that holds the prime p and s, or x and r. */
  lemma Registered(a: seq<u32>, n: int)
    requires |a| == 9 && LE(a[..8]) == n
    ensures Shape(a, 8) && ComboSpec.First(a, 8) == n && ComboSpec.Second(a, 8) == a[8]
    ensures InRange(n) ==> a[7] != 0
  {
    BESnoc([], a[8]);
    assert a[8..] == [] + [a[8]];
    assert a[..8] == a[..7] + [a[7]];
    ValSnoc(a[..7], a[7], 0x1_0000_0000);
    ValBound(a[..7], 0x1_0000_0000);
    assert Pow(0x1_0000_0000, 7) == TWO224;
  }

  /** Dividing s by 2^k0 in steps, modulo p. */
  lemma DividedBy(s: int, s': int, p: int, f: int, m: int, m': int, s0: int, step: int)
    requires p > 0 && step * s' == s + f * p && m' == m * step && Cong(m * s, s0, p)
    ensures Cong(m' * s', s0, p)
  {
    CongByMultiple(step * s', s, p, f);
    CongMul(m, m, step * s', s, p);
    Assoc(m, step, s');
    CongTrans(m' * s', m * s, s0, p);
  }

  /** x s0 = 2^k and 2^k y = s0 make y the inverse of x. */
  lemma InverseFound(x: int, y: int, s0: int, k: nat, p: int)
    requires p > 0 && p % 2 == 1 && Cong(x * s0, Pow2(k), p) && Cong(Pow2(k) * y, s0, p)
    ensures Cong(x * y, 1, p)
  {
    var w := Pow2(k);
    CongMul(x, x, w * y, s0, p);
    CongTrans(x * (w * y), x * s0, w, p);
    Assoc(x, w, y);
    Assoc(w, x, y);
    CongAdd(w * (x * y), w, w, w, p);
    Distrib(w, x * y, 1);
    CancelPow2(x * y - 1, k, p);
    CongAdd(x * y - 1, 0, 1, 1, p);
  }

  /** The second phase: divide s by 2^k modulo p. */
  method DivideByPower(a: array<u32>, pp: array<u32>, k0: nat)
    requires a.Length == 9 && pp.Length == 8 && a != pp && pp[0] % 2 == 1
    requires 0 <= BE(a[1..]) < LE(pp[..])
    modifies a
    ensures 0 <= BE(a[1..]) < LE(pp[..])
    ensures Cong(Pow2(k0) * BE(a[1..]), old(BE(a[1..])), LE(pp[..]))
  {
    var inverse := NegInverse(pp[0]);
    ghost var s0, p := BE(a[1..]), LE(pp[..]);
    var k := k0;
    assert Pow2(k0 - k) * s0 == s0;
    while k >= 32
      invariant 0 <= k <= k0 && 0 <= BE(a[1..]) < p
      invariant Cong(Pow2(k0 - k) * BE(a[1..]), s0, p)
    {
      DivideBy(a, pp, inverse, 32, k0 - k, k0 - (k - 32), s0);
      k := k - 32;
    }
    if k > 0 {
      DivideBy(a, pp, inverse, k, k0 - k, k0, s0);
    } else {
      MulEq(BE(a[1..]), Pow2(k0 - k), Pow2(k0));
    }
  }

  method DivideBy(a: array<u32>, pp: array<u32>, inverse: u32, k: nat, ghost m: nat, ghost m': nat, ghost s0: int)
    requires a.Length == 9 && pp.Length == 8 && a != pp && 0 < k <= 32 && m' == m + k
    requires Cong(pp[0] * inverse, -1, 0x1_0000_0000)
    requires 0 <= BE(a[1..]) < LE(pp[..]) && Cong(Pow2(m) * BE(a[1..]), s0, LE(pp[..]))
    modifies a
    ensures 0 <= BE(a[1..]) < LE(pp[..]) && Cong(Pow2(m') * BE(a[1..]), s0, LE(pp[..]))
  {
    ghost var s := BE(a[1..]);
    ghost var f := DivideStep(a, pp, inverse, k);
    Pow2Add(m, k);
    DividedBy(s, BE(a[1..]), LE(pp[..]), f, Pow2(m), Pow2(m'), s0, Pow2(k));
  }

  /** x := x^-1 modulo a prime, for any limbs that are not 0 modulo the prime. */
  method Inverse(x: array<u32>, prime: array<u32>)
    requires x.Length == 9 && B.Prime(prime) && x != prime
    requires IsPrime(Num(prime[..])) && Num(x[..]) % Num(prime[..]) != 0
    modifies x
    ensures B.Bn(x) && 0 <= Num(x[..]) < Num(prime[..])
    ensures Cong(old(Num(x[..])) * Num(x[..]), 1, Num(prime[..]))
  {
    ghost var x0, p := Num(x[..]), Num(prime[..]);
    OddPrime(p);
    B.FastModInPlace(x, prime);
    B.ModInPlace(x, prime);
    ghost var xr := Num(x[..]);
    FullyReduced(old(x[..]), p, xr);
    var ua, va, pp := new u32[9](_ => 0), new u32[9](_ => 0), new u32[8](_ => 0);
    ToWords(prime, ua);
    ToWords(prime, pp);
    ToWords(x, va);
    ua[8] := 1;
    va[8] := 0;
    Registered(ua[..], p);
    Registered(va[..], xr);
    var us := new Combo(ua);
    var vr := new Combo(va);
    PrimeWords(pp[..], p);
    var k := AlmostInverse(us, vr, xr, p);
    ghost var s0 := BE(ua[1..]);
    DivideByPower(ua, pp, k);
    ghost var y := BE(ua[1..]);
    FromWords(ua, x);
    InverseFound(xr, y, s0, k, p);
    CongMul(xr, x0, y, y, p);
    CongTrans(x0 * y, xr * y, 1, p);
  }

  lemma FullyReduced(s: seq<u32>, p: int, r: int)
    requires |s| == 9 && InRange(p) && Num(s) % p != 0 && r == Mod(FastMod(Num(s), s[8], p), p)
    ensures 0 < r < p && Cong(r, Num(s), p)
  {
    var v, c: int := FastMod(Num(s), s[8], p), s[8] / 0x1_0000;
    FastModRange(s, p);
    ModRange(v, p);
    CongByMultiple(v, Num(s), p, 0 - c);
    CongIsMod(v, Num(s), p);
    CongMod(v, p);
    CongTrans(r, v, Num(s), p);
  }

  lemma PrimeWords(pp: seq<u32>, p: int)
    requires |pp| == 8 && LE(pp[..8]) == p && InRange(p) && p % 2 == 1
    ensures pp[0] % 2 == 1 && LE(pp) == p && p < Pow(0x1_0000_0000, 8)
  {
    assert pp[..8] == pp;
    ParityOfWord(LE(pp[1..]), pp[0]);
    ValBound(pp, 0x1_0000_0000);
  }
}
