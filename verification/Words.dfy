/**
 Machine words.

 Unsigned C integers are natural numbers in a subset type, so that every assignment
 to a variable of such a type is a proof that the C expression does not wrap; where
 the C code relies on wrap-around the model writes the `%` out.  Bitwise operators
 are defined on naturals bit by bit, shifts are multiplication and division by a
 power of two.
 */
module Words {
  import Arith

  type u8 = x: int | 0 <= x < 0x100
  type u32 = x: int | 0 <= x < 0x1_0000_0000
  type u64 = x: int | 0 <= x < 0x1_0000_0000_0000_0000

  const WORD30 := 0x4000_0000
  const WORD32 := 0x1_0000_0000

  function Pow2(n: nat): (r: nat)
    ensures r > 0
  {
    if n == 0 then 1 else 2 * Pow2(n - 1)
  }

  /** Bit `i` of `x`. */
  predicate Bit(x: nat, i: nat)
  {
    if i == 0 then x % 2 == 1 else Bit(x / 2, i - 1)
  }

  function And(a: nat, b: nat): nat
    decreases a
  {
    if a == 0 || b == 0 then 0
    else 2 * And(a / 2, b / 2) + (if a % 2 == 1 && b % 2 == 1 then 1 else 0)
  }

  function Or(a: nat, b: nat): nat
    decreases a + b
  {
    if a == 0 then b else if b == 0 then a
    else 2 * Or(a / 2, b / 2) + (if a % 2 == 1 || b % 2 == 1 then 1 else 0)
  }

  function Xor(a: nat, b: nat): nat
    decreases a + b
  {
    if a == 0 then b else if b == 0 then a
    else 2 * Xor(a / 2, b / 2) + (if a % 2 != b % 2 then 1 else 0)
  }

  lemma {:induction false} BitZero(i: nat)
    ensures !Bit(0, i)
  {
    if i > 0 { BitZero(i - 1); }
  }

  lemma {:induction false} BitAnd(a: nat, b: nat, i: nat)
    ensures Bit(And(a, b), i) <==> Bit(a, i) && Bit(b, i)
    decreases i
  {
    if a == 0 || b == 0 {
      BitZero(i);
    } else if i > 0 {
      BitAnd(a / 2, b / 2, i - 1);
    }
  }

  lemma {:induction false} BitOr(a: nat, b: nat, i: nat)
    ensures Bit(Or(a, b), i) <==> Bit(a, i) || Bit(b, i)
    decreases i
  {
    if a == 0 || b == 0 {
      BitZero(i);
    } else if i > 0 {
      BitOr(a / 2, b / 2, i - 1);
    }
  }

  lemma {:induction false} BitXor(a: nat, b: nat, i: nat)
    ensures Bit(Xor(a, b), i) <==> Bit(a, i) != Bit(b, i)
    decreases i
  {
    if a == 0 || b == 0 {
      BitZero(i);
    } else if i > 0 {
      BitXor(a / 2, b / 2, i - 1);
    }
  }

  /** Two words with the same bits are the same word. */
  lemma {:induction false} BitsDetermine(x: nat, y: nat, n: nat)
    requires x < Pow2(n) && y < Pow2(n)
    requires forall i: nat :: i < n ==> (Bit(x, i) <==> Bit(y, i))
    ensures x == y
    decreases n
  {
    if n > 0 {
      assert Bit(x, 0) <==> Bit(y, 0);
      forall i: nat | i < n - 1 ensures Bit(x / 2, i) <==> Bit(y / 2, i) {
        assert Bit(x, i + 1) <==> Bit(y, i + 1);
      }
      BitsDetermine(x / 2, y / 2, n - 1);
    }
  }

  lemma {:induction false} XorComm(a: nat, b: nat)
    ensures Xor(a, b) == Xor(b, a)
    decreases a + b
  {
    if a > 0 && b > 0 { XorComm(a / 2, b / 2); }
  }

  lemma {:induction false} XorAssoc(a: nat, b: nat, c: nat)
    ensures Xor(Xor(a, b), c) == Xor(a, Xor(b, c))
    decreases a + b + c
  {
    if a > 0 && b > 0 && c > 0 {
      XorAssoc(a / 2, b / 2, c / 2);
      XorHalf(a, b);
      XorHalf(b, c);
      XorHalf(Xor(a, b), c);
      XorHalf(a, Xor(b, c));
    }
  }

  lemma XorHalf(a: nat, b: nat)
    ensures Xor(a, b) / 2 == Xor(a / 2, b / 2)
    ensures Xor(a, b) % 2 == if a % 2 != b % 2 then 1 else 0
  {}

  lemma {:induction false} XorSelf(a: nat)
    ensures Xor(a, a) == 0
  {
    if a > 0 { XorSelf(a / 2); }
  }

  lemma XorTwice(a: nat, b: nat)
    ensures Xor(a, Xor(a, b)) == b
  {
    XorAssoc(a, a, b);
    XorSelf(a);
  }

  /** Only equal words differ in no bit. */
  lemma {:induction false} XorZero(a: nat, b: nat)
    ensures Xor(a, b) == 0 <==> a == b
    decreases a + b
  {
    if a != 0 && b != 0 { XorZero(a / 2, b / 2); }
  }

  lemma {:induction false} XorBelow(a: nat, b: nat, n: nat)
    requires a < Pow2(n) && b < Pow2(n)
    ensures Xor(a, b) < Pow2(n)
    decreases n
  {
    if n > 0 && a > 0 && b > 0 { XorBelow(a / 2, b / 2, n - 1); }
  }

  /** The exclusive or of numbers with high parts u and v and low parts l and m below 2^n. */
  lemma {:induction false} XorParts(a: nat, b: nat, n: nat, p: nat, u: nat, l: nat, v: nat, m: nat)
    requires p == Pow2(n) && a == p * u + l && b == p * v + m && l < p && m < p
    ensures Xor(l, m) < p && Xor(a, b) == p * Xor(u, v) + Xor(l, m)
    decreases n
  {
    XorBelow(l, m, n);
    if n > 0 {
      var q := Pow2(n - 1);
      HalfOfSum(l, u, p, q, a);
      HalfOfSum(m, v, p, q, b);
      var c, d := a / 2, b / 2;
      XorParts(c, d, n - 1, q, u, l / 2, v, m / 2);
      XorPartsStep(a, b, c, d, l, m, p, q, Xor(u, v));
    }
  }

  lemma XorPartsStep(a: nat, b: nat, c: nat, d: nat, l: nat, m: nat, p: nat, q: nat, x: nat)
    requires p == 2 * q && c == a / 2 && d == b / 2 && a % 2 == l % 2 && b % 2 == m % 2
    requires Xor(c, d) == q * x + Xor(l / 2, m / 2)
    ensures Xor(a, b) == p * x + Xor(l, m)
  {
    XorHalf(a, b);
    XorHalf(l, m);
    Rejoin(Xor(a, b), Xor(l, m), Xor(l / 2, m / 2), q, p, x);
  }

  lemma Rejoin(z: nat, w: nat, y: nat, q: nat, p: nat, x: nat)
    requires p == 2 * q && z / 2 == q * x + y && w / 2 == y && z % 2 == w % 2
    ensures z == p * x + w
  {
    Twice(q, p, x);
  }

  lemma HalfOfSum(l: nat, u: nat, p: nat, q: nat, a: nat)
    requires p == 2 * q && l < p && a == p * u + l
    ensures a / 2 == q * u + l / 2 && a % 2 == l % 2 && l / 2 < q
  {
    Twice(q, p, u);
  }

  lemma Twice(q: nat, p: nat, u: nat)
    requires p == 2 * q
    ensures p * u == 2 * (q * u)
  {}

  lemma OrZero(a: nat, b: nat)
    ensures Or(a, b) == 0 <==> a == 0 && b == 0
  {}

  lemma {:induction false} Pow2Add(m: nat, n: nat)
    ensures Pow2(m + n) == Pow2(m) * Pow2(n)
  {
    if m > 0 { Pow2Add(m - 1, n); }
  }

  lemma {:induction false} Pow2Monotone(m: nat, n: nat)
    requires m <= n
    ensures Pow2(m) <= Pow2(n)
    decreases n - m
  {
    if m < n { Pow2Monotone(m, n - 1); }
  }

  lemma Pow2Literals()
    ensures Pow2(5) == 0x20 && Pow2(8) == 0x100 && Pow2(16) == 0x1_0000
    ensures Pow2(30) == WORD30 && Pow2(32) == 0x1_0000_0000
    ensures Pow2(64) == 0x1_0000_0000_0000_0000
  {
    assert Pow2(8) == 0x100;
    Pow2Add(8, 8);
    Pow2Add(16, 8);
    Pow2Add(24, 6);
    Pow2Add(16, 16);
    Pow2Add(32, 32);
  }

  lemma TwoTo252(n: nat)
    requires n == 252
    ensures Pow2(n) == 0x1000_0000_0000_0000_0000_0000_0000_0000_0000_0000_0000_0000_0000_0000_0000_0000
  {
    Pow2Literals();
    Pow2Add(64, 64);
    Pow2Add(128, 64);
    Pow2Add(192, 30);
    Pow2Add(222, 30);
  }

  lemma HalveMask(p: nat)
    requires p > 0
    ensures (2 * p - 1) / 2 == p - 1 && (2 * p - 1) % 2 == 1
  {}

  /** Masking with 2^n - 1 keeps the low n bits. */
  lemma {:induction false} AndMask(x: nat, n: nat)
    ensures And(x, Pow2(n) - 1) == x % Pow2(n)
    decreases n
  {
    if n == 0 {
      assert And(x, 0) == 0;
    } else if x == 0 {
      Arith.DivModUnique(0, 0, 0, Pow2(n));
    } else {
      var p := Pow2(n - 1);
      HalveMask(p);
      AndMask(x / 2, n - 1);
      assert And(x, 2 * p - 1) == 2 * And(x / 2, p - 1) + x % 2;
      Arith.DivDiv(x, 2, p);
    }
  }

  /** An `|` of two words whose set bits do not overlap is their sum. */
  lemma {:induction false} OrDisjoint(a: nat, b: nat, n: nat)
    requires a < Pow2(n)
    ensures Or(a, Pow2(n) * b) == a + Pow2(n) * b
    ensures Or(Pow2(n) * b, a) == a + Pow2(n) * b
    decreases n
  {
    var h := Pow2(n) * b;
    if n > 0 && a > 0 && h > 0 {
      var p := Pow2(n - 1);
      assert h == 2 * (p * b);
      assert h / 2 == p * b && h % 2 == 0;
      OrDisjoint(a / 2, b, n - 1);
    }
  }

  /** x << j in 32 bits */
  function Shl32(x: u32, j: nat): u32 {
    if j == 0 then x else (2 * Shl32(x, j - 1)) % 0x1_0000_0000
  }

  /** x >> j */
  function Shr32(x: u32, j: nat): u32
    decreases j
  {
    if j == 0 then x else Shr32(x / 2, j - 1)
  }

  lemma {:induction false} Shr32Value(x: u32, j: nat)
    ensures Shr32(x, j) == x / Pow2(j)
    decreases j
  {
    if j > 0 {
      Shr32Value(x / 2, j - 1);
      Arith.DivDiv(x, 2, Pow2(j - 1));
    }
  }

  /** The low 32 - j bits of x, moved up by j. */
  lemma {:induction false} Shl32Value(x: u32, j: nat)
    requires j <= 32
    ensures Shl32(x, j) == Pow2(j) * (x % Pow2(32 - j))
    decreases j
  {
    if j == 0 {
      Pow2Literals();
    } else {
      Shl32Value(x, j - 1);
      var p, q := Pow2(j - 1), Pow2(32 - j);
      Pow2Add(j, 32 - j);
      Pow2Literals();
      // dropping the top bit of the part that stays
      var h, l := x / q, x % q;
      Arith.DivDiv(x, q, 2);
      assert Pow2(33 - j) == q * 2;
      assert x % (q * 2) == q * (h % 2) + l;
      Arith.Distrib(p, q * (h % 2), l);
      ShlStep(p, q, h % 2, l);
    }
  }

  lemma ShlStep(p: nat, q: nat, b: nat, l: nat)
    requires (2 * p) * q == 0x1_0000_0000 && b <= 1 && l < q
    ensures (2 * (p * (q * b + l))) % 0x1_0000_0000 == (2 * p) * l
  {
    Arith.Distrib(p, q * b, l);
    Arith.Assoc(p, q, b);
    Arith.Assoc(2, p, q);
    Arith.Assoc(2, p, l);
    Arith.MulLe(2 * p, l, q - 1);
    Arith.Distrib(2 * p, q, 1);
    Arith.MulNonNegative(2 * p, l);
    Arith.DivModUnique(2 * (p * (q * b + l)), b, (2 * p) * l, 0x1_0000_0000);
  }
}
