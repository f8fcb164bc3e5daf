/**
 Congruence modulo a positive number.  The remainder is defined by repeated addition or
 subtraction, and proved to be the `%` operator, so that proofs about congruences do not
 get entangled with division.
 */
module Modular {
  import opened Arith

  function Rem(a: int, m: int): int
    requires m > 0
    decreases if a < 0 then m - a else a
  {
    if a < 0 then Rem(a + m, m) else if a < m then a else Rem(a - m, m)
  }

  predicate Cong(a: int, b: int, m: int)
    requires m > 0
  {
    Rem(a, m) == Rem(b, m)
  }

  lemma {:induction false} RemIsMod(a: int, m: int)
    requires m > 0
    ensures Rem(a, m) == a % m
    decreases if a < 0 then m - a else a
  {
    DivMod(a, m);
    if a < 0 {
      RemIsMod(a + m, m);
      DivMod(a + m, m);
      Distrib(m, (a + m) / m, 1);
      DivModUnique(a, (a + m) / m - 1, (a + m) % m, m);
    } else if a < m {
      DivModUnique(a, 0, a, m);
    } else {
      RemIsMod(a - m, m);
      DivMod(a - m, m);
      Distrib(m, (a - m) / m, 1);
      DivModUnique(a, (a - m) / m + 1, (a - m) % m, m);
    }
  }

  lemma CongIsMod(a: int, b: int, m: int)
    requires m > 0
    ensures Cong(a, b, m) <==> a % m == b % m
  {
    RemIsMod(a, m);
    RemIsMod(b, m);
  }

  lemma CongByMultiple(a: int, b: int, m: int, k: int)
    requires m > 0 && a == b + k * m
    ensures Cong(a, b, m)
  {
    DivMod(b, m);
    Distrib(m, b / m, k);
    DivModUnique(a, b / m + k, b % m, m);
    CongIsMod(a, b, m);
  }

  /** Congruent numbers differ by a multiple of the modulus. */
  lemma CongMultiple(a: int, b: int, m: int) returns (k: int)
    requires m > 0 && Cong(a, b, m)
    ensures a == b + k * m
  {
    CongIsMod(a, b, m);
    DivMod(a, m);
    DivMod(b, m);
    k := a / m - b / m;
    Distrib(m, a / m, b / m);
  }

  /** A congruence modulo w = m n holds modulo m. */
  lemma CongFactor(a: int, b: int, m: int, n: int, w: int)
    requires m > 0 && n > 0 && w == m * n && w > 0 && Cong(a, b, w)
    ensures Cong(a, b, m)
  {
    var t := CongMultiple(a, b, w);
    MulEq(t, w, n * m);
    Assoc(t, n, m);
    CongByMultiple(a, b, m, t * n);
  }

  /** A number is congruent to its remainder, the only congruent number below the modulus. */
  lemma CongMod(a: int, m: int)
    requires m > 0
    ensures Cong(a % m, a, m) && 0 <= a % m < m
  {
    RemIsMod(a, m);
    RemIsMod(a % m, m);
    DivMod(a, m);
    DivModUnique(a % m, 0, a % m, m);
  }

  lemma CongSmall(a: int, b: int, m: int)
    requires 0 <= a < m && 0 <= b < m && Cong(a, b, m)
    ensures a == b
  {}

  /** Small numbers are congruent to 0 only if they are 0. */
  lemma SmallZero(a: int, m: int)
    requires m > 0 && -m < a < m
    ensures Cong(a, 0, m) <==> a == 0
  {
    if a < 0 { assert Rem(a, m) == a + m; }
  }

  lemma CongTrans(a: int, b: int, c: int, m: int)
    requires m > 0 && Cong(a, b, m) && Cong(b, c, m)
    ensures Cong(a, c, m)
  {}

  lemma CongAdd(a: int, b: int, c: int, d: int, m: int)
    requires m > 0 && Cong(a, b, m) && Cong(c, d, m)
    ensures Cong(a + c, b + d, m)
    ensures Cong(a - c, b - d, m)
  {
    var k := CongMultiple(a, b, m);
    var l := CongMultiple(c, d, m);
    Distrib(m, k, l);
    CongByMultiple(a + c, b + d, m, k + l);
    CongByMultiple(a - c, b - d, m, k - l);
  }

  lemma CongMul(a: int, b: int, c: int, d: int, m: int)
    requires m > 0 && Cong(a, b, m) && Cong(c, d, m)
    ensures Cong(a * c, b * d, m)
  {
    var k := CongMultiple(a, b, m);
    var l := CongMultiple(c, d, m);
    // a c = (b + k m) c = b c + (k c) m  and  b c = b (d + l m) = b d + (b l) m
    Distrib(c, b, k * m);
    Assoc(k, m, c);
    Assoc(k, c, m);
    Distrib(b, d, l * m);
    Assoc(b, l, m);
    CongByMultiple(a * c, b * c, m, k * c);
    CongByMultiple(b * c, b * d, m, b * l);
  }
}
