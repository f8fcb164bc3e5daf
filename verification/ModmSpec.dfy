/**
 Arithmetic modulo the order of the Ed25519 base point: Barrett reduction (Algorithm
 14.42 of the Handbook of Applied Cryptography) with a quotient estimate that leaves
 out the low partial products.
 */
module ModmSpec {
  import opened Arith
  import opened Words
  import opened Limbs
  import opened BignumSpec

  const M: nat := 0x1000000000000000000000000000000014def9dea2f79cd65812631a5cf5d3ed
  const MU: nat := 0xfffffffffffffffffffffffffffffffeb2106215d086329a7ed9ce5a30a2c131b

  const TWO248: nat := 0x1_00000000_00000000_00000000_00000000_00000000_00000000_00000000_000000
  const TWO264: nat := 0x1_0000 * TWO248

  /** The order of the Ed25519 base point, section 5.1 of RFC 8032. */
  lemma OrderMeans(n: nat)
    requires n == 252
    ensures M == Pow2(n) + 27742317777372353535851937790883648493
  {
    TwoTo252(n);
  }

  /** What is left after subtracting the estimate, scaled by the shift B of the quotient. */
  lemma Remainder(x: int, q1: int, x0: int, d: int, q3: int, t0: int, a: int, b: int, m: int, mu: int, e: int)
    requires x == a * q1 + x0 && mu * q1 - d == b * q3 + t0 && a * b == mu * m + e
    ensures b * (x - q3 * m) == b * x0 + e * q1 + m * d + m * t0
  {
    Distrib(b, x, q3 * m);
    MulEq(b, x, a * q1 + x0);
    Distrib(b, a * q1, x0);
    Assoc(b, a, q1);
    Assoc(b, q3, m);
    MulEq(m, b * q3, mu * q1 - d - t0);
    Distrib(m, mu * q1 - d, t0);
    Distrib(m, mu * q1, d);
    Assoc(m, mu, q1);
    MulEq(q1, a * b, mu * m + e);
    Distrib(q1, mu * m, e);
  }

  /**
   Two subtractions of m finish the reduction: q1 = floor(x / a) and mu = floor(ab / m), and
   q3 = floor((mu q1 - d) / b), where the dropped partial products d are less than b / 16.
   */
  lemma Barrett(x: int, q1: int, x0: int, d: int, q3: int, t0: int, a: int, b: int, m: int, mu: int, e: int)
    requires x == a * q1 + x0 && 0 <= x0 < a && 0 <= q1 < b && 16 * a <= m
    requires mu * q1 - d == b * q3 + t0 && 0 <= t0 < b && 0 <= 16 * d <= b
    requires a * b == mu * m + e && 0 <= e < m
    ensures 0 <= x - q3 * m < 3 * m
  {
    Remainder(x, q1, x0, d, q3, t0, a, b, m, mu, e);
    RemainderBound(b, m, x0, e, q1, d, t0);
    Scaled(b, x - q3 * m, m, b * x0 + e * q1 + m * d + m * t0);
  }

  lemma RemainderBound(b: int, m: int, x0: int, e: int, q1: int, d: int, t0: int)
    requires 0 < b && 0 < m && 0 <= 16 * x0 <= m && 0 <= e < m && 0 <= q1 < b && 0 <= 16 * d <= b && 0 <= t0 < b
    ensures 0 <= b * x0 + e * q1 + m * d + m * t0 < 3 * (b * m)
  {
    SixteenthOf(b, x0, m);
    SixteenthOf(m, d, b);
    LessThan(m, t0, b);
    LessThan(m, q1, b);
    MulLe(q1, e, m);
    MulNonNegative(e, q1);
  }

  lemma SixteenthOf(b: int, x: int, m: int)
    requires 0 <= b && 0 <= 16 * x <= m
    ensures 0 <= 16 * (b * x) <= b * m
  {
    MulLe(b, 16 * x, m);
    MulNonNegative(b, x);
    Assoc(16, b, x);
    Assoc(b, 16, x);
  }

  lemma LessThan(m: int, x: int, b: int)
    requires 0 < m && 0 <= x < b
    ensures 0 <= m * x <= m * b - m
  {
    MulLe(m, x, b - 1);
    MulNonNegative(m, x);
    Distrib(m, b, 1);
  }

  lemma Scaled(b: int, r: int, m: int, v: int)
    requires b > 0 && b * r == v && 0 <= v < 3 * (b * m)
    ensures 0 <= r < 3 * m
  {
    if r < 0 { MulLe(b, r, -1); assert false; }
    if r >= 3 * m { MulLe(b, 3 * m, r); Assoc(b, 3, m); Assoc(3, b, m); assert false; }
  }

  /** MU is the quotient of 2^512 by M. */
  lemma Constants(a: int, b: int, m: int, mu: int) returns (e: int)
    requires a == TWO248 && b == TWO264 && m == M && mu == MU
    ensures 16 * a <= m && 3 * m < b && 0 <= e < m && a * b == mu * m + e
  {
    e := 0x399411b7c309a3dceec73d217f5be65d00e1ba768859347a40611e3449c0f01;
    assert TWO248 * TWO264 == MU * M + e;
  }

  /** The remainder that the two conditional subtractions start from, and what they make of it. */
  lemma BarrettRemainder(x: nat, q1: nat, d: nat, q3: nat, t0: nat)
    requires q1 == x / TWO248 && q1 < TWO264 && 16 * d <= TWO264
    requires MU * q1 - d == TWO264 * q3 + t0 && t0 < TWO264
    ensures 0 <= x - q3 * M < 3 * M
    ensures x % M == (x - q3 * M) % M
    ensures x - q3 * M == (x % TWO264 - (q3 * M) % TWO264) % TWO264
  {
    var a, b := TWO248, TWO264;
    var e := Constants(a, b, M, MU);
    DivMod(x, a);
    Barrett(x, q1, x % a, d, q3, t0, a, b, M, MU, e);
    SameRemainder(x, q3, M);
    SubtractModulo(x, q3 * M, b);
  }

  lemma SameRemainder(x: int, q: int, m: int)
    requires m > 0
    ensures x % m == (x - q * m) % m
  {
    DivMod(x - q * m, m);
    Distrib(m, (x - q * m) / m, q);
    DivModUnique(x, (x - q * m) / m + q, (x - q * m) % m, m);
  }

  /** A difference that is known to be in range is found modulo b. */
  lemma SubtractModulo(x: int, y: int, b: int)
    requires b > 0 && 0 <= x - y < b
    ensures x - y == (x % b - y % b) % b
  {
    DivMod(x, b);
    DivMod(y, b);
    var k := x / b - y / b;
    Distrib(b, x / b, y / b);
    DivModUnique(x % b - y % b, -k, x - y, b);
  }

  /** One conditional subtraction. */
  function ReduceOnce(v: int): int {
    if v >= M then v - M else v
  }

  /** Two of them reduce a number below 3 m. */
  lemma ReducedTwice(v: int)
    requires 0 <= v < 3 * M
    ensures ReduceOnce(ReduceOnce(v)) == v % M
  {
    var q := if v < M then 0 else if v < 2 * M then 1 else 2;
    DivModUnique(v, q, v - q * M, M);
  }
}
