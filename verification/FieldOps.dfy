/**
 The bignum operations as the elliptic-curve code uses them: on the numbers that
 normalized limbs represent.  Each method computes the function that the limb routine
 of the same name in `Bignum` is proved to compute; the contract keeps what the curve
 formulas rely on, a range and a congruence modulo the prime.
 */
module FieldOps {
  import opened Arith
  import opened Modular
  import opened Words
  import opened BignumSpec
  import opened Primes

  method Multiply(k: int, x: int, p: int) returns (r: int)
    requires InRange(p) && 0 <= k < 180 * p && 0 <= x < 180 * p
    ensures 0 <= r < 2 * p && Cong(r, k * x, p)
  {
    MulRange(k, x, p);
    r := Mul(k, x, p);
  }

  /** Partial reduction; the multiples p, 2p and 3p of p all become p. */
  method FastReduce(v: int, p: int) returns (r: int)
    requires InRange(p) && 0 <= v < TWO270
    ensures 0 <= r < 2 * p && Cong(r, v, p)
    ensures 0 < v < 4 * p ==> (r == p <==> Cong(v, 0, p))
  {
    FastModNRange(v, p);
    CongByMultiple(FastModN(v, p), v, p, -(v / TWO240 / 0x1_0000));
    if 0 < v < 4 * p {
      FastModMultiple(v, p);
      CongIsMod(v, 0, p);
      DivModUnique(0, 0, 0, p);
    }
    r := FastModN(v, p);
  }

  method FullReduce(x: int, p: int) returns (r: int)
    requires 0 < p && 0 <= x < 2 * p
    ensures 0 <= r < p && Cong(r, x, p)
  {
    ModRange(x, p);
    CongMod(x, p);
    r := Mod(x, p);
  }

  method SubtractMod(a: int, b: int, p: int) returns (r: int)
    requires InRange(p) && 0 <= a < TWO270 - 2 * p && 0 <= b <= 2 * p
    ensures r == a + 2 * p - b && Cong(r, a - b, p)
  {
    CongByMultiple(SubMod(a, b, p), a - b, p, 2);
    r := SubMod(a, b, p);
  }

  method AddReduced(a: int, b: int, p: int) returns (r: int)
    requires InRange(p) && 0 <= a < TWO270 && 0 <= b < TWO270
    ensures 0 <= r < 2 * p && Cong(r, a + b, p)
  {
    FastModLoose(a + b, a / TWO240 + b / TWO240, 2, p);
    r := AddMod(a, b, p);
  }

  method MultiplyK(x: int, k: int, p: int) returns (r: int)
    requires InRange(p) && 0 <= x < TWO270 && 0 <= k <= 4
    ensures 0 <= r < 2 * p && Cong(r, k * x, p)
  {
    MultKLoose(x, k, x / TWO240);
    FastModLoose(k * x, k * (x / TWO240), 4, p);
    r := MultK(x, k, p);
  }

  lemma MultKLoose(x: int, k: int, top: int)
    requires 0 <= x < TWO270 && 0 <= k <= 4 && top == x / TWO240
    ensures 0 <= k * top < 0x1_0000_0000
    ensures TWO240 * (k * top) <= k * x < TWO240 * (k * top) + 4 * TWO240
  {
    if k == 0 {} else if k == 1 {} else if k == 2 {} else if k == 3 {}
  }

  method SubtractI(x: int, b: int, p: int) returns (r: int)
    requires InRange(p) && 0 <= x && x + p < TWO270 && 0 <= b <= p % WORD30
    ensures r == x + p - b && Cong(r, x - b, p)
  {
    CongByMultiple(SubI(x, b, p), x - b, p, 1);
    r := SubI(x, b, p);
  }

  /** Half of a partly reduced number, partly reduced. */
  method Half(x: int, p: int) returns (r: int)
    requires p > 0 && p % 2 == 1 && 0 <= x
    ensures 0 <= r && (x < 4 * p ==> 2 * r < 5 * p) && (x < 2 * p ==> r < 2 * p)
    ensures Cong(2 * r, x, p)
  {
    r := MultHalf(x, p);
    CongByMultiple(2 * r, x, p, if x % 2 == 1 then 1 else 0);
  }

  /** The inverse of any number that is not 0 modulo the prime. */
  method Invert(x: int, p: int) returns (r: int)
    requires InRange(p) && IsPrime(p) && !Cong(x, 0, p)
    ensures IsInverse(x, r, p)
  {
    UnitExists(x, p);
    r :| IsInverse(x, r, p);
  }

  /** conditional_negate: the other representative of -a, for a number of at most 257 bits. */
  method ConditionalNegate(cond: bool, a: int, p: int) returns (r: int)
    requires InRange(p) && 0 <= a <= 2 * p
    ensures r == if cond then 2 * p - a else a
    ensures Cong(r, if cond then -a else a, p)
  {
    CongByMultiple(2 * p - a, -a, p, 2);
    r := if cond then 2 * p - a else a;
  }
}
