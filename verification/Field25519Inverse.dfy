/** The inverse in the field of 2^255 - 19, as the power with exponent p - 2. */
module Field25519Inverse {
  import opened Arith
  import opened Modular
  import opened Words
  import opened Powers
  import opened Primes
  import opened Fermat
  import opened Field25519Spec
  import opened Field25519
  import opened Field25519Square

  ghost predicate Stands(a: Ten<u32>, w: int, e: nat) {
    Operand(a) && Cong(Value(a), Power(w, e), P25519)
  }

  ghost function StandsIn(depth: nat, a: Ten<u32>, w: int, e: nat): Verdict {
    if depth > 0 then StandsIn(depth - 1, a, w, e) else if Stands(a, w, e) then Holds else Fails
  }

  /** The limbs can be multiplied and stand for w^e modulo p; folded (see Arith), PowerOfMeans unfolds it. */
  ghost function PowerOf(a: Ten<u32>, w: int, e: nat): Verdict {
    StandsIn(FOLDS, a, w, e)
  }

  lemma {:induction false} StandsInMeans(depth: nat, a: Ten<u32>, w: int, e: nat)
    ensures StandsIn(depth, a, w, e).Holds? <==> Stands(a, w, e)
  {
    if depth > 0 { StandsInMeans(depth - 1, a, w, e); }
  }

  lemma PowerOfMeans(a: Ten<u32>, w: int, e: nat)
    ensures PowerOf(a, w, e).Holds? <==> Stands(a, w, e)
  {
    StandsInMeans(FOLDS, a, w, e);
  }

  lemma {:induction false} PowerOfPower(w: int, e: nat, n: nat, m: nat)
    requires m == e * n
    ensures Power(Power(w, e), n) == Power(w, m)
  {
    if n > 0 {
      Distrib(e, n - 1, 1);
      MulNonNegative(e, n - 1);
      PowerOfPower(w, e, n - 1, e * (n - 1));
      PowerAdd(w, e, e * (n - 1));
    }
  }

  /** out := a b, on exponents */
  method Times(out: array<u32>, a: array<u32>, b: array<u32>, ghost w: int, ghost d: nat, ghost e: nat, ghost f: nat)
    requires out.Length == 10 && a.Length == 10 && b.Length == 10 && f == d + e
    requires PowerOf(Of(a), w, d).Holds? && PowerOf(Of(b), w, e).Holds?
    modifies out
    ensures PowerOf(Of(out), w, f).Holds?
  {
    ghost var x, y := Of(a), Of(b);
    PowerOfMeans(x, w, d);
    PowerOfMeans(y, w, e);
    Multiply(out, a, b);
    CongMul(Value(x), Power(w, d), Value(y), Power(w, e), P25519);
    PowerAdd(w, d, e);
    PowerOfMeans(Of(out), w, f);
  }

  /** out := a^(2^count), on exponents */
  method Squared(out: array<u32>, a: array<u32>, count: nat, ghost w: int, ghost q: nat, ghost e: nat, ghost f: nat)
    requires out.Length == 10 && a.Length == 10 && count > 0 && q == Two(count) && f == e * q
    requires PowerOf(Of(a), w, e).Holds?
    modifies out
    ensures PowerOf(Of(out), w, f).Holds?
  {
    ghost var x := Of(a);
    PowerOfMeans(x, w, e);
    TwoMeans(count);
    SquareTimes(out, a, count);
    PowerCong(Value(x), Power(w, e), q, P25519);
    PowerOfPower(w, e, q, f);
    PowerOfMeans(Of(out), w, f);
  }

  lemma Counts(a: nat, b: nat, c: nat, d: nat, e: nat)
    requires a == 5 && b == 10 && c == 20 && d == 50 && e == 100
    ensures Two(1) == 2 && Two(2) == 4 && Two(a) == 0x20 && Two(b) == 0x400 && Two(c) == 0x10_0000
    ensures Two(d) == 0x4_0000_0000_0000 && Two(e) == 0x10_0000_0000_0000_0000_0000_0000
  {
    Pow2Literals();
    TwoMeans(0);
    TwoDouble(0);
    TwoDouble(1);
    TwoMeans(a);
    TwoAdd(a, a);
    TwoAdd(b, b);
    TwoAdd(c, c);
    TwoAdd(2 * c, b);
    TwoAdd(d, d);
  }

  const E50: nat := 0x3_ffff_ffff_ffff
  const E100: nat := 0xf_ffff_ffff_ffff_ffff_ffff_ffff
  const E200: nat := 0xff_ffff_ffff_ffff_ffff_ffff_ffff_ffff_ffff_ffff_ffff_ffff_ffff
  const E250: nat := 0x3ff_ffff_ffff_ffff_ffff_ffff_ffff_ffff_ffff_ffff_ffff_ffff_ffff_ffff_ffff_ffff

  /** curve25519_pow_two5mtwo0_two250mtwo0: from exponent 2^5 - 1 to 2^250 - 1 */
  method PowTwo250(b: array<u32>, ghost w: int)
    requires b.Length == 10 && PowerOf(Of(b), w, 0x1f).Holds?
    modifies b
    ensures PowerOf(Of(b), w, E250).Holds?
  {
    Counts(5, 10, 20, 50, 100);
    var t0, c := new u32[10](_ => 0), new u32[10](_ => 0);
    Squared(t0, b, 5, w, 0x20, 0x1f, 0x3e0);
    Times(b, t0, b, w, 0x3e0, 0x1f, 0x3ff);
    Squared(t0, b, 10, w, 0x400, 0x3ff, 0xf_fc00);
    Times(c, t0, b, w, 0xf_fc00, 0x3ff, 0xf_ffff);
    Squared(t0, c, 20, w, 0x10_0000, 0xf_ffff, 0xff_fff0_0000);
    Times(t0, t0, c, w, 0xff_fff0_0000, 0xf_ffff, 0xff_ffff_ffff);
    Squared(t0, t0, 10, w, 0x400, 0xff_ffff_ffff, E50 - 0x3ff);
    Times(b, t0, b, w, E50 - 0x3ff, 0x3ff, E50);
    Squared(t0, b, 50, w, E50 + 1, E50, E100 - E50);
    Times(c, t0, b, w, E100 - E50, E50, E100);
    Squared(t0, c, 100, w, E100 + 1, E100, E200 - E100);
    Times(t0, t0, c, w, E200 - E100, E100, E200);
    Squared(t0, t0, 50, w, E50 + 1, E200, E250 - E50);
    Times(b, t0, b, w, E250 - E50, E50, E250);
  }

  /** curve25519_recip: z^(p - 2); out may be z. */
  method Recip(out: array<u32>, z: array<u32>)
    requires out.Length == 10 && z.Length == 10 && Operand(Of(z))
    modifies out
    ensures PowerOf(Of(out), old(Value(Of(z))), P25519 - 2).Holds?
  {
    ghost var w := Value(Of(z));
    Counts(5, 10, 20, 50, 100);
    FirstPowerOf(Of(z), w, 1);
    var a, t0, b := new u32[10](_ => 0), new u32[10](_ => 0), new u32[10](_ => 0);
    Squared(a, z, 1, w, 2, 1, 2);
    Squared(t0, a, 2, w, 4, 2, 8);
    Times(b, t0, z, w, 8, 1, 9);
    Times(a, b, a, w, 9, 2, 11);
    Squared(t0, a, 1, w, 2, 11, 22);
    Times(b, t0, b, w, 22, 9, 31);
    PowTwo250(b, w);
    Squared(b, b, 5, w, 0x20, E250, P25519 - 13);
    Times(out, b, a, w, P25519 - 13, 11, P25519 - 2);
  }

  lemma FirstPowerOf(a: Ten<u32>, w: int, n: nat)
    requires n == 1 && Operand(a) && w == Value(a)
    ensures PowerOf(a, w, n).Holds?
  {
    assert Power(w, n) == w * Power(w, 0);
    PowerOfMeans(a, w, n);
  }

  /** For a prime, that power is the inverse. */
  lemma RecipIsInverse(a: Ten<u32>, w: int, e: nat)
    requires IsPrime(P25519) && !Cong(w, 0, P25519) && e == P25519 - 2 && PowerOf(a, w, e).Holds?
    ensures Cong(w * Value(a), 1, P25519)
  {
    PowerOfMeans(a, w, e);
    FermatLittle(w, P25519);
    CongMul(w, w, Value(a), Power(w, e), P25519);
    assert Power(w, e + 1) == w * Power(w, e);
  }
}
