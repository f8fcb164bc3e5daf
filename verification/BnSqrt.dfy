/** bn_sqrt: x^((p+1)/4) by squaring, over the limbs of the exponent. */
module BnSqrt {
  import opened Arith
  import opened Modular
  import opened Words
  import opened Limbs
  import opened Primes
  import opened BignumSpec
  import opened FieldOps
  import opened Fermat
  import B = Bignum

  /** The nine limbs of a number below 2^270. */
  method ToLimbs(v: int) returns (a: array<u32>)
    requires 0 <= v < TWO270
    ensures fresh(a) && B.Bn(a) && Num(a[..]) == v
  {
    a := new u32[9](_ => 0);
    var rest, i := v, 0;
    while i < 9
      invariant 0 <= i <= 9 && 0 <= rest
      invariant forall k :: 0 <= k < i ==> a[k] < WORD30
      invariant Num(a[..i]) + Pow(WORD30, i) * rest == v
    {
      ghost var low := a[..i];
      SplitRest(low, rest, rest % WORD30, rest / WORD30);
      a[i] := rest % WORD30;
      assert a[..i + 1] == low + [rest % WORD30];
      rest := rest / WORD30;
      i := i + 1;
    }
    PowLiterals();
    ValNonNegative(a[..i], WORD30);
    if rest >= 1 { MulLe(TWO270, 1, rest); assert false; }
    assert a[..9] == a[..];
  }

  lemma SplitRest(low: seq<int>, rest: int, d: int, q: int)
    requires rest == WORD30 * q + d
    ensures Num(low + [d]) + Pow(WORD30, |low| + 1) * q == Num(low) + Pow(WORD30, |low|) * rest
  {
    var w, w' := Pow(WORD30, |low|), Pow(WORD30, |low| + 1);
    ValSnoc(low, d, WORD30);
    RestParts(w, w', rest, d, q);
  }

  lemma RestParts(w: int, w': int, rest: int, d: int, q: int)
    requires w' == WORD30 * w && rest == WORD30 * q + d
    ensures w * d + w' * q == w * rest
  {
    Distrib(w, WORD30 * q, d);
    Assoc(w, WORD30, q);
  }

  /** One bit of the exponent: v = res x^e is kept. */
  lemma SquareStep(v: int, res: int, x: int, e: nat, m: nat, res': int, x': int, p: int)
    requires p > 0 && Cong(v, res * Power(x, e), p) && Cong(x', x * x, p)
    requires (e == 2 * m && res' == res) || (e == 2 * m + 1 && Cong(res', x * res, p))
    ensures Cong(v, res' * Power(x', m), p)
  {
    PowerCong(x', x * x, m, p);
    PowerSquare(x, m);
    var s := Power(x, 2 * m);
    if e == 2 * m {
      CongMul(res, res, Power(x', m), s, p);
    } else {
      assert res * (x * s) == (x * res) * s by { Assoc(res, x, s); }
      CongMul(res', x * res, Power(x', m), s, p);
    }
  }

  /** The exponent left when a limb of it is partly used. */
  lemma HalveExponent(limb: int, w: int, w': int, hi: int, e: int)
    requires limb >= 0 && hi >= 0 && w == 2 * w' && w' > 0 && e == limb + w * hi
    ensures e == 2 * (limb / 2 + w' * hi) + limb % 2 && limb / 2 + w' * hi >= 0
  {
    Assoc(2, w', hi);
    MulNonNegative(w', hi);
  }

  /** The exponent from limb i on. */
  lemma NextLimb(s: seq<int>, i: nat)
    requires |s| == 9 && Normalized(s, WORD30) && i < 9
    ensures 0 <= s[i] < WORD30 && Num(s[i + 1..]) >= 0 && Num(s[i..]) == s[i] + WORD30 * Num(s[i + 1..])
    ensures i == 8 ==> Num(s[i + 1..]) == 0
  {
    ValNonNegative(s[i + 1..], WORD30);
    assert s[i..][1..] == s[i + 1..] && s[i..][0] == s[i];
  }

  predicate RootOf(y: int, x: int, p: int)
    requires p > 0
  {
    Cong(y * y, x, p)
  }

  lemma SquareHasRoot(r: int, x: int, p: int, y: int)
    requires IsPrime(p) && p % 4 == 3 && Cong(r, Power(x, (p + 1) / 4), p) && RootOf(y, x, p)
    ensures RootOf(r, x, p)
  {
    var v := Power(x, (p + 1) / 4);
    SquareRoot(y, x, p);
    CongMul(r, v, r, v, p);
  }

  /** A square root of every square, when the prime is 3 modulo 4. */
  method Sqrt(x0: int, p: int) returns (r: int)
    requires IsPrime(p) && InRange(p) && 0 <= x0 < 180 * p
    ensures 0 <= r < p && Cong(r, Power(x0, (p + 1) / 4), p)
    ensures p % 4 == 3 ==> forall y :: RootOf(y, x0, p) ==> RootOf(r, x0, p)
  {
    var e := ToLimbs((p + 1) / 4);
    var res := SqrtLoop(e, x0, p, Power(x0, (p + 1) / 4));
    r := FullReduce(res, p);
    if p % 4 == 3 {
      forall y | RootOf(y, x0, p) ensures RootOf(r, x0, p) { SquareHasRoot(r, x0, p, y); }
    }
  }

  /** res := x0^e */
  method SqrtLoop(e: array<u32>, x0: int, p: int, ghost v: int) returns (res: int)
    requires InRange(p) && 0 <= x0 < 180 * p && B.Bn(e) && Num(e[..]) >= 0 && v == Power(x0, Num(e[..]))
    ensures 0 <= res < 2 * p && Cong(res, v, p)
  {
    ghost var s := e[..];
    assert s[0..] == s;
    var x, i := x0, 0;
    res := 1;
    ghost var rest: nat := Num(s);
    while i < 9
      invariant 0 <= i <= 9 && 0 <= res < 2 * p && 0 <= x < 180 * p && Num(s[i..]) == rest
      invariant Cong(v, res * Power(x, rest), p)
    {
      NextLimb(s, i);
      rest := Num(s[i + 1..]);
      res, x := SqrtLimb(e[i], i == 8, res, x, p, v, rest);
      i := i + 1;
    }
    assert s[9..] == [] && Power(x, rest) == 1;
  }

  /** The bits of one limb of the exponent; in the top limb the loop stops when no bit is left. */
  method SqrtLimb(first: u32, top: bool, res0: int, x0: int, p: int, ghost v: int, ghost hi: nat)
    returns (res: int, x: int)
    requires InRange(p) && 0 <= res0 < 2 * p && 0 <= x0 < 180 * p && first < WORD30
    requires Cong(v, res0 * Power(x0, first + WORD30 * hi), p)
    requires top ==> hi == 0
    ensures 0 <= res < 2 * p && 0 <= x < 180 * p && Cong(v, res * Power(x, hi), p)
  {
    var limb: int, j := first, 0;
    ghost var w, rest := WORD30, first + WORD30 * hi;
    res, x := res0, x0;
    Pow2Literals();
    while j < 30
      invariant 0 <= j <= 30 && 0 <= res < 2 * p && 0 <= x < 180 * p
      invariant 0 <= limb < w && w == Pow2(30 - j)
      invariant rest == limb + w * hi && rest >= 0 && Cong(v, res * Power(x, rest), p)
    {
      if top && limb == 0 {
        MulEq(w, hi, 0);
        return;
      }
      HalveExponent(limb, w, Pow2(29 - j), hi, rest);
      w := Pow2(29 - j);
      res, x := SqrtBit(limb % 2 == 1, res, x, p, v, rest, limb / 2 + w * hi);
      rest := limb / 2 + w * hi;
      limb := limb / 2;
      j := j + 1;
    }
  }

  method SqrtBit(odd: bool, res0: int, x0: int, p: int, ghost v: int, ghost e: nat, ghost m: nat)
    returns (res: int, x: int)
    requires InRange(p) && 0 <= res0 < 2 * p && 0 <= x0 < 180 * p
    requires Cong(v, res0 * Power(x0, e), p) && e == 2 * m + (if odd then 1 else 0)
    ensures 0 <= res < 2 * p && 0 <= x < 180 * p && Cong(v, res * Power(x, m), p)
  {
    res := res0;
    if odd {
      res := Multiply(x0, res, p);
    }
    x := Multiply(x0, x0, p);
    SquareStep(v, res0, x0, e, m, res, x, p);
  }
}
