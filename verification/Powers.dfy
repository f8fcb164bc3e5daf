/** Powers of a power of two: the weights of limbs, words, bytes and nibbles. */
module Powers {
  import opened Arith
  import opened Words
  import opened Limbs

  lemma {:induction false} PowOfPow2(w: nat, n: nat)
    ensures Pow(Pow2(w), n) == Pow2(w * n)
  {
    if n == 0 {
      assert w * 0 == 0;
    } else {
      PowOfPow2(w, n - 1);
      Distrib(w, n - 1, 1);
      MulNonNegative(w, n - 1);
      Pow2Add(w, w * (n - 1));
    }
  }

  lemma WordPower(n: nat)
    ensures Pow(0x1_0000_0000, n) == Pow2(32 * n)
  {
    Pow2Literals();
    PowOfPow2(32, n);
  }

  lemma LimbPower(n: nat)
    ensures Pow(WORD30, n) == Pow2(30 * n)
  {
    Pow2Literals();
    PowOfPow2(30, n);
  }

  lemma BytePower(n: nat)
    ensures Pow(256, n) == Pow2(8 * n)
  {
    Pow2Literals();
    PowOfPow2(8, n);
  }

  lemma NibblePower(n: nat)
    ensures Pow(16, n) == Pow2(4 * n)
  {
    assert Pow2(4) == 16;
    PowOfPow2(4, n);
  }

  lemma BitPower(n: nat)
    ensures Pow(2, n) == Pow2(n)
  {
    assert Pow2(1) == 2;
    PowOfPow2(1, n);
  }

  ghost function TwoIn(depth: nat, n: nat): (v: nat)
    ensures v > 0
  {
    if depth > 0 then TwoIn(depth - 1, n) else Pow2(n)
  }

  /** Pow2, folded (see Arith); TwoMeans unfolds it. */
  ghost function Two(n: nat): (v: nat)
    ensures v > 0
  {
    TwoIn(FOLDS, n)
  }

  lemma {:induction false} TwoInMeans(depth: nat, n: nat)
    ensures TwoIn(depth, n) == Pow2(n)
  {
    if depth > 0 { TwoInMeans(depth - 1, n); }
  }

  lemma TwoMeans(n: nat)
    ensures Two(n) == Pow2(n) == Pow(2, n) > 0
  {
    BitPower(n);
    TwoInMeans(FOLDS, n);
  }

  lemma TwoDouble(n: nat)
    ensures Two(n + 1) == 2 * Two(n) && Two(n) > 0
  {
    TwoMeans(n);
    TwoMeans(n + 1);
  }

  lemma TwoAdd(m: nat, n: nat)
    ensures Two(m + n) == Two(m) * Two(n) && Two(m) > 0 && Two(n) > 0
  {
    TwoMeans(m);
    TwoMeans(n);
    TwoMeans(m + n);
    Pow2Add(m, n);
  }
}
