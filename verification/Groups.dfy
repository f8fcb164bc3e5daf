/** Multiples of an element of a commutative group of prime order. */
module Groups {
  import opened Arith
  import opened Modular
  import opened Primes

  datatype Group<!T> = Group(op: (T, T) -> T, zero: T, member: T -> bool, order: nat)

  ghost predicate Closed<T(!new)>(g: Group<T>, q: T, r: T) {
    g.member(q) && g.member(r) ==> g.member(g.op(q, r)) && g.op(q, r) == g.op(r, q)
  }

  ghost predicate Associates<T(!new)>(g: Group<T>, q: T, r: T, s: T) {
    g.member(q) && g.member(r) && g.member(s) ==> g.op(g.op(q, r), s) == g.op(q, g.op(r, s))
  }

  ghost predicate HasUnit<T(!new)>(g: Group<T>, q: T) {
    g.member(g.zero) && g.op(g.zero, q) == q
  }

  ghost predicate Annihilates<T(!new)>(g: Group<T>, n: nat, q: T) {
    g.member(q) ==> Times(g, n, q) == g.zero
  }

  ghost predicate Law<T(!new)>(g: Group<T>) {
    && IsPrime(g.order)
    && (forall q, r :: Closed(g, q, r))
    && (forall q, r, s :: Associates(g, q, r, s))
    && (forall q :: HasUnit(g, q))
    && (forall q :: Annihilates(g, g.order, q))
  }

  /** k q by repeated addition */
  ghost function Times<T(!new)>(g: Group<T>, k: nat, q: T): T {
    if k == 0 then g.zero else g.op(q, Times(g, k - 1, q))
  }

  lemma {:induction false} TimesMember<T(!new)>(g: Group<T>, k: nat, q: T)
    requires Law(g) && g.member(q)
    ensures g.member(Times(g, k, q))
  {
    if k == 0 {
      assert HasUnit(g, q);
    } else {
      TimesMember(g, k - 1, q);
      assert Closed(g, q, Times(g, k - 1, q));
    }
  }

  lemma {:induction false} TimesAdd<T(!new)>(g: Group<T>, m: nat, n: nat, q: T)
    requires Law(g) && g.member(q)
    ensures Times(g, m + n, q) == g.op(Times(g, m, q), Times(g, n, q))
  {
    if m == 0 {
      assert HasUnit(g, Times(g, n, q));
    } else {
      TimesAdd(g, m - 1, n, q);
      TimesMember(g, m - 1, q);
      TimesMember(g, n, q);
      assert Associates(g, q, Times(g, m - 1, q), Times(g, n, q));
    }
  }

  /** (m n) q = m (n q); mn is the product. */
  lemma {:induction false} TimesTimes<T(!new)>(g: Group<T>, m: nat, n: nat, mn: nat, q: T)
    requires Law(g) && g.member(q) && mn == m * n
    ensures Times(g, m, Times(g, n, q)) == Times(g, mn, q)
  {
    if m > 0 {
      Distrib(n, m, 1);
      MulNonNegative(m - 1, n);
      assert mn == n + (m - 1) * n;
      TimesTimes(g, m - 1, n, mn - n, q);
      TimesAdd(g, n, mn - n, q);
    }
  }

  lemma {:induction false} TimesZero<T(!new)>(g: Group<T>, k: nat)
    requires Law(g)
    ensures Times(g, k, g.zero) == g.zero
  {
    if k > 0 {
      TimesZero(g, k - 1);
      assert HasUnit(g, g.zero);
    }
  }

  /** k q for any integer k */
  ghost function Mult<T(!new)>(g: Group<T>, k: int, q: T): T
    requires g.order > 0
  {
    Times(g, k % g.order, q)
  }

  lemma MultMember<T(!new)>(g: Group<T>, k: int, q: T)
    requires Law(g) && g.member(q)
    ensures g.member(Mult(g, k, q))
  {
    TimesMember(g, k % g.order, q);
  }

  /** Multiples of the order may be dropped. */
  lemma TimesMod<T(!new)>(g: Group<T>, k: nat, q: T)
    requires Law(g) && g.member(q)
    ensures Times(g, k, q) == Mult(g, k, q)
  {
    var n := g.order;
    DivMod(k, n);
    DivBounds(k, n, 0);
    var m := n * (k / n);
    MulNonNegative(n, k / n);
    TimesAdd(g, m, k % n, q);
    TimesTimes(g, k / n, n, m, q);
    assert Annihilates(g, n, q);
    TimesZero(g, k / n);
    assert HasUnit(g, Times(g, k % n, q));
  }

  lemma MultCong<T(!new)>(g: Group<T>, a: int, b: int, q: T)
    requires g.order > 0 && Cong(a, b, g.order)
    ensures Mult(g, a, q) == Mult(g, b, q)
  {
    CongIsMod(a, b, g.order);
  }

  lemma MultAdd<T(!new)>(g: Group<T>, a: int, b: int, q: T)
    requires Law(g) && g.member(q)
    ensures g.op(Mult(g, a, q), Mult(g, b, q)) == Mult(g, a + b, q)
  {
    var n := g.order;
    CongMod(a, n);
    CongMod(b, n);
    TimesAdd(g, a % n, b % n, q);
    TimesMod(g, a % n + b % n, q);
    CongAdd(a % n, a, b % n, b, n);
    MultCong(g, a % n + b % n, a + b, q);
  }

  /** a (b q) = (a b) q */
  lemma MultMult<T(!new)>(g: Group<T>, a: int, b: int, ab: int, q: T)
    requires Law(g) && g.member(q) && ab == a * b
    ensures Mult(g, a, Mult(g, b, q)) == Mult(g, ab, q)
  {
    var n := g.order;
    CongMod(a, n);
    CongMod(b, n);
    MulNonNegative(a % n, b % n);
    var m := (a % n) * (b % n);
    TimesTimes(g, a % n, b % n, m, q);
    TimesMod(g, m, q);
    CongMul(a % n, a, b % n, b, n);
    MultCong(g, m, ab, q);
  }

  lemma MultOne<T(!new)>(g: Group<T>, q: T)
    requires Law(g) && g.member(q)
    ensures Mult(g, 1, q) == q && Mult(g, 0, q) == g.zero
  {
    DivModUnique(1, 0, 1, g.order);
    DivModUnique(0, 0, 0, g.order);
    assert HasUnit(g, q);
    assert Closed(g, g.zero, q);
    assert Times(g, 1, q) == g.op(q, Times(g, 0, q));
  }

  /** Only the multiples of the order annihilate an element other than zero. */
  lemma MultZero<T(!new)>(g: Group<T>, k: int, q: T)
    requires Law(g) && g.member(q) && q != g.zero
    ensures Mult(g, k, q) == g.zero <==> Cong(k, 0, g.order)
  {
    MultOne(g, q);
    if Cong(k, 0, g.order) {
      MultCong(g, k, 0, q);
    } else if Mult(g, k, q) == g.zero {
      var i := Inv(k, g.order);
      var ik := i * k;
      MultMult(g, i, k, ik, q);
      assert ik == k * i;
      MultCong(g, ik, 1, q);
      TimesZero(g, i % g.order);
      assert false;
    }
  }
}
