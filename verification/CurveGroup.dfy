/**
 The points of a curve as a group.  Associativity and commutativity of the affine
 addition and the prime order are hypotheses; closure, the neutral element and the
 negatives are proved.
 */
module CurveGroup {
  import opened Arith
  import opened Modular
  import opened Words
  import opened Primes
  import opened BignumSpec
  import opened CurveSpec
  import opened CurveClosure
  import opened Groups

  /** Addition, extended to pairs that are not on the curve. */
  ghost function Plus(c: Curve, q: Point, r: Point): Point {
    if Valid(c) && OnCurve(c, q) && OnCurve(c, r) then Add(c, q, r) else Outside(q, r)
  }

  function Outside(q: Point, r: Point): Point {
    if q.Infinity? then r else q
  }

  ghost function Of(c: Curve): Group<Point>
    requires c.order >= 0
  {
    Group((q, r) => Plus(c, q, r), Infinity, q => OnCurve(c, q), c.order)
  }

  ghost predicate Laws(c: Curve)
    requires c.order >= 0
  {
    && (forall q, r :: Commutes(c, q, r))
    && (forall q, r, s :: Associates(Of(c), q, r, s))
    && (forall q :: Annihilates(Of(c), c.order, q))
  }

  ghost function AxiomsIn(depth: nat, c: Curve): Verdict
    requires c.order >= 0
  {
    if depth > 0 then AxiomsIn(depth - 1, c) else if Laws(c) then Holds else Fails
  }

  /**
   The addition is associative and commutative, and the order annihilates every point;
   folded (see Arith), AxiomsMean unfolds it.
   */
  ghost function Axioms(c: Curve): Verdict
    requires c.order >= 0
  {
    AxiomsIn(FOLDS, c)
  }

  lemma {:induction false} AxiomsInMean(depth: nat, c: Curve)
    requires c.order >= 0
    ensures AxiomsIn(depth, c).Holds? <==> Laws(c)
  {
    if depth > 0 { AxiomsInMean(depth - 1, c); }
  }

  lemma AxiomsMean(c: Curve)
    requires c.order >= 0
    ensures Axioms(c).Holds? <==> Laws(c)
  {
    AxiomsInMean(FOLDS, c);
  }

  /** The points form a commutative group of the prime order the curve states. */
  ghost predicate IsGroup(c: Curve) {
    Valid(c) && IsPrime(c.order) && InRange(c.order) && Axioms(c).Holds?
  }

  ghost predicate Commutes(c: Curve, q: Point, r: Point) {
    Valid(c) && OnCurve(c, q) && OnCurve(c, r) ==> Add(c, q, r) == Add(c, r, q)
  }

  lemma GroupLaw(c: Curve)
    requires IsGroup(c)
    ensures Law(Of(c))
  {
    var g := Of(c);
    AxiomsMean(c);
    forall q, r ensures Closed(g, q, r) {
      if OnCurve(c, q) && OnCurve(c, r) {
        AddOnCurve(c, q, r);
        assert Commutes(c, q, r);
      }
    }
    forall q ensures HasUnit(g, q) {}
  }

  ghost function MultipleIn(depth: nat, c: Curve, k: int, q: Point): Point
    requires c.order > 0
  {
    if depth > 0 then MultipleIn(depth - 1, c, k, q) else Mult(Of(c), k, q)
  }

  /** k q; folded (see Arith), MultipleMeans unfolds it. */
  ghost function Multiple(c: Curve, k: int, q: Point): Point
    requires c.order > 0
  {
    MultipleIn(FOLDS, c, k, q)
  }

  lemma {:induction false} MultipleInMeans(depth: nat, c: Curve, k: int, q: Point)
    requires c.order > 0
    ensures MultipleIn(depth, c, k, q) == Mult(Of(c), k, q)
  {
    if depth > 0 { MultipleInMeans(depth - 1, c, k, q); }
  }

  lemma MultipleMeans(c: Curve, k: int, q: Point)
    requires c.order > 0
    ensures Multiple(c, k, q) == Mult(Of(c), k, q)
  {
    MultipleInMeans(FOLDS, c, k, q);
  }

  lemma MulOn(c: Curve, k: int, q: Point)
    requires IsGroup(c) && OnCurve(c, q)
    ensures OnCurve(c, Multiple(c, k, q))
  {
    GroupLaw(c);
    MultipleMeans(c, k, q);
    MultMember(Of(c), k, q);
  }

  /** a q + b q = (a + b) q */
  lemma MulAdd(c: Curve, a: int, b: int, q: Point)
    requires IsGroup(c) && OnCurve(c, q)
    ensures OnCurve(c, Multiple(c, a, q)) && OnCurve(c, Multiple(c, b, q))
    ensures Add(c, Multiple(c, a, q), Multiple(c, b, q)) == Multiple(c, a + b, q)
  {
    MulOn(c, a, q);
    MulOn(c, b, q);
    GroupLaw(c);
    MultipleMeans(c, a, q);
    MultipleMeans(c, b, q);
    MultipleMeans(c, a + b, q);
    MultAdd(Of(c), a, b, q);
  }

  lemma MulMul(c: Curve, a: int, b: int, ab: int, q: Point)
    requires IsGroup(c) && OnCurve(c, q) && ab == a * b
    ensures Multiple(c, a, Multiple(c, b, q)) == Multiple(c, ab, q)
  {
    GroupLaw(c);
    MultipleMeans(c, b, q);
    MultipleMeans(c, a, Multiple(c, b, q));
    MultipleMeans(c, ab, q);
    MultMult(Of(c), a, b, ab, q);
  }

  lemma {:induction false} TimesOnCurve(c: Curve, k: nat, q: Point)
    requires Valid(c) && c.order >= 0 && OnCurve(c, q)
    ensures OnCurve(c, Times(Of(c), k, q))
    ensures k > 0 ==> OnCurve(c, Times(Of(c), k - 1, q)) && Times(Of(c), k, q) == Add(c, q, Times(Of(c), k - 1, q))
  {
    if k > 0 {
      TimesOnCurve(c, k - 1, q);
      AddOnCurve(c, q, Times(Of(c), k - 1, q));
    }
  }

  lemma AssociatesMeans(c: Curve, q: Point, r: Point, s: Point)
    requires Valid(c) && c.order >= 0 && OnCurve(c, q) && OnCurve(c, r) && OnCurve(c, s)
    ensures Reduced(c, Add(c, q, r)) && Reduced(c, Add(c, r, s))
    ensures Associates(Of(c), q, r, s) <==> Add(c, Add(c, q, r), s) == Add(c, q, Add(c, r, s))
  {
    AddOnCurve(c, q, r);
    AddOnCurve(c, r, s);
  }

  lemma AnnihilatesMeans(c: Curve, q: Point)
    requires Valid(c) && c.order > 1 && OnCurve(c, q)
    ensures OnCurve(c, Multiple(c, c.order - 1, q))
    ensures Annihilates(Of(c), c.order, q) <==> Add(c, q, Multiple(c, c.order - 1, q)) == Infinity
  {
    TimesOnCurve(c, c.order, q);
    MultipleMeans(c, c.order - 1, q);
    DivModUnique(c.order - 1, 0, c.order - 1, c.order);
  }

  /** The addition is associative and commutative, and the order takes every point to infinity. */
  ghost predicate Abelian(c: Curve)
    requires Valid(c) && c.order > 1
  {
    && (forall q, r :: OnCurve(c, q) && OnCurve(c, r) ==> Add(c, q, r) == Add(c, r, q))
    && (forall q, r, s :: OnCurve(c, q) && OnCurve(c, r) && OnCurve(c, s) && Reduced(c, Add(c, q, r)) && Reduced(c, Add(c, r, s)) ==>
          Add(c, Add(c, q, r), s) == Add(c, q, Add(c, r, s)))
    && (forall q :: OnCurve(c, q) && Reduced(c, Multiple(c, c.order - 1, q)) ==> Add(c, q, Multiple(c, c.order - 1, q)) == Infinity)
  }

  lemma LawsMean(c: Curve)
    requires Valid(c) && c.order > 1
    ensures Laws(c) <==> Abelian(c)
  {
    if Laws(c) {
      forall q, r | OnCurve(c, q) && OnCurve(c, r) ensures Add(c, q, r) == Add(c, r, q) { assert Commutes(c, q, r); }
      forall q, r, s | OnCurve(c, q) && OnCurve(c, r) && OnCurve(c, s) && Reduced(c, Add(c, q, r)) && Reduced(c, Add(c, r, s))
        ensures Add(c, Add(c, q, r), s) == Add(c, q, Add(c, r, s))
      {
        AssociatesMeans(c, q, r, s);
        assert Associates(Of(c), q, r, s);
      }
      forall q | OnCurve(c, q) && Reduced(c, Multiple(c, c.order - 1, q))
        ensures Add(c, q, Multiple(c, c.order - 1, q)) == Infinity
      {
        AnnihilatesMeans(c, q);
        assert Annihilates(Of(c), c.order, q);
      }
    }
    if Abelian(c) { AbelianLaws(c); }
  }

  lemma AbelianLaws(c: Curve)
    requires Valid(c) && c.order > 1 && Abelian(c)
    ensures Laws(c)
  {
    forall q, r ensures Commutes(c, q, r) {}
    forall q, r, s ensures Associates(Of(c), q, r, s) {
      if OnCurve(c, q) && OnCurve(c, r) && OnCurve(c, s) { AssociatesMeans(c, q, r, s); }
    }
    forall q ensures Annihilates(Of(c), c.order, q) {
      if OnCurve(c, q) { AnnihilatesMeans(c, q); }
    }
  }

  /** The hypothesis in full: the curve is valid, its order is a prime in range, and its points are such a group. */
  lemma GroupMeans(c: Curve)
    ensures IsGroup(c) <==> Valid(c) && IsPrime(c.order) && InRange(c.order) && Abelian(c)
  {
    if Valid(c) && IsPrime(c.order) {
      AxiomsMean(c);
      LawsMean(c);
    }
  }

  lemma MulCong(c: Curve, a: int, b: int, q: Point)
    requires c.order > 0 && Cong(a, b, c.order)
    ensures Multiple(c, a, q) == Multiple(c, b, q)
  {
    MultipleMeans(c, a, q);
    MultipleMeans(c, b, q);
    MultCong(Of(c), a, b, q);
  }

  lemma MulOne(c: Curve, q: Point)
    requires IsGroup(c) && OnCurve(c, q)
    ensures Multiple(c, 1, q) == q && Multiple(c, 0, q) == Infinity
  {
    GroupLaw(c);
    MultipleMeans(c, 0, q);
    MultipleMeans(c, 1, q);
    MultOne(Of(c), q);
  }

  lemma MulZero(c: Curve, k: int, q: Point)
    requires IsGroup(c) && OnCurve(c, q) && q.At?
    ensures Multiple(c, k, q) == Infinity <==> Cong(k, 0, c.order)
  {
    GroupLaw(c);
    MultipleMeans(c, k, q);
    MultZero(Of(c), k, q);
  }

  /** Only a point and its negative add up to infinity. */
  lemma SumInfinity(c: Curve, q: Point, r: Point)
    requires Valid(c) && OnCurve(c, q) && OnCurve(c, r)
    ensures Add(c, q, r) == Infinity <==> r == Neg(c, q)
  {
    if q.At? && r.At? && Opposite(q, r) {
      OddPrime(c.prime);
      if q.y != r.y {
        OppositeY(q.x, q.y, r.y, c);
        SumOfTwo(q.y, r.y, c.prime);
      }
    } else if q.At? && r.At? && q.x == r.x {
      OddPrime(c.prime);
      NotNegated(q.y, c.prime);
    }
  }

  lemma NotNegated(y: int, p: int)
    requires p % 2 == 1
    ensures p - y != y
  {}

  lemma MulNeg(c: Curve, k: int, q: Point)
    requires IsGroup(c) && OnCurve(c, q)
    ensures Neg(c, Multiple(c, k, q)) == Multiple(c, -k, q)
  {
    MulAdd(c, k, -k, q);
    MulOne(c, q);
    SumInfinity(c, Multiple(c, k, q), Multiple(c, -k, q));
  }
}
