/**
 The bitsliced field arithmetic: eight 32-bit words hold 32 field elements, word k the
 coefficients of x^k and bit l of every word the element in lane l.
 */
module Bitslice {
  import opened Words
  import opened Gf256
  import opened Gf256Inverse
  import Arith

  /** The element in lane l. */
  function Lane(r: seq<u32>, l: nat): F
    requires |r| == 8
  {
    seq(8, k requires 0 <= k < 8 => Bit(r[k], l))
  }

  lemma {:induction false} AndBelow(a: nat, b: nat)
    ensures And(a, b) <= a
    decreases a
  {
    if a > 0 && b > 0 { AndBelow(a / 2, b / 2); }
  }

  lemma {:induction false} OrBelow(a: nat, b: nat, n: nat)
    requires a < Pow2(n) && b < Pow2(n)
    ensures Or(a, b) < Pow2(n)
    decreases n
  {
    if n > 0 && a > 0 && b > 0 { OrBelow(a / 2, b / 2, n - 1); }
  }

  lemma ThirtyTwo() returns (n: nat)
    ensures n == 32 && Pow2(n) == 0x1_0000_0000
  {
    Pow2Literals();
    n := 32;
  }

  /** a ^ b in 32 bits */
  function Xor32(a: u32, b: u32): (r: u32)
    ensures forall l: nat :: Bit(r, l) <==> Bit(a, l) != Bit(b, l)
  {
    assert Xor(a, b) < 0x1_0000_0000 by {
      var n := ThirtyTwo();
      XorBelow(a, b, n);
    }
    assert forall l: nat :: Bit(Xor(a, b), l) <==> Bit(a, l) != Bit(b, l) by {
      forall l: nat ensures Bit(Xor(a, b), l) <==> Bit(a, l) != Bit(b, l) { BitXor(a, b, l); }
    }
    Xor(a, b)
  }

  /** a & b in 32 bits */
  function And32(a: u32, b: u32): (r: u32)
    ensures forall l: nat :: Bit(r, l) <==> Bit(a, l) && Bit(b, l)
  {
    AndBelow(a, b);
    assert forall l: nat :: Bit(And(a, b), l) <==> Bit(a, l) && Bit(b, l) by {
      forall l: nat ensures Bit(And(a, b), l) <==> Bit(a, l) && Bit(b, l) { BitAnd(a, b, l); }
    }
    And(a, b)
  }

  // ------------------------------------------------------------ addition and multiplication

  /** gf256_add: r += x in every lane. */
  method AddInto(r: array<u32>, x: array<u32>)
    requires r.Length == 8 && x.Length == 8 && r != x
    modifies r
    ensures forall l: nat :: Lane(r[..], l) == Add(Lane(old(r[..]), l), Lane(x[..], l))
  {
    var idx := 0;
    while idx < 8
      invariant 0 <= idx <= 8
      invariant forall k :: idx <= k < 8 ==> r[k] == old(r[k])
      invariant forall k, l: nat :: 0 <= k < idx ==> (Bit(r[k], l) <==> Bit(old(r[k]), l) != Bit(x[k], l))
    {
      r[idx] := Xor32(r[idx], x[idx]);
      idx := idx + 1;
    }
  }

  /** Where the coefficient of x^k is kept after i multiplications by x. */
  function Slot(k: int, i: int): int {
    if k >= i then k - i else k + 8 - i
  }

  function Wrap(j: int): int {
    if j >= 8 then j - 8 else j
  }

  /** The words in coefficient order after i multiplications by x. */
  function Rotated(a: seq<u32>, i: nat): (s: seq<u32>)
    requires |a| == 8 && i < 8
    ensures |s| == 8
  {
    seq(8, k requires 0 <= k < 8 => a[Slot(k, i)])
  }

  /** One reduction: the words then hold x times the elements, one slot further round. */
  method MultiplyByX(a: array<u32>, i: nat)
    requires a.Length == 8 && i < 7
    modifies a
    ensures forall l: nat :: Lane(Rotated(a[..], i + 1), l) == XTime(Lane(Rotated(old(a[..]), i), l))
  {
    var t := 7 - i;
    var t1, t3, t4 := Wrap(t + 1), Wrap(t + 3), Wrap(t + 4);
    a[t1] := Xor32(a[t1], a[t]);
    a[t3] := Xor32(a[t3], a[t]);
    a[t4] := Xor32(a[t4], a[t]);
    forall l: nat ensures Lane(Rotated(a[..], i + 1), l) == XTime(Lane(Rotated(old(a[..]), i), l)) {
      ReducedLane(old(a[..]), a[..], i, l);
    }
  }

  lemma ReducedLane(s: seq<u32>, r: seq<u32>, i: nat, l: nat)
    requires |s| == |r| == 8 && i < 7
    requires forall k :: 0 <= k < 8 ==>
      (Bit(r[k], l) <==> if k == Wrap(8 - i) || k == Wrap(10 - i) || k == Wrap(11 - i)
                         then Bit(s[k], l) != Bit(s[7 - i], l) else Bit(s[k], l))
    ensures Lane(Rotated(r, i + 1), l) == XTime(Lane(Rotated(s, i), l))
  {
    var x, y := Lane(Rotated(r, i + 1), l), XTime(Lane(Rotated(s, i), l));
    forall k | 0 <= k < 8 ensures x[k] == y[k] {
      assert Slot(7, i) == 7 - i;
      if k > 0 { assert Slot(k, i + 1) == Slot(k - 1, i); }
    }
    assert x == y;
  }

  /** One addition: r += a x^i in the lanes where the word b is set. */
  method AddSelected(r: array<u32>, a: array<u32>, i: nat, b: u32)
    requires r.Length == 8 && a.Length == 8 && i < 8 && r != a
    modifies r
    ensures forall l: nat :: Lane(r[..], l) == Add(Lane(old(r[..]), l), Sel(Bit(b, l), Lane(Rotated(a[..], i), l)))
  {
    var k := 0;
    while k < 8
      invariant 0 <= k <= 8
      invariant forall j :: k <= j < 8 ==> r[j] == old(r[j])
      invariant forall j :: 0 <= j < k ==> r[j] == Xor32(old(r[j]), And32(a[Slot(j, i)], b))
    {
      r[k] := Xor32(r[k], And32(a[Slot(k, i)], b));
      k := k + 1;
    }
    forall l: nat ensures Lane(r[..], l) == Add(Lane(old(r[..]), l), Sel(Bit(b, l), Lane(Rotated(a[..], i), l))) {}
  }

  /** The part of the product still to be added in lane l. */
  function Remaining(a: seq<u32>, b: seq<u32>, i: nat, l: nat): F
    requires |a| == |b| == 8 && i < 8
  {
    MulBits(Lane(Rotated(a, i), l), Lane(b, l)[i..])
  }

  lemma NextRemaining(a: seq<u32>, a': seq<u32>, b: seq<u32>, i: nat, l: nat)
    requires |a| == |a'| == |b| == 8 && i < 7
    requires Lane(Rotated(a', i + 1), l) == XTime(Lane(Rotated(a, i), l))
    ensures Remaining(a, b, i, l) == Add(Sel(Bit(b[i], l), Lane(Rotated(a, i), l)), Remaining(a', b, i + 1, l))
  {
    assert Lane(b, l)[i..][1..] == Lane(b, l)[i + 1..];
  }

  lemma LastRemaining(a: seq<u32>, b: seq<u32>, i: nat, l: nat)
    requires |a| == |b| == 8 && i == 7
    ensures Remaining(a, b, i, l) == Sel(Bit(b[i], l), Lane(Rotated(a, i), l))
  {
    var s, v := Lane(b, l)[i..], Lane(Rotated(a, i), l);
    assert s[1..] == [] && s[0] == Bit(b[i], l);
    assert MulBits(v, s) == Add(Sel(s[0], v), MulBits(XTime(v), s[1..]));
    AddLaws(Sel(Bit(b[i], l), Lane(Rotated(a, i), l)), Zero, Zero);
  }

  /** gf256_mul: r := a b in every lane; r may be a but not b. */
  method Multiply(r: array<u32>, a: array<u32>, b: array<u32>)
    requires r.Length == 8 && a.Length == 8 && b.Length == 8 && r != b
    modifies r
    ensures forall l: nat :: Lane(r[..], l) == Mul(Lane(old(a[..]), l), Lane(b[..], l))
  {
    ghost var a0 := a[..];
    var a2 := new u32[8](k requires 0 <= k < 8 reads a => a[k]);
    var k := 0;
    while k < 8
      invariant 0 <= k <= 8 && a2[..] == a0 && b[..] == old(b[..])
      invariant forall j :: 0 <= j < k ==> r[j] == 0
    {
      r[k] := 0;
      k := k + 1;
    }
    var i := 0;
    Started(r[..], a2[..], b[..]);
    while i < 7
      invariant 0 <= i <= 7 && b[..] == old(b[..])
      invariant forall l: nat :: Add(Lane(r[..], l), Remaining(a2[..], b[..], i, l)) == Mul(Lane(a0, l), Lane(b[..], l))
    {
      ghost var r1, a1 := r[..], a2[..];
      AddSelected(r, a2, i, b[i]);
      MultiplyByX(a2, i);
      forall l: nat
        ensures Add(Lane(r[..], l), Remaining(a2[..], b[..], i + 1, l)) == Mul(Lane(a0, l), Lane(b[..], l))
      {
        NextRemaining(a1, a2[..], b[..], i, l);
        AddLaws(Lane(r1, l), Sel(Bit(b[i], l), Lane(Rotated(a1, i), l)), Remaining(a2[..], b[..], i + 1, l));
      }
      i := i + 1;
    }
    ghost var r1 := r[..];
    AddSelected(r, a2, i, b[i]);
    forall l: nat ensures Lane(r[..], l) == Mul(Lane(a0, l), Lane(b[..], l)) {
      LastRemaining(a2[..], b[..], i, l);
    }
  }

  lemma Started(r: seq<u32>, a: seq<u32>, b: seq<u32>)
    requires |r| == |a| == |b| == 8 && forall k :: 0 <= k < 8 ==> r[k] == 0
    ensures forall l: nat :: Add(Lane(r, l), Remaining(a, b, 0, l)) == Mul(Lane(a, l), Lane(b, l))
  {
    forall l: nat ensures Add(Lane(r, l), Remaining(a, b, 0, l)) == Mul(Lane(a, l), Lane(b, l)) {
      forall k | 0 <= k < 8 ensures !Lane(r, l)[k] { BitZero(l); }
      assert Lane(r, l) == Zero;
      assert Rotated(a, 0) == a && Lane(b, l)[0..] == Lane(b, l);
      AddLaws(Remaining(a, b, 0, l), Zero, Zero);
      MulIsBits(Lane(a, l), Lane(b, l));
    }
  }

  // ------------------------------------------------------------ squaring and inversion

  /** The words of the square, each a sum of words of x. */
  lemma SquaredLane(x: seq<u32>, r: seq<u32>, l: nat)
    requires |x| == |r| == 8
    requires Bit(r[0], l) == ((Bit(x[0], l) != Bit(x[4], l)) != Bit(x[6], l))
    requires Bit(r[1], l) == ((Bit(x[4], l) != Bit(x[6], l)) != Bit(x[7], l))
    requires Bit(r[2], l) == (Bit(x[1], l) != Bit(x[5], l))
    requires Bit(r[3], l) == ((Bit(x[4], l) != Bit(x[5], l)) != (Bit(x[6], l) != Bit(x[7], l)))
    requires Bit(r[4], l) == ((Bit(x[2], l) != Bit(x[4], l)) != Bit(x[7], l))
    requires Bit(r[5], l) == (Bit(x[5], l) != Bit(x[6], l))
    requires Bit(r[6], l) == (Bit(x[3], l) != Bit(x[5], l))
    requires Bit(r[7], l) == (Bit(x[6], l) != Bit(x[7], l))
    ensures Lane(r, l) == Square(Lane(x, l))
  {
    SquareUnique(Lane(x, l), Lane(r, l));
  }

  /** The reduction of the squared polynomial, whose terms from x^8 on are in r8 to r14. */
  method ReduceSquare(r: array<u32>, r8: u32, r10: u32, r12: u32, r14: u32)
    requires r.Length == 8
    modifies r
    ensures var (s8, s10) := (Xor32(r8, r12), Xor32(r10, r14));
      && r[0] == Xor32(old(r[0]), s8) && r[1] == Xor32(r14, s8)
      && r[2] == Xor32(Xor32(old(r[2]), s10), r14) && r[3] == Xor32(s10, s8)
      && r[4] == Xor32(Xor32(Xor32(old(r[4]), r12), r14), s8) && r[5] == Xor32(Xor32(r12, s10), r14)
      && r[6] == Xor32(Xor32(old(r[6]), r14), s10) && r[7] == Xor32(r14, r12)
  {
    r[7] := r14;
    r[6] := Xor32(r[6], r14);
    var s10 := Xor32(r10, r14);
    r[4] := Xor32(r[4], r12);
    r[5] := r12;
    r[7] := Xor32(r[7], r12);
    var s8 := Xor32(r8, r12);
    r[2] := Xor32(r[2], s10);
    r[3] := s10;
    r[5] := Xor32(r[5], s10);
    r[6] := Xor32(r[6], s10);
    r[1] := r14;
    r[2] := Xor32(r[2], r14);
    r[4] := Xor32(r[4], r14);
    r[5] := Xor32(r[5], r14);
    r[0] := Xor32(r[0], s8);
    r[1] := Xor32(r[1], s8);
    r[3] := Xor32(r[3], s8);
    r[4] := Xor32(r[4], s8);
  }

  /** gf256_square: r := x^2 in every lane; r may be x. */
  method SquareInto(r: array<u32>, x: array<u32>)
    requires r.Length == 8 && x.Length == 8
    modifies r
    ensures forall l: nat :: Lane(r[..], l) == Square(Lane(old(x[..]), l))
  {
    ghost var x0 := x[..];
    var r14, r12, r10, r8 := x[7], x[6], x[5], x[4];
    r[6] := x[3];
    r[4] := x[2];
    r[2] := x[1];
    r[0] := x[0];
    ReduceSquare(r, r8, r10, r12, r14);
    forall l: nat ensures Lane(r[..], l) == Square(Lane(x0, l)) {
      SquaredLane(x0, r[..], l);
    }
  }

  /** The addition chain of gf256_inv, for x^254. */
  function InverseChain(x: F): F {
    var x4 := Square(Square(x));
    var x8 := Square(x4);
    var x25 := Mul(Square(x8), Mul(x8, x));
    var x50 := Square(x25);
    Mul(Mul(x50, Square(Square(x50))), x4)
  }

  lemma PowerOfSquare(x: F, b: F, n: nat, m: nat)
    requires b == Power(x, n) && m == 2 * n
    ensures Square(b) == Power(x, m)
  {
    PowerAdd(x, n, n, m);
  }

  lemma ChainIsInverse(x: F)
    ensures InverseChain(x) == Inverse(x)
  {
    var x4 := Square(Square(x));
    var x8 := Square(x4);
    var x25 := Mul(Square(x8), Mul(x8, x));
    ghost var n := InverseExponent() - 250;
    FirstPowers(x, n);
    var x50 := Square(x25);
    PowerOfSquare(x, x25, 6 * n + 1, 12 * n + 2);
    PowerOfSquare(x, x50, 12 * n + 2, 24 * n + 4);
    PowerOfSquare(x, Square(x50), 24 * n + 4, 48 * n + 8);
    PowerAdd(x, 12 * n + 2, 48 * n + 8, 60 * n + 10);
    PowerAdd(x, 60 * n + 10, n, InverseExponent());
    InverseIsPower(x);
  }

  /** x^4, x^8 and x^25; n is 4. */
  lemma FirstPowers(x: F, n: nat)
    requires n == 4
    ensures var x4 := Square(Square(x));
            var x8 := Square(x4);
            x4 == Power(x, n) && Mul(Square(x8), Mul(x8, x)) == Power(x, 6 * n + 1)
  {
    var x4 := Square(Square(x));
    var x8 := Square(x4);
    MulOne(x);
    assert Power(x, n - 3) == Mul(x, Power(x, n - 4));
    PowerOfSquare(x, x, n - 3, n - 2);
    PowerOfSquare(x, Square(x), n - 2, n);
    PowerOfSquare(x, x4, n, 2 * n);
    PowerOfSquare(x, x8, 2 * n, 4 * n);
    PowerAdd(x, 2 * n, n - 3, 2 * n + 1);
    PowerAdd(x, 4 * n, 2 * n + 1, 6 * n + 1);
  }

  /** y := x^4, r := x^8, z := x^9 */
  method InvertHead(r: array<u32>, x: array<u32>, y: array<u32>, z: array<u32>)
    requires r.Length == 8 && x.Length == 8 && y.Length == 8 && z.Length == 8
    requires r != x && r != y && r != z && x != y && x != z && y != z
    modifies r, y, z
    ensures forall l: nat :: Lane(y[..], l) == Square(Square(Lane(x[..], l)))
    ensures forall l: nat :: Lane(r[..], l) == Square(Square(Square(Lane(x[..], l))))
    ensures forall l: nat :: Lane(z[..], l) == Mul(Square(Square(Square(Lane(x[..], l)))), Lane(x[..], l))
  {
    SquareInto(y, x);
    SquareInto(y, y);
    SquareInto(r, y);
    Multiply(z, r, x);
  }

  /** r := x^50, from x^8 and x^9 */
  method InvertMiddle(r: array<u32>, z: array<u32>)
    requires r.Length == 8 && z.Length == 8 && r != z
    modifies r
    ensures forall l: nat :: Lane(r[..], l) == Square(Mul(Square(Lane(old(r[..]), l)), Lane(z[..], l)))
  {
    SquareInto(r, r);
    Multiply(r, r, z);
    SquareInto(r, r);
  }

  /** r := x^254, from x^50 and x^4 */
  method InvertTail(r: array<u32>, y: array<u32>, z: array<u32>)
    requires r.Length == 8 && y.Length == 8 && z.Length == 8 && r != z && r != y && y != z
    modifies r, z
    ensures forall l: nat ::
      Lane(r[..], l) == Mul(Mul(Lane(old(r[..]), l), Square(Square(Lane(old(r[..]), l)))), Lane(y[..], l))
  {
    SquareInto(z, r);
    SquareInto(z, z);
    Multiply(r, r, z);
    Multiply(r, r, y);
  }

  /** gf256_inv: r := x^254 in every lane. */
  method Invert(r: array<u32>, x: array<u32>)
    requires r.Length == 8 && x.Length == 8 && r != x
    modifies r
    ensures forall l: nat :: Lane(r[..], l) == Inverse(Lane(x[..], l))
  {
    var y, z := new u32[8](_ => 0), new u32[8](_ => 0);
    InvertHead(r, x, y, z);
    InvertMiddle(r, z);
    InvertTail(r, y, z);
    forall l: nat ensures Lane(r[..], l) == Inverse(Lane(x[..], l)) {
      ChainIsInverse(Lane(x[..], l));
    }
  }
}
