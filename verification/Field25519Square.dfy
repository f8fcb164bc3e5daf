/** The columns of a square: each product of two different limbs is taken once, doubled. */
module Field25519Square {
  import opened Arith
  import opened Modular
  import opened Words
  import opened Fermat
  import opened Field25519Spec
  import opened Field25519

  /** A product of multiples. */
  lemma Scale(p: int, q: int, x: int, y: int, i: int, j: int)
    requires p == i * x && q == j * y
    ensures p * q == (i * j) * (x * y)
  {
    Interchange(i, x, j, y);
  }

  lemma Square0(r: Ten<int>, p0: int, q0: int, p1: int, q1: int, p2: int, q2: int, p3: int, q3: int, p4: int,
                q4: int, p5: int, q5: int)
    requires p0 == r.x0 && q0 == r.x0 && p1 == 38 * r.x9 && q1 == 2 * r.x1
    requires p2 == 19 * r.x8 && q2 == 2 * r.x2 && p3 == 38 * r.x7 && q3 == 2 * r.x3
    requires p4 == 19 * r.x6 && q4 == 2 * r.x4 && p5 == r.x5 && q5 == 38 * r.x5
    ensures p0 * q0 + p1 * q1 + p2 * q2 + p3 * q3 + p4 * q4 + p5 * q5 == Columns(r, r).x0
  {
    Scale(p1, q1, r.x9, r.x1, 38, 2);
    Scale(p2, q2, r.x8, r.x2, 19, 2);
    Scale(p3, q3, r.x7, r.x3, 38, 2);
    Scale(p4, q4, r.x6, r.x4, 19, 2);
    Scale(p5, q5, r.x5, r.x5, 1, 38);
    Factors(r.x1, r.x9);
    Factors(r.x2, r.x8);
    Factors(r.x3, r.x7);
    Factors(r.x4, r.x6);
    Factors(r.x5, r.x5);
    Factors(r.x6, r.x4);
    Factors(r.x7, r.x3);
    Factors(r.x8, r.x2);
    Factors(r.x9, r.x1);
  }

  lemma Square1(r: Ten<int>, p0: int, q0: int, p1: int, q1: int, p2: int, q2: int, p3: int, q3: int, p4: int, q4: int)
    requires p0 == 2 * r.x0 && q0 == r.x1 && p1 == 38 * r.x9 && q1 == r.x2
    requires p2 == 19 * r.x8 && q2 == 2 * r.x3 && p3 == 38 * r.x7 && q3 == r.x4
    requires p4 == 19 * r.x6 && q4 == 2 * r.x5
    ensures p0 * q0 + p1 * q1 + p2 * q2 + p3 * q3 + p4 * q4 == Columns(r, r).x1
  {
    Scale(p0, q0, r.x0, r.x1, 2, 1);
    Scale(p1, q1, r.x9, r.x2, 38, 1);
    Scale(p2, q2, r.x8, r.x3, 19, 2);
    Scale(p3, q3, r.x7, r.x4, 38, 1);
    Scale(p4, q4, r.x6, r.x5, 19, 2);
    Factors(r.x2, r.x9);
    Factors(r.x3, r.x8);
    Factors(r.x4, r.x7);
    Factors(r.x5, r.x6);
    Factors(r.x6, r.x5);
    Factors(r.x7, r.x4);
    Factors(r.x8, r.x3);
    Factors(r.x9, r.x2);
  }

  lemma Square2(r: Ten<int>, p0: int, q0: int, p1: int, q1: int, p2: int, q2: int, p3: int, q3: int, p4: int,
                q4: int, p5: int, q5: int)
    requires p0 == 2 * r.x0 && q0 == r.x2 && p1 == r.x1 && q1 == 2 * r.x1
    requires p2 == 38 * r.x9 && q2 == 2 * r.x3 && p3 == 19 * r.x8 && q3 == 2 * r.x4
    requires p4 == 38 * r.x7 && q4 == 2 * r.x5 && p5 == 19 * r.x6 && q5 == r.x6
    ensures p0 * q0 + p1 * q1 + p2 * q2 + p3 * q3 + p4 * q4 + p5 * q5 == Columns(r, r).x2
  {
    Scale(p0, q0, r.x0, r.x2, 2, 1);
    Scale(p1, q1, r.x1, r.x1, 1, 2);
    Scale(p2, q2, r.x9, r.x3, 38, 2);
    Scale(p3, q3, r.x8, r.x4, 19, 2);
    Scale(p4, q4, r.x7, r.x5, 38, 2);
    Scale(p5, q5, r.x6, r.x6, 19, 1);
    Factors(r.x1, r.x1);
    Factors(r.x3, r.x9);
    Factors(r.x4, r.x8);
    Factors(r.x5, r.x7);
    Factors(r.x6, r.x6);
    Factors(r.x7, r.x5);
    Factors(r.x8, r.x4);
    Factors(r.x9, r.x3);
  }

  lemma Square3(r: Ten<int>, p0: int, q0: int, p1: int, q1: int, p2: int, q2: int, p3: int, q3: int, p4: int, q4: int)
    requires p0 == 2 * r.x0 && q0 == r.x3 && p1 == 2 * r.x1 && q1 == r.x2
    requires p2 == 38 * r.x9 && q2 == r.x4 && p3 == 19 * r.x8 && q3 == 2 * r.x5
    requires p4 == 38 * r.x7 && q4 == r.x6
    ensures p0 * q0 + p1 * q1 + p2 * q2 + p3 * q3 + p4 * q4 == Columns(r, r).x3
  {
    Scale(p0, q0, r.x0, r.x3, 2, 1);
    Scale(p1, q1, r.x1, r.x2, 2, 1);
    Scale(p2, q2, r.x9, r.x4, 38, 1);
    Scale(p3, q3, r.x8, r.x5, 19, 2);
    Scale(p4, q4, r.x7, r.x6, 38, 1);
    Factors(r.x4, r.x9);
    Factors(r.x5, r.x8);
    Factors(r.x6, r.x7);
    Factors(r.x7, r.x6);
    Factors(r.x8, r.x5);
    Factors(r.x9, r.x4);
  }

  lemma Square4(r: Ten<int>, p0: int, q0: int, p1: int, q1: int, p2: int, q2: int, p3: int, q3: int, p4: int,
                q4: int, p5: int, q5: int)
    requires p0 == 2 * r.x0 && q0 == r.x4 && p1 == 2 * r.x1 && q1 == 2 * r.x3
    requires p2 == r.x2 && q2 == r.x2 && p3 == 38 * r.x9 && q3 == 2 * r.x5
    requires p4 == 19 * r.x8 && q4 == 2 * r.x6 && p5 == 38 * r.x7 && q5 == r.x7
    ensures p0 * q0 + p1 * q1 + p2 * q2 + p3 * q3 + p4 * q4 + p5 * q5 == Columns(r, r).x4
  {
    Scale(p0, q0, r.x0, r.x4, 2, 1);
    Scale(p1, q1, r.x1, r.x3, 2, 2);
    Scale(p3, q3, r.x9, r.x5, 38, 2);
    Scale(p4, q4, r.x8, r.x6, 19, 2);
    Scale(p5, q5, r.x7, r.x7, 38, 1);
    Factors(r.x1, r.x3);
    Factors(r.x3, r.x1);
    Factors(r.x5, r.x9);
    Factors(r.x6, r.x8);
    Factors(r.x7, r.x7);
    Factors(r.x8, r.x6);
    Factors(r.x9, r.x5);
  }

  lemma Square5(r: Ten<int>, p0: int, q0: int, p1: int, q1: int, p2: int, q2: int, p3: int, q3: int, p4: int, q4: int)
    requires p0 == 2 * r.x0 && q0 == r.x5 && p1 == 2 * r.x1 && q1 == r.x4
    requires p2 == 2 * r.x2 && q2 == r.x3 && p3 == 38 * r.x9 && q3 == r.x6
    requires p4 == 19 * r.x8 && q4 == 2 * r.x7
    ensures p0 * q0 + p1 * q1 + p2 * q2 + p3 * q3 + p4 * q4 == Columns(r, r).x5
  {
    Scale(p0, q0, r.x0, r.x5, 2, 1);
    Scale(p1, q1, r.x1, r.x4, 2, 1);
    Scale(p2, q2, r.x2, r.x3, 2, 1);
    Scale(p3, q3, r.x9, r.x6, 38, 1);
    Scale(p4, q4, r.x8, r.x7, 19, 2);
    Factors(r.x6, r.x9);
    Factors(r.x7, r.x8);
    Factors(r.x8, r.x7);
    Factors(r.x9, r.x6);
  }

  lemma Square6(r: Ten<int>, p0: int, q0: int, p1: int, q1: int, p2: int, q2: int, p3: int, q3: int, p4: int,
                q4: int, p5: int, q5: int)
    requires p0 == 2 * r.x0 && q0 == r.x6 && p1 == 2 * r.x1 && q1 == 2 * r.x5
    requires p2 == 2 * r.x2 && q2 == r.x4 && p3 == r.x3 && q3 == 2 * r.x3
    requires p4 == 38 * r.x9 && q4 == 2 * r.x7 && p5 == 19 * r.x8 && q5 == r.x8
    ensures p0 * q0 + p1 * q1 + p2 * q2 + p3 * q3 + p4 * q4 + p5 * q5 == Columns(r, r).x6
  {
    Scale(p0, q0, r.x0, r.x6, 2, 1);
    Scale(p1, q1, r.x1, r.x5, 2, 2);
    Scale(p2, q2, r.x2, r.x4, 2, 1);
    Scale(p3, q3, r.x3, r.x3, 1, 2);
    Scale(p4, q4, r.x9, r.x7, 38, 2);
    Scale(p5, q5, r.x8, r.x8, 19, 1);
    Factors(r.x1, r.x5);
    Factors(r.x3, r.x3);
    Factors(r.x5, r.x1);
    Factors(r.x7, r.x9);
    Factors(r.x8, r.x8);
    Factors(r.x9, r.x7);
  }

  lemma Square7(r: Ten<int>, p0: int, q0: int, p1: int, q1: int, p2: int, q2: int, p3: int, q3: int, p4: int, q4: int)
    requires p0 == 2 * r.x0 && q0 == r.x7 && p1 == 2 * r.x1 && q1 == r.x6
    requires p2 == 2 * r.x2 && q2 == r.x5 && p3 == 2 * r.x3 && q3 == r.x4
    requires p4 == 38 * r.x9 && q4 == r.x8
    ensures p0 * q0 + p1 * q1 + p2 * q2 + p3 * q3 + p4 * q4 == Columns(r, r).x7
  {
    Scale(p0, q0, r.x0, r.x7, 2, 1);
    Scale(p1, q1, r.x1, r.x6, 2, 1);
    Scale(p2, q2, r.x2, r.x5, 2, 1);
    Scale(p3, q3, r.x3, r.x4, 2, 1);
    Scale(p4, q4, r.x9, r.x8, 38, 1);
    Factors(r.x8, r.x9);
    Factors(r.x9, r.x8);
  }

  lemma Square8(r: Ten<int>, p0: int, q0: int, p1: int, q1: int, p2: int, q2: int, p3: int, q3: int, p4: int,
                q4: int, p5: int, q5: int)
    requires p0 == 2 * r.x0 && q0 == r.x8 && p1 == 2 * r.x1 && q1 == 2 * r.x7
    requires p2 == 2 * r.x2 && q2 == r.x6 && p3 == 2 * r.x3 && q3 == 2 * r.x5
    requires p4 == r.x4 && q4 == r.x4 && p5 == 38 * r.x9 && q5 == r.x9
    ensures p0 * q0 + p1 * q1 + p2 * q2 + p3 * q3 + p4 * q4 + p5 * q5 == Columns(r, r).x8
  {
    Scale(p0, q0, r.x0, r.x8, 2, 1);
    Scale(p1, q1, r.x1, r.x7, 2, 2);
    Scale(p2, q2, r.x2, r.x6, 2, 1);
    Scale(p3, q3, r.x3, r.x5, 2, 2);
    Scale(p5, q5, r.x9, r.x9, 38, 1);
    Factors(r.x1, r.x7);
    Factors(r.x3, r.x5);
    Factors(r.x5, r.x3);
    Factors(r.x7, r.x1);
    Factors(r.x9, r.x9);
  }

  lemma Square9(r: Ten<int>, p0: int, q0: int, p1: int, q1: int, p2: int, q2: int, p3: int, q3: int, p4: int, q4: int)
    requires p0 == 2 * r.x0 && q0 == r.x9 && p1 == 2 * r.x1 && q1 == r.x8
    requires p2 == 2 * r.x2 && q2 == r.x7 && p3 == 2 * r.x3 && q3 == r.x6
    requires p4 == r.x4 && q4 == 2 * r.x5
    ensures p0 * q0 + p1 * q1 + p2 * q2 + p3 * q3 + p4 * q4 == Columns(r, r).x9
  {
    Scale(p0, q0, r.x0, r.x9, 2, 1);
    Scale(p1, q1, r.x1, r.x8, 2, 1);
    Scale(p2, q2, r.x2, r.x7, 2, 1);
    Scale(p3, q3, r.x3, r.x6, 2, 1);
    Scale(p4, q4, r.x4, r.x5, 1, 2);
  }

  /** The ten columns of the square. */
  method Squares(r: Ten<u32>) returns (m: Ten<u64>)
    requires Loose(r)
    ensures m == Columns(r, r) && Bounded(m)
  {
    var r0, r1, r2, r3, r4, r5, r6, r7, r8, r9 := r.x0, r.x1, r.x2, r.x3, r.x4, r.x5, r.x6, r.x7, r.x8, r.x9;
    var m0: u64 := Mul32(r0, r0);
    r0 := r0 * 2;
    ghost var t0 := r0;
    var m1: u64 := Mul32(r0, r1);
    var m2: u64 := Mul32(r0, r2) + Mul32(r1, r1 * 2);
    r1 := r1 * 2;
    ghost var t1 := r1;
    var m3: u64 := Mul32(r0, r3) + Mul32(r1, r2);
    var m4: u64 := Mul32(r0, r4) + Mul32(r1, r3 * 2) + Mul32(r2, r2);
    r2 := r2 * 2;
    ghost var t2 := r2;
    var m5: u64 := Mul32(r0, r5) + Mul32(r1, r4) + Mul32(r2, r3);
    var m6: u64 := Mul32(r0, r6) + Mul32(r1, r5 * 2) + Mul32(r2, r4) + Mul32(r3, r3 * 2);
    r3 := r3 * 2;
    ghost var t3 := r3;
    var m7: u64 := Mul32(r0, r7) + Mul32(r1, r6) + Mul32(r2, r5) + Mul32(r3, r4);
    var m8: u64 := Mul32(r0, r8) + Mul32(r1, r7 * 2) + Mul32(r2, r6) + Mul32(r3, r5 * 2) + Mul32(r4, r4);
    var m9: u64 := Mul32(r0, r9) + Mul32(r1, r8) + Mul32(r2, r7) + Mul32(r3, r6) + Mul32(r4, r5 * 2);
    Square9(r, t0, r.x9, t1, r.x8, t2, r.x7, t3, r.x6, r.x4, r.x5 * 2);
    var d6: u32 := r6 * 19;
    var d7: u32 := r7 * 2 * 19;
    var d8: u32 := r8 * 19;
    var d9: u32 := r9 * 2 * 19;
    m0 := m0 + (Mul32(d9, r1) + Mul32(d8, r2) + Mul32(d7, r3) + Mul32(d6, r4 * 2) + Mul32(r5, r5 * 2 * 19));
    Square0(r, r.x0, r.x0, d9, t1, d8, t2, d7, t3, d6, r.x4 * 2, r.x5, r.x5 * 2 * 19);
    m1 := m1 + (Mul32(d9, r2 / 2) + Mul32(d8, r3) + Mul32(d7, r4) + Mul32(d6, r5 * 2));
    Square1(r, t0, r.x1, d9, t2 / 2, d8, t3, d7, r.x4, d6, r.x5 * 2);
    m2 := m2 + (Mul32(d9, r3) + Mul32(d8, r4 * 2) + Mul32(d7, r5 * 2) + Mul32(d6, r6));
    Square2(r, t0, r.x2, r.x1, r.x1 * 2, d9, t3, d8, r.x4 * 2, d7, r.x5 * 2, d6, r.x6);
    m3 := m3 + (Mul32(d9, r4) + Mul32(d8, r5 * 2) + Mul32(d7, r6));
    Square3(r, t0, r.x3, t1, r.x2, d9, r.x4, d8, r.x5 * 2, d7, r.x6);
    m4 := m4 + (Mul32(d9, r5 * 2) + Mul32(d8, r6 * 2) + Mul32(d7, r7));
    Square4(r, t0, r.x4, t1, r.x3 * 2, r.x2, r.x2, d9, r.x5 * 2, d8, r.x6 * 2, d7, r.x7);
    m5 := m5 + (Mul32(d9, r6) + Mul32(d8, r7 * 2));
    Square5(r, t0, r.x5, t1, r.x4, t2, r.x3, d9, r.x6, d8, r.x7 * 2);
    m6 := m6 + (Mul32(d9, r7 * 2) + Mul32(d8, r8));
    Square6(r, t0, r.x6, t1, r.x5 * 2, t2, r.x4, r.x3, r.x3 * 2, d9, r.x7 * 2, d8, r.x8);
    m7 := m7 + (Mul32(d9, r8));
    Square7(r, t0, r.x7, t1, r.x6, t2, r.x5, t3, r.x4, d9, r.x8);
    m8 := m8 + (Mul32(d9, r9));
    Square8(r, t0, r.x8, t1, r.x7 * 2, t2, r.x6, t3, r.x5 * 2, r.x4, r.x4, d9, r.x9);
    m := Ten(m0, m1, m2, m3, m4, m5, m6, m7, m8, m9);
  }

  /** One square, on the numbers. */
  method SquareOnce(r: Ten<u32>) returns (h: Ten<u32>)
    requires Operand(r)
    ensures Tight(h) && Cong(Value(h), Value(r) * Value(r), P25519)
  {
    TopFits(r, r);
    ColumnsValue(r, r);
    var m := Squares(r);
    h := Reduce(m);
  }

  /** curve25519_square; out may be the argument. */
  method Square(out: array<u32>, a: array<u32>)
    requires out.Length == 10 && a.Length == 10 && Operand(Of(a))
    modifies out
    ensures Tight(Of(out)) && Cong(Value(Of(out)), old(Value(Of(a))) * old(Value(Of(a))), P25519)
  {
    var h := SquareOnce(Of(a));
    Store(out, h);
  }

  /** A square of a power. */
  lemma SquarePower(v: int, w: int, h: int, n: nat)
    requires Cong(v, Power(w, n), P25519) && Cong(h, v * v, P25519)
    ensures Cong(h, Power(w, 2 * n), P25519)
  {
    CongMul(v, Power(w, n), v, Power(w, n), P25519);
    PowerAdd(w, n, n);
  }

  lemma FirstPower(w: int, n: nat)
    requires n == 0
    ensures Power(w, Pow2(n)) == w
  {
    assert Pow2(n) == 1;
    assert Power(w, 1) == w * Power(w, 0);
  }

  /** curve25519_square_times: the argument to the power of 2^count; out may be the argument. */
  method SquareTimes(out: array<u32>, a: array<u32>, count: nat)
    requires out.Length == 10 && a.Length == 10 && Operand(Of(a)) && count > 0
    modifies out
    ensures Tight(Of(out)) && Cong(Value(Of(out)), Power(old(Value(Of(a))), Pow2(count)), P25519)
  {
    var r := Of(a);
    ghost var w := Value(r);
    var left := count;
    FirstPower(w, 0);
    while true
      invariant 0 < left <= count && Operand(r) && Cong(Value(r), Power(w, Pow2(count - left)), P25519)
      decreases left
    {
      var h := SquareOnce(r);
      SquarePower(Value(r), w, Value(h), Pow2(count - left));
      r := h;
      left := left - 1;
      if left == 0 {
        break;
      }
    }
    Store(out, r);
  }
}
