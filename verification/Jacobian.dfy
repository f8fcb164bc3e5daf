/**
 Why the projective formulas are right.  A triple (x, y, z) with z != 0 stands for the
 affine point (x / z^2, y / z^3); the formulas compute the sum of two points over the
 common denominator w of the slope.
 */
module Jacobian {
  import opened Arith
  import opened Modular
  import opened Words
  import opened Primes

  ghost predicate Ratios(x: int, y: int, z: int, ax: int, ay: int, p: int)
    requires p > 0
  {
    Cong(x, ax * (z * z), p) && Cong(y, ay * (z * z * z), p)
  }

  ghost function OverIn(depth: nat, x: int, y: int, z: int, ax: int, ay: int, p: int): Verdict
    requires p > 0
  {
    if depth > 0 then OverIn(depth - 1, x, y, z, ax, ay, p)
    else if Ratios(x, y, z, ax, ay, p) then Holds else Fails
  }

  /** Whether (x, y) over z^2 and z^3 is the affine (ax, ay); folded (see Arith), OverMeans unfolds it. */
  ghost function Over(x: int, y: int, z: int, ax: int, ay: int, p: int): Verdict
    requires p > 0
  {
    OverIn(FOLDS, x, y, z, ax, ay, p)
  }

  lemma {:induction false} OverInMeans(depth: nat, x: int, y: int, z: int, ax: int, ay: int, p: int)
    requires p > 0
    ensures OverIn(depth, x, y, z, ax, ay, p).Holds? <==> Ratios(x, y, z, ax, ay, p)
  {
    if depth > 0 { OverInMeans(depth - 1, x, y, z, ax, ay, p); }
  }

  lemma OverMeans(x: int, y: int, z: int, ax: int, ay: int, p: int)
    requires p > 0
    ensures Over(x, y, z, ax, ay, p).Holds? <==> Cong(x, ax * (z * z), p) && Cong(y, ay * (z * z * z), p)
  {
    OverInMeans(FOLDS, x, y, z, ax, ay, p);
  }

  lemma SquareParts(l: int, w: int, s: int)
    ensures (l * w) * (l * w) - s * (w * w) == (l * l - s) * (w * w)
  {}

  /** x3 = r^2 - h^2 (x1 + x2) over w^2, when r / w is the slope l. */
  lemma SumX(l: int, w: int, r: int, hsqx: int, s: int, x3: int, ax: int, p: int)
    requires p > 0 && Cong(r, l * w, p) && Cong(hsqx, s * (w * w), p)
    requires Cong(x3, r * r - hsqx, p) && Cong(ax, l * l - s, p)
    ensures Cong(x3, ax * (w * w), p)
  {
    CongMul(r, l * w, r, l * w, p);
    CongAdd(r * r, (l * w) * (l * w), hsqx, s * (w * w), p);
    SquareParts(l, w, s);
    CongMul(ax, l * l - s, w * w, w * w, p);
  }

  lemma CubeParts(l: int, w: int, s: int, ax: int, t: int)
    ensures (l * w) * (s * (w * w) - 2 * (ax * (w * w))) - t * (w * w * w)
         == (l * (s - 2 * ax) - t) * (w * w * w)
  {
    var ww := w * w;
    assert s * ww - 2 * (ax * ww) == (s - 2 * ax) * ww;
    var u := s - 2 * ax;
    assert (l * w) * (u * ww) == (l * u) * (w * ww) by {
      Assoc(l, w, u * ww);
      Assoc(w, u, ww);
      Assoc(u, w, ww);
      Assoc(l, u, w * ww);
    }
    Distrib(w * ww, l * u, t);
  }

  /** The two ways to write y3 add up to twice it. */
  lemma TwiceY(l: int, x1: int, x2: int, ax: int, y1: int, y2: int)
    ensures l * ((x1 + x2) - 2 * ax) - (y1 + y2)
         == 2 * (l * (x1 - ax) - y1) - (l * (x1 - x2) - (y1 - y2))
  {}

  lemma TwoUnit(a: int, b: int, p: int)
    requires p > 0 && p % 2 == 1 && Cong(2 * a, 2 * b, p)
    ensures Cong(a, b, p)
  {
    CongAdd(2 * a, 2 * b, 2 * b, 2 * b, p);
    assert Pow2(1) == 2;
    CancelPow2(a - b, 1, p);
    CongAdd(a - b, 0, b, b, p);
  }

  /** y3 = 1/2 (r (h^2 (x1 + x2) - 2 x3) - h^3 (y1 + y2)) over w^3. */
  lemma SumY(l: int, w: int, r: int, hsqx: int, hcby: int, x1: int, x2: int, y1: int, y2: int,
               x3: int, y3: int, ax: int, ay: int, p: int)
    requires p > 0 && p % 2 == 1 && Cong(r, l * w, p)
    requires Cong(hsqx, (x1 + x2) * (w * w), p) && Cong(hcby, (y1 + y2) * (w * w * w), p)
    requires Cong(x3, ax * (w * w), p)
    requires Cong(2 * y3, r * (hsqx - 2 * x3) - hcby, p)
    requires Cong(ay, l * (x1 - ax) - y1, p) && Cong(l * (x1 - x2), y1 - y2, p)
    ensures Cong(y3, ay * (w * w * w), p)
  {
    var s, t, ww, www := x1 + x2, y1 + y2, w * w, w * w * w;
    CongMul(2, 2, x3, ax * ww, p);
    CongAdd(hsqx, s * ww, 2 * x3, 2 * (ax * ww), p);
    CongMul(r, l * w, hsqx - 2 * x3, s * ww - 2 * (ax * ww), p);
    CongAdd(r * (hsqx - 2 * x3), (l * w) * (s * ww - 2 * (ax * ww)), hcby, t * www, p);
    CubeParts(l, w, s, ax, t);
    // so 2 y3 = (l (s - 2 ax) - t) w^3
    TwiceY(l, x1, x2, ax, y1, y2);
    CongAdd(l * (x1 - x2), y1 - y2, y1 - y2, y1 - y2, p);
    CongMul(2, 2, ay, l * (x1 - ax) - y1, p);
    CongAdd(2 * ay, 2 * (l * (x1 - ax) - y1), 0, l * (x1 - x2) - (y1 - y2), p);
    CongMul(2 * ay, l * (s - 2 * ax) - t, www, www, p);
    Assoc(2, ay, www);
    TwoUnit(y3, ay * www, p);
  }

  lemma DoubleParts(l: int, w: int, x: int, ax: int, y: int)
    ensures (l * w) * (x * (w * w) - ax * (w * w)) - y * (w * w * w) == (l * (x - ax) - y) * (w * w * w)
  {
    var ww, u := w * w, x - ax;
    assert x * ww - ax * ww == u * ww;
    Assoc(l, w, u * ww);
    Assoc(w, u, ww);
    Assoc(u, w, ww);
    Assoc(l, u, w * ww);
    Distrib(w * ww, l * u, y);
  }

  /** y3 = m (x y^2 - x3) - y^4 over w^3. */
  lemma DoubledY(l: int, w: int, m: int, xysq: int, y4: int, x: int, y: int, x3: int, y3: int, ax: int, ay: int, p: int)
    requires p > 0 && Cong(m, l * w, p) && Cong(xysq, x * (w * w), p) && Cong(y4, y * (w * w * w), p)
    requires Cong(x3, ax * (w * w), p) && Cong(y3, m * (xysq - x3) - y4, p)
    requires Cong(ay, l * (x - ax) - y, p)
    ensures Cong(y3, ay * (w * w * w), p)
  {
    var ww, www := w * w, w * w * w;
    CongAdd(xysq, x * ww, x3, ax * ww, p);
    CongMul(m, l * w, xysq - x3, x * ww - ax * ww, p);
    CongAdd(m * (xysq - x3), (l * w) * (x * ww - ax * ww), y4, y * www, p);
    DoubleParts(l, w, x, ax, y);
    CongMul(ay, l * (x - ax) - y, www, www, p);
  }
}
