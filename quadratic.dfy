/**
 * The quadratic formula as getExtremValues writes it: the roots of
 * a t^2 + b t + c are -Q0 + sqrt(Q1) and -Q0 - sqrt(Q1), with Q0 = b / 2a
 * and Q1 = b^2 / 4a^2 - c / a. Kept apart from the spline so that the
 * nonlinear real arithmetic is proved in a small context.
 */
module Quadratic {

  /** What the source needs of Math.sqrt: a non-negative square root. */
  ghost predicate IsSqrt(sqrt: real -> real)
  {
    forall q :: 0.0 <= q ==> 0.0 <= sqrt(q) && sqrt(q) * sqrt(q) == q
  }

  /** The roots -Q0 + sqrt(Q1) and -Q0 - sqrt(Q1) of a t^2 + b t + c, with
      Q0 = b / 2a and Q1 = b^2 / 4a^2 - c / a, when Q1 >= 0. */
  function QuadraticRoots(a: real, b: real, c: real, sqrt: real -> real): (r: seq<real>)
    requires a != 0.0
    ensures |r| == 0 || |r| == 2
    // the two roots sum to -b / a, whatever sqrt returns
    ensures |r| == 2 ==> r[0] + r[1] == -b / a
  {
    var q0 := b / (2.0 * a);
    var q1 := b * b / (4.0 * a * a) - c / a;
    HalfSquare(a, b);
    DivideBack(b, a, 2.0 * q0);
    if q1 >= 0.0 then [-q0 + sqrt(q1), -q0 - sqrt(q1)] else []
  }

  lemma DivideBack(x: real, d: real, y: real)
    requires d != 0.0 && y * d == x
    ensures x / d == y
  {
  }

  lemma DivideByProduct(x: real, p: real, q: real)
    requires p != 0.0 && q != 0.0
    ensures x / (p * q) == (x / p) / q
  {
    assert p * q != 0.0;
    assert (p * q) * ((x / p) / q) == x;
  }

  /** Dividing by m^2 undoes multiplying by it, taken as two divisions by m
      so that the solver never has to cancel a square. */
  lemma DivideBySquare(x: real, m: real, y: real)
    requires m != 0.0 && y * (m * m) == x
    ensures x / (m * m) == y
  {
    DivideByProduct(x, m, m);
    DivideBack(x, m, y * m);
    DivideBack(y * m, m, y);
  }

  lemma QuotientOfSquares(b: real, m: real, k: real)
    requires m != 0.0 && k * m == b
    ensures b * b / (m * m) == k * k
  {
    assert (k * k) * (m * m) == b * b;
    DivideBySquare(b * b, m, k * k);
  }

  /** b^2 / 4a^2 is the square of b / 2a. */
  lemma HalfSquare(a: real, b: real)
    requires a != 0.0
    ensures 2.0 * a * (b / (2.0 * a)) == b
    ensures b * b / (4.0 * a * a) == (b / (2.0 * a)) * (b / (2.0 * a))
  {
    var m := 2.0 * a;
    assert m * (b / m) == b;
    assert 4.0 * a * a == m * m;
    QuotientOfSquares(b, m, b / m);
  }

  /** -b/2a + r is a root of a t^2 + b t + c when r^2 = b^2/4a^2 - c/a. */
  lemma ShiftedRoot(a: real, b: real, c: real, r: real)
    requires a != 0.0 && r * r == b * b / (4.0 * a * a) - c / a
    ensures var t := -(b / (2.0 * a)) + r; a * t * t + b * t + c == 0.0
  {
    var k := b / (2.0 * a);
    HalfSquare(a, b);
    assert a * (c / a) == c;
    var t := -k + r;
    calc {
      a * t * t + b * t + c;
      a * (r * r) - 2.0 * a * k * r + a * (k * k) + b * r - b * k + c;
      a * (r * r) - a * (k * k) + c;
      a * (k * k - c / a) - a * (k * k) + c;
      0.0;
    }
  }

  /** Every candidate the quadratic formula gives is a root of the
      derivative. */
  lemma QuadraticRootsAreRoots(a: real, b: real, c: real, sqrt: real -> real)
    requires a != 0.0 && IsSqrt(sqrt)
    ensures forall t :: t in QuadraticRoots(a, b, c, sqrt) ==> a * t * t + b * t + c == 0.0
  {
    var q1 := b * b / (4.0 * a * a) - c / a;
    if q1 >= 0.0 {
      var r := sqrt(q1);
      var k := b / (2.0 * a);
      ShiftedRoot(a, b, c, r);
      assert (-r) * (-r) == r * r;
      ShiftedRoot(a, b, c, -r);
      assert -k + (-r) == -k - r;
    }
  }

  /** Every root of the derivative is one of the quadratic formula's
      candidates. */
  lemma RootsAreQuadraticRoots(a: real, b: real, c: real, sqrt: real -> real, t: real)
    requires a != 0.0 && IsSqrt(sqrt) && a * t * t + b * t + c == 0.0
    ensures t in QuadraticRoots(a, b, c, sqrt)
  {
    var k := b / (2.0 * a);
    var q1 := b * b / (4.0 * a * a) - c / a;
    HalfSquare(a, b);
    assert a * (c / a) == c;
    var w := t + k;
    assert a * (w * w) == a * t * t + b * t + a * (k * k);
    assert a * (w * w) == a * q1;
    assert w * w == q1;
    assert q1 >= 0.0;
    var r := sqrt(q1);
    assert (w - r) * (w + r) == 0.0;
    ZeroProduct(w - r, w + r);
  }

  lemma ZeroProduct(p: real, q: real)
    requires p * q == 0.0
    ensures p == 0.0 || q == 0.0
  {
  }

  /** -c/b is the root of b t + c. */
  lemma LinearRoot(b: real, c: real)
    requires b != 0.0
    ensures b * (-c / b) + c == 0.0
  {
  }
}
