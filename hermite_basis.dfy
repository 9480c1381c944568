/**
 * The cubic Hermite basis that every spline segment is built from, and the
 * algebra behind it: its power form, its derivative, and the fact that a
 * Hermite cubic restricted to a sub-interval is again the Hermite cubic of
 * that sub-interval's end values and (rescaled) end slopes.
 */
module HermiteBasis {

  /** The cubic Hermite interpolant through x0 (at t = 0) and x1 (at t = 1)
      with end derivatives t0 and t1, written in the Hermite basis. */
  function Hermite(x0: real, x1: real, t0: real, t1: real, t: real): (r: real)
    ensures t == 0.0 ==> r == x0
    ensures t == 1.0 ==> r == x1
  {
    (2.0 * t * t * t - 3.0 * t * t + 1.0) * x0 +
    (t * t * t - 2.0 * t * t + t) * t0 +
    (- 2.0 * t * t * t + 3.0 * t * t) * x1 +
    (t * t * t - t * t) * t1
  }

  /** The derivative of Hermite with respect to t. */
  function HermiteD(x0: real, x1: real, t0: real, t1: real, t: real): (r: real)
    ensures t == 0.0 ==> r == t0
    ensures t == 1.0 ==> r == t1
  {
    (6.0 * t * t - 6.0 * t) * x0 +
    (3.0 * t * t - 4.0 * t + 1.0) * t0 +
    (- 6.0 * t * t + 6.0 * t) * x1 +
    (3.0 * t * t - 2.0 * t) * t1
  }

  /** A cubic a t^3 + b t^2 + c t + d in power form, and its derivative. */
  function Cubic(a: real, b: real, c: real, d: real, t: real): real
  {
    ((a * t + b) * t + c) * t + d
  }

  function CubicD(a: real, b: real, c: real, t: real): real
  {
    (3.0 * a * t + 2.0 * b) * t + c
  }

  /** Power-form coefficients of the Hermite cubic. */
  function LeadCoeff(x0: real, x1: real, t0: real, t1: real): real
  {
    2.0 * x0 - 2.0 * x1 + t0 + t1
  }

  function SquareCoeff(x0: real, x1: real, t0: real, t1: real): real
  {
    -3.0 * x0 + 3.0 * x1 - 2.0 * t0 - t1
  }

  /** Hermite and HermiteD are the cubic with coefficients
      (LeadCoeff, SquareCoeff, t0, x0) and its derivative. */
  lemma HermitePowerForm(x0: real, x1: real, t0: real, t1: real, t: real)
    ensures Hermite(x0, x1, t0, t1, t)
         == Cubic(LeadCoeff(x0, x1, t0, t1), SquareCoeff(x0, x1, t0, t1), t0, x0, t)
    ensures HermiteD(x0, x1, t0, t1, t)
         == CubicD(LeadCoeff(x0, x1, t0, t1), SquareCoeff(x0, x1, t0, t1), t0, t)
  {
    HermiteValuePowerForm(x0, x1, t0, t1, t);
    HermiteSlopePowerForm(x0, x1, t0, t1, t);
  }

  lemma HermiteValuePowerForm(x0: real, x1: real, t0: real, t1: real, t: real)
    ensures Hermite(x0, x1, t0, t1, t)
         == Cubic(LeadCoeff(x0, x1, t0, t1), SquareCoeff(x0, x1, t0, t1), t0, x0, t)
  {
    var t2 := t * t;
    var t3 := t2 * t;
    calc {
      Hermite(x0, x1, t0, t1, t);
      (2.0 * t3 - 3.0 * t2 + 1.0) * x0 + (t3 - 2.0 * t2 + t) * t0 + (- 2.0 * t3 + 3.0 * t2) * x1 + (t3 - t2) * t1;
      (2.0 * x0 - 2.0 * x1 + t0 + t1) * t3 + (-3.0 * x0 + 3.0 * x1 - 2.0 * t0 - t1) * t2 + t0 * t + x0;
    }
  }

  lemma HermiteSlopePowerForm(x0: real, x1: real, t0: real, t1: real, t: real)
    ensures HermiteD(x0, x1, t0, t1, t)
         == CubicD(LeadCoeff(x0, x1, t0, t1), SquareCoeff(x0, x1, t0, t1), t0, t)
  {
    var t2 := t * t;
    calc {
      HermiteD(x0, x1, t0, t1, t);
      (6.0 * t2 - 6.0 * t) * x0 + (3.0 * t2 - 4.0 * t + 1.0) * t0 + (- 6.0 * t2 + 6.0 * t) * x1 + (3.0 * t2 - 2.0 * t) * t1;
      3.0 * (2.0 * x0 - 2.0 * x1 + t0 + t1) * t2 + 2.0 * (-3.0 * x0 + 3.0 * x1 - 2.0 * t0 - t1) * t + t0;
    }
  }

  /** CubicD is the derivative of Cubic: the change over a step h is h times
      the derivative plus a term of order h^2. */
  function CubicRemainder(a: real, b: real, t: real, h: real): real
  {
    3.0 * a * t + a * h + b
  }

  lemma CubicStep(a: real, b: real, c: real, d: real, t: real, h: real)
    ensures Cubic(a, b, c, d, t + h) - Cubic(a, b, c, d, t)
         == h * CubicD(a, b, c, t) + h * h * CubicRemainder(a, b, t, h)
  {
    var s := t + h;
    assert s * s == t * t + 2.0 * t * h + h * h;
    assert s * s * s == t * t * t + 3.0 * t * t * h + 3.0 * t * h * h + h * h * h;
  }

  /** HermiteD is the derivative of Hermite. */
  lemma HermiteStep(x0: real, x1: real, t0: real, t1: real, t: real, h: real)
    ensures Hermite(x0, x1, t0, t1, t + h) - Hermite(x0, x1, t0, t1, t)
         == h * HermiteD(x0, x1, t0, t1, t)
          + h * h * CubicRemainder(LeadCoeff(x0, x1, t0, t1), SquareCoeff(x0, x1, t0, t1), t, h)
  {
    var a, b := LeadCoeff(x0, x1, t0, t1), SquareCoeff(x0, x1, t0, t1);
    calc {
      Hermite(x0, x1, t0, t1, t + h) - Hermite(x0, x1, t0, t1, t);
      { HermitePowerForm(x0, x1, t0, t1, t + h); HermitePowerForm(x0, x1, t0, t1, t); }
      Cubic(a, b, t0, x0, t + h) - Cubic(a, b, t0, x0, t);
      { CubicStep(a, b, t0, x0, t, h); }
      h * CubicD(a, b, t0, t) + h * h * CubicRemainder(a, b, t, h);
      { HermitePowerForm(x0, x1, t0, t1, t); }
      h * HermiteD(x0, x1, t0, t1, t) + h * h * CubicRemainder(a, b, t, h);
    }
  }

  /** Every cubic is the Hermite interpolant of its own end values and end
      derivatives. */
  lemma HermiteOfCubic(a: real, b: real, c: real, d: real, u: real)
    ensures Hermite(Cubic(a, b, c, d, 0.0), Cubic(a, b, c, d, 1.0), CubicD(a, b, c, 0.0), CubicD(a, b, c, 1.0), u)
         == Cubic(a, b, c, d, u)
  {
    var x0, x1 := Cubic(a, b, c, d, 0.0), Cubic(a, b, c, d, 1.0);
    var t0, t1 := CubicD(a, b, c, 0.0), CubicD(a, b, c, 1.0);
    assert x0 == d && x1 == a + b + c + d && t0 == c && t1 == 3.0 * a + 2.0 * b + c;
    HermitePowerForm(x0, x1, t0, t1, u);
    assert LeadCoeff(x0, x1, t0, t1) == a;
    assert SquareCoeff(x0, x1, t0, t1) == b;
  }

  /** Shifting the variable of a cubic: the coefficients become its Taylor
      coefficients at alpha. */
  lemma CubicShift(a: real, b: real, c: real, d: real, alpha: real, w: real)
    ensures Cubic(a, b, c, d, alpha + w)
         == Cubic(a, 3.0 * a * alpha + b, CubicD(a, b, c, alpha), Cubic(a, b, c, d, alpha), w)
    ensures CubicD(a, b, c, alpha + w)
         == CubicD(a, 3.0 * a * alpha + b, CubicD(a, b, c, alpha), w)
  {
    var s := alpha + w;
    assert s * s == alpha * alpha + 2.0 * alpha * w + w * w;
    assert s * s * s == alpha * alpha * alpha + 3.0 * alpha * alpha * w + 3.0 * alpha * w * w + w * w * w;
  }

  /** Scaling the variable of a cubic by beta scales the k-th coefficient by
      beta^k. */
  lemma CubicScale(a: real, b: real, c: real, d: real, beta: real, u: real)
    ensures Cubic(a, b, c, d, beta * u)
         == Cubic(a * beta * beta * beta, b * beta * beta, c * beta, d, u)
    ensures beta * CubicD(a, b, c, beta * u)
         == CubicD(a * beta * beta * beta, b * beta * beta, c * beta, u)
  {
    var w := beta * u;
    assert w * w == beta * beta * (u * u);
    assert w * w * w == beta * beta * beta * (u * u * u);
  }

  /** Substituting t = alpha + beta * u into a cubic gives another cubic in u,
      whose derivative in u is beta times the old derivative. */
  lemma CubicReparam(a: real, b: real, c: real, d: real, alpha: real, beta: real, u: real)
    ensures Cubic(a, b, c, d, alpha + beta * u)
         == Cubic(a * beta * beta * beta, (3.0 * a * alpha + b) * beta * beta,
                  CubicD(a, b, c, alpha) * beta, Cubic(a, b, c, d, alpha), u)
    ensures beta * CubicD(a, b, c, alpha + beta * u)
         == CubicD(a * beta * beta * beta, (3.0 * a * alpha + b) * beta * beta,
                   CubicD(a, b, c, alpha) * beta, u)
  {
    CubicReparamValue(a, b, c, d, alpha, beta, u);
    CubicReparamSlope(a, b, c, alpha, beta, u);
  }

  lemma CubicReparamValue(a: real, b: real, c: real, d: real, alpha: real, beta: real, u: real)
    ensures Cubic(a, b, c, d, alpha + beta * u)
         == Cubic(a * beta * beta * beta, (3.0 * a * alpha + b) * beta * beta,
                  CubicD(a, b, c, alpha) * beta, Cubic(a, b, c, d, alpha), u)
  {
    var b1, c1, d1 := 3.0 * a * alpha + b, CubicD(a, b, c, alpha), Cubic(a, b, c, d, alpha);
    var w := beta * u;
    CubicShift(a, b, c, d, alpha, w);
    var shifted := Cubic(a, b1, c1, d1, w);
    assert Cubic(a, b, c, d, alpha + w) == shifted;
    CubicScale(a, b1, c1, d1, beta, u);
    assert shifted == Cubic(a * beta * beta * beta, b1 * beta * beta, c1 * beta, d1, u);
  }

  lemma CubicReparamSlope(a: real, b: real, c: real, alpha: real, beta: real, u: real)
    ensures beta * CubicD(a, b, c, alpha + beta * u)
         == CubicD(a * beta * beta * beta, (3.0 * a * alpha + b) * beta * beta,
                   CubicD(a, b, c, alpha) * beta, u)
  {
    var w := beta * u;
    var s := alpha + w;
    assert s * s == alpha * alpha + 2.0 * alpha * w + w * w;
    assert beta * CubicD(a, b, c, s)
        == beta * CubicD(a, b, c, alpha) + (6.0 * a * alpha + 2.0 * b) * beta * w + 3.0 * a * beta * w * w;
    assert beta * w == beta * beta * u && beta * w * w == beta * beta * beta * (u * u);
  }

  /** A cubic restricted to [alpha, alpha + beta] and re-parametrised over
      [0, 1] is the Hermite interpolant of its values at the two ends and
      its derivatives there scaled by beta. */
  lemma CubicSubSegment(a: real, b: real, c: real, d: real, alpha: real, beta: real, u: real,
                        e0: real, e1: real, d0: real, d1: real)
    requires e0 == Cubic(a, b, c, d, alpha) && e1 == Cubic(a, b, c, d, alpha + beta)
    requires d0 == CubicD(a, b, c, alpha) && d1 == CubicD(a, b, c, alpha + beta)
    ensures Hermite(e0, e1, beta * d0, beta * d1, u) == Cubic(a, b, c, d, alpha + beta * u)
  {
    var a', b' := a * beta * beta * beta, (3.0 * a * alpha + b) * beta * beta;
    var c', d' := CubicD(a, b, c, alpha) * beta, Cubic(a, b, c, d, alpha);
    ReparamEnds(a, b, c, d, alpha, beta, e0, e1, d0, d1, a', b', c', d');
    CubicReparam(a, b, c, d, alpha, beta, u);
    HermiteOfEnds(e0, e1, beta * d0, beta * d1, a', b', c', d', u);
  }

  /** The end values and scaled end derivatives of the sub-interval are
      those of the re-parametrised cubic at 0 and 1. */
  lemma ReparamEnds(a: real, b: real, c: real, d: real, alpha: real, beta: real,
                    e0: real, e1: real, d0: real, d1: real, a': real, b': real, c': real, d': real)
    requires e0 == Cubic(a, b, c, d, alpha) && e1 == Cubic(a, b, c, d, alpha + beta)
    requires d0 == CubicD(a, b, c, alpha) && d1 == CubicD(a, b, c, alpha + beta)
    requires a' == a * beta * beta * beta && b' == (3.0 * a * alpha + b) * beta * beta
    requires c' == d0 * beta && d' == e0
    ensures e0 == Cubic(a', b', c', d', 0.0) && e1 == Cubic(a', b', c', d', 1.0)
    ensures beta * d0 == CubicD(a', b', c', 0.0) && beta * d1 == CubicD(a', b', c', 1.0)
  {
    var s := alpha + beta;
    assert s * s == alpha * alpha + 2.0 * alpha * beta + beta * beta;
    assert s * s * s == alpha * alpha * alpha + 3.0 * alpha * alpha * beta + 3.0 * alpha * beta * beta + beta * beta * beta;
    assert d1 == d0 + (6.0 * a * alpha + 2.0 * b) * beta + 3.0 * a * beta * beta;
    assert e1 == e0 + d0 * beta + (3.0 * a * alpha + b) * beta * beta + a * beta * beta * beta;
  }

  /** The Hermite cubic of a segment, restricted to the sub-interval
      [alpha, alpha + beta] and re-parametrised over [0, 1], is the Hermite
      cubic of the sub-interval's end values with its end derivatives scaled
      by beta. This is what lets a segment be split without changing shape. */
  lemma HermiteSubSegment(x0: real, x1: real, t0: real, t1: real, alpha: real, beta: real, u: real,
                          e0: real, e1: real, d0: real, d1: real)
    requires e0 == Hermite(x0, x1, t0, t1, alpha) && e1 == Hermite(x0, x1, t0, t1, alpha + beta)
    requires d0 == HermiteD(x0, x1, t0, t1, alpha) && d1 == HermiteD(x0, x1, t0, t1, alpha + beta)
    ensures Hermite(e0, e1, beta * d0, beta * d1, u) == Hermite(x0, x1, t0, t1, alpha + beta * u)
  {
    var a, b := LeadCoeff(x0, x1, t0, t1), SquareCoeff(x0, x1, t0, t1);
    HermitePowerForm(x0, x1, t0, t1, alpha);
    HermitePowerForm(x0, x1, t0, t1, alpha + beta);
    HermitePowerFormAt(x0, x1, t0, t1, alpha, beta, u);
    CubicSubSegment(a, b, t0, x0, alpha, beta, u, e0, e1, d0, d1);
  }

  lemma HermitePowerFormAt(x0: real, x1: real, t0: real, t1: real, alpha: real, beta: real, u: real)
    ensures Hermite(x0, x1, t0, t1, alpha + beta * u)
         == Cubic(LeadCoeff(x0, x1, t0, t1), SquareCoeff(x0, x1, t0, t1), t0, x0, alpha + beta * u)
  {
    HermitePowerForm(x0, x1, t0, t1, alpha + beta * u);
  }

  lemma HermiteOfEnds(e0: real, e1: real, s0: real, s1: real, a: real, b: real, c: real, d: real, u: real)
    requires e0 == Cubic(a, b, c, d, 0.0) && e1 == Cubic(a, b, c, d, 1.0)
    requires s0 == CubicD(a, b, c, 0.0) && s1 == CubicD(a, b, c, 1.0)
    ensures Hermite(e0, e1, s0, s1, u) == Cubic(a, b, c, d, u)
  {
    HermiteOfCubic(a, b, c, d, u);
  }
}
