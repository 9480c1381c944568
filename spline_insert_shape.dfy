/**
 * insertPoint splits a segment without changing the curve. The inserted
 * point lies on the curve and carries the curve's slope there; because
 * every tangent is rescaled by the width of the segment it is used in, the
 * two halves are exactly the two parts of the old cubic. This module proves
 * it segment by segment and then for the sampled curve y(x) as a whole.
 */
module SplineInsertShape {
  import opened HermiteBasis
  import opened Quadratic
  import opened Spline
  import opened SplineEdit
  import opened Wrappers

  /** y of the segment from p0 to p1 at local t, with both tangents scaled
      by the segment's width. This is Spline.Value's y (ValueOfPoints),
      written over the two end points rather than an index so that the
      halves of a split segment, whose points sit at other indices, can be
      compared with the old segment directly. SegmentDY and SegmentSlope
      are the same by-points forms of SegmentDerivative and Slope. */
  function SegmentY(p0: SplinePoint, p1: SplinePoint, t: real): real
    requires p0.tx != 0.0 && p1.tx != 0.0
  {
    var dx := p1.x - p0.x;
    Hermite(p0.y, p1.y, ScaledTangent(dx, p0), ScaledTangent(dx, p1), t)
  }

  /** dy/dt of the same segment. */
  function SegmentDY(p0: SplinePoint, p1: SplinePoint, t: real): real
    requires p0.tx != 0.0 && p1.tx != 0.0
  {
    var dx := p1.x - p0.x;
    HermiteD(p0.y, p1.y, ScaledTangent(dx, p0), ScaledTangent(dx, p1), t)
  }

  /** The slope ty / tx of a control point. */
  function PointSlope(p: SplinePoint): real
    requires p.tx != 0.0
  {
    p.ty / p.tx
  }

  /** dy/dx of the same segment: dy/dt over the segment's width. */
  function SegmentSlope(p0: SplinePoint, p1: SplinePoint, t: real): real
    requires p0.tx != 0.0 && p1.tx != 0.0 && p0.x != p1.x
  {
    SegmentDY(p0, p1, t) / (p1.x - p0.x)
  }

  /** A point with slope d / dx, used in a segment of width w = c * dx,
      gets the scaled tangent c * d. */
  lemma ScaleSlope(w: real, c: real, dx: real, d: real, q: SplinePoint)
    requires q.tx != 0.0 && dx != 0.0 && PointSlope(q) == d / dx && w == c * dx
    ensures ScaledTangent(w, q) == c * d
  {
    assert (c * dx) * (d / dx) == c * d;
  }

  /** Two points on a segment's curve at local parameters alpha and
      alpha + beta, carrying the curve's slope there, span a segment that
      is the old one on [alpha, alpha + beta]. */
  lemma SpanOnCurve(p0: SplinePoint, p1: SplinePoint, qa: SplinePoint, qb: SplinePoint,
                    alpha: real, beta: real, u: real)
    requires p0.tx != 0.0 && p1.tx != 0.0 && qa.tx != 0.0 && qb.tx != 0.0 && p0.x != p1.x
    requires qb.x - qa.x == beta * (p1.x - p0.x)
    requires qa.y == SegmentY(p0, p1, alpha) && qb.y == SegmentY(p0, p1, alpha + beta)
    requires PointSlope(qa) == SegmentSlope(p0, p1, alpha)
    requires PointSlope(qb) == SegmentSlope(p0, p1, alpha + beta)
    ensures SegmentY(qa, qb, u) == SegmentY(p0, p1, alpha + beta * u)
  {
    var dx := p1.x - p0.x;
    var d0, d1 := SegmentDY(p0, p1, alpha), SegmentDY(p0, p1, alpha + beta);
    ScaleSlope(qb.x - qa.x, beta, dx, d0, qa);
    ScaleSlope(qb.x - qa.x, beta, dx, d1, qb);
    HermiteSubSegment(p0.y, p1.y, ScaledTangent(dx, p0), ScaledTangent(dx, p1), alpha, beta, u, qa.y, qb.y, d0, d1);
  }

  /** A segment's start point is on its curve at 0 with the curve's slope. */
  lemma StartOnCurve(p0: SplinePoint, p1: SplinePoint, start: real)
    requires p0.tx != 0.0 && p1.tx != 0.0 && p0.x != p1.x && start == 0.0
    ensures p0.y == SegmentY(p0, p1, start)
    ensures PointSlope(p0) == SegmentSlope(p0, p1, start)
  {
    SlopeAtEnd(p1.x - p0.x, p0);
  }

  /** A segment's end point is on its curve at 1 with the curve's slope. */
  lemma FinishOnCurve(p0: SplinePoint, p1: SplinePoint, finish: real)
    requires p0.tx != 0.0 && p1.tx != 0.0 && p0.x != p1.x && finish == 1.0
    ensures p1.y == SegmentY(p0, p1, finish)
    ensures PointSlope(p1) == SegmentSlope(p0, p1, finish)
  {
    SlopeAtEnd(p1.x - p0.x, p1);
  }

  lemma LinearForm(x0: real, x1: real, t: real)
    ensures Lerp(x0, x1, t) - x0 == t * (x1 - x0)
    ensures x1 - Lerp(x0, x1, t) == (1.0 - t) * (x1 - x0)
  {
  }

  /** The left half [p0, q] of a segment split at tau is the old segment on
      [0, tau]. */
  lemma LeftHalf(p0: SplinePoint, p1: SplinePoint, q: SplinePoint, tau: real, u: real)
    requires p0.tx != 0.0 && p1.tx != 0.0 && q.tx != 0.0 && p0.x != p1.x
    requires q.x == Lerp(p0.x, p1.x, tau)
    requires q.y == SegmentY(p0, p1, tau)
    requires PointSlope(q) == SegmentSlope(p0, p1, tau)
    ensures SegmentY(p0, q, u) == SegmentY(p0, p1, tau * u)
  {
    var start := 0.0;
    StartOnCurve(p0, p1, start);
    LinearForm(p0.x, p1.x, tau);
    assert start + tau == tau && start + tau * u == tau * u;
    SpanOnCurve(p0, p1, p0, q, start, tau, u);
  }

  /** The right half [q, p1] of a segment split at tau is the old segment
      on [tau, 1]. */
  lemma RightHalf(p0: SplinePoint, p1: SplinePoint, q: SplinePoint, tau: real, u: real)
    requires p0.tx != 0.0 && p1.tx != 0.0 && q.tx != 0.0 && p0.x != p1.x
    requires q.x == Lerp(p0.x, p1.x, tau)
    requires q.y == SegmentY(p0, p1, tau)
    requires PointSlope(q) == SegmentSlope(p0, p1, tau)
    ensures SegmentY(q, p1, u) == SegmentY(p0, p1, tau + (1.0 - tau) * u)
  {
    var beta := 1.0 - tau;
    var finish := tau + beta;
    assert finish == 1.0;
    FinishOnCurve(p0, p1, finish);
    LinearForm(p0.x, p1.x, tau);
    SpanOnCurve(p0, p1, q, p1, tau, beta, u);
    assert SegmentY(q, p1, u) == SegmentY(p0, p1, tau + beta * u);
    var at := tau + beta * u;
    assert at == tau + (1.0 - tau) * u;
    assert SegmentY(p0, p1, at) == SegmentY(p0, p1, tau + (1.0 - tau) * u);
  }

  /** q lies on segment s of sp at local parameter tau and carries the
      curve's slope there. */
  ghost predicate OnSegment(sp: HermiteSpline, s: nat, q: SplinePoint, tau: real)
  {
    && Evaluable(sp, s)
    && sp.points[s].x != sp.points[s + 1].x
    && q.tx != 0.0
    && q.x == Lerp(sp.points[s].x, sp.points[s + 1].x, tau)
    && q.y == SegmentY(sp.points[s], sp.points[s + 1], tau)
    && PointSlope(q) == SegmentSlope(sp.points[s], sp.points[s + 1], tau)
  }

  /** The split point is on the segment's curve with the curve's slope. */
  lemma SplitPointFacts(sp: HermiteSpline, s: nat, t: real, sqrt: real -> real)
    requires Evaluable(sp, s) && sp.points[s].x != sp.points[s + 1].x && IsSqrt(sqrt)
    ensures OnSegment(sp, s, SplitPoint(sp, s, t, sqrt), t)
  {
    var p0, p1, q := sp.points[s], sp.points[s + 1], SplitPoint(sp, s, t, sqrt);
    assert (q.x, q.y) == Value(sp, s, t);
    assert q.ty / q.tx == Slope(sp, s, t);
    assert SegmentSlope(p0, p1, t) == Slope(sp, s, t);
  }

  /** q splits the first segment holding its x, at its own x. */
  ghost predicate SplitsFirst(sp: HermiteSpline, s: nat, q: SplinePoint)
  {
    && |sp.points| >= 2
    && TangentsDefined(sp)
    && SegmentOf(sp.points, q.x) == Some(s)
    && OnSegment(sp, s, q, LocalT(sp.points, s, q.x))
  }

  /** The spline with q inserted after point s. */
  function Split(sp: HermiteSpline, s: nat, q: SplinePoint): HermiteSpline
    requires s < |sp.points|
  {
    HermiteSpline(InsertAt(sp.points, s + 1, q))
  }

  /** What insertPoint returns is such a split. */
  lemma InsertIsSplit(sp: HermiteSpline, x: real, sqrt: real -> real)
    requires |sp.points| >= 2 && TangentsDefined(sp) && IsSqrt(sqrt) && InsertSpec(sp, x, sqrt).Some?
    ensures var s := SegmentOf(sp.points, x).value;
            var q := InsertSpec(sp, x, sqrt).value.points[s + 1];
            && q.x == x
            && InsertSpec(sp, x, sqrt).value == Split(sp, s, q)
            && SplitsFirst(sp, s, q)
  {
    var s := SegmentOf(sp.points, x).value;
    var tau := LocalT(sp.points, s, x);
    SplitPointAtX(sp, s, x, sqrt);
    SplitPointFacts(sp, s, tau, sqrt);
  }

  lemma SplitTangentsDefined(sp: HermiteSpline, s: nat, q: SplinePoint)
    requires SplitsFirst(sp, s, q)
    ensures TangentsDefined(Split(sp, s, q))
  {
    var nts := Split(sp, s, q).points;
    forall j | 0 <= j < |nts|
      ensures nts[j].tx != 0.0
    {
      if j > s + 1 {
        assert nts[j] == sp.points[j - 1];
      }
    }
  }

  lemma LeftX(x0: real, x1: real, xq: real, tau: real, u: real)
    requires xq == Lerp(x0, x1, tau)
    ensures Lerp(x0, xq, u) == Lerp(x0, x1, tau * u)
  {
    LinearForm(x0, x1, tau);
  }

  lemma RightX(x0: real, x1: real, xq: real, tau: real, u: real)
    requires xq == Lerp(x0, x1, tau)
    ensures Lerp(xq, x1, u) == Lerp(x0, x1, tau + (1.0 - tau) * u)
  {
    LinearForm(x0, x1, tau);
  }

  /** Segment s of the split spline runs from the old point s to q, and
      segment s + 1 from q to the old point s + 1. */
  lemma SplitPoints(sp: HermiteSpline, s: nat, q: SplinePoint, tau: real)
    requires OnSegment(sp, s, q, tau)
    ensures Evaluable(Split(sp, s, q), s) && Evaluable(Split(sp, s, q), s + 1)
    ensures Split(sp, s, q).points[s] == sp.points[s]
    ensures Split(sp, s, q).points[s + 1] == q
    ensures Split(sp, s, q).points[s + 2] == sp.points[s + 1]
  {
  }

  /** Value in terms of the segment's two end points. */
  lemma ValueOfPoints(sp: HermiteSpline, s: nat, t: real, p0: SplinePoint, p1: SplinePoint)
    requires Evaluable(sp, s) && p0 == sp.points[s] && p1 == sp.points[s + 1]
    ensures Value(sp, s, t) == (Lerp(p0.x, p1.x, t), SegmentY(p0, p1, t))
  {
  }

  /** Segment s of the split spline is old segment s on [0, tau]. */
  lemma SplitLeftPart(sp: HermiteSpline, s: nat, q: SplinePoint, tau: real, u: real)
    requires OnSegment(sp, s, q, tau)
    ensures Evaluable(Split(sp, s, q), s)
    ensures Value(Split(sp, s, q), s, u) == Value(sp, s, tau * u)
  {
    var p0, p1 := sp.points[s], sp.points[s + 1];
    SplitPoints(sp, s, q, tau);
    ValueOfPoints(Split(sp, s, q), s, u, p0, q);
    ValueOfPoints(sp, s, tau * u, p0, p1);
    LeftHalf(p0, p1, q, tau, u);
    LeftX(p0.x, p1.x, q.x, tau, u);
  }

  /** Segment s + 1 of the split spline is old segment s on [tau, 1]. */
  lemma SplitRightPart(sp: HermiteSpline, s: nat, q: SplinePoint, tau: real, u: real)
    requires OnSegment(sp, s, q, tau)
    ensures Evaluable(Split(sp, s, q), s + 1)
    ensures Value(Split(sp, s, q), s + 1, u) == Value(sp, s, tau + (1.0 - tau) * u)
  {
    var p0, p1 := sp.points[s], sp.points[s + 1];
    SplitPoints(sp, s, q, tau);
    ValueOfPoints(Split(sp, s, q), s + 1, u, q, p1);
    ValueOfPoints(sp, s, tau + (1.0 - tau) * u, p0, p1);
    RightHalf(p0, p1, q, tau, u);
    RightX(p0.x, p1.x, q.x, tau, u);
  }

  /** Where the new point's segments take over from the old one, the local
      parameters match. */
  lemma LeftLocalT(x0: real, x1: real, xq: real, tau: real, x: real)
    requires x0 <= x < xq && xq == Lerp(x0, x1, tau) && x1 != x0
    ensures tau * ((x - x0) / (xq - x0)) == (x - x0) / (x1 - x0)
  {
    LinearForm(x0, x1, tau);
    var w := x1 - x0;
    var v := (x - x0) / (xq - x0);
    assert v * (xq - x0) == x - x0;
    assert tau * v * w == x - x0;
  }

  lemma RightLocalT(x0: real, x1: real, xq: real, tau: real, x: real)
    requires xq <= x < x1 && xq == Lerp(x0, x1, tau) && x1 != x0
    ensures tau + (1.0 - tau) * ((x - xq) / (x1 - xq)) == (x - x0) / (x1 - x0)
  {
    LinearForm(x0, x1, tau);
    var w := x1 - x0;
    var v := (x - xq) / (x1 - xq);
    assert x1 - xq == (1.0 - tau) * w;
    assert v * (x1 - xq) == x - xq;
    assert (tau + (1.0 - tau) * v) * w == tau * w + v * (x1 - xq);
  }

  /** How the segment ranges of the split spline relate to the old ones:
      below s as before, s and s + 1 split the old s at q.x, above s + 1
      shifted by one. */
  lemma SplitRanges(sp: HermiteSpline, s: nat, q: SplinePoint, x': real)
    requires SplitsFirst(sp, s, q)
    ensures var nts, pts := Split(sp, s, q).points, sp.points;
            && nts[0] == pts[0]
            && (forall j :: 0 <= j < s ==> (InSegment(nts, j, x') <==> InSegment(pts, j, x')))
            && (InSegment(nts, s, x') <==> InSegment(pts, s, x') && x' < q.x)
            && (InSegment(nts, s + 1, x') <==> InSegment(pts, s, x') && q.x <= x')
            && (forall j :: s < j ==> (InSegment(nts, j + 1, x') <==> InSegment(pts, j, x')))
  {
    var nts := Split(sp, s, q).points;
    assert nts[0] == sp.points[0];
  }

  /** x' outside every segment stays outside every segment. */
  lemma SampleOutside(sp: HermiteSpline, s: nat, q: SplinePoint, x': real)
    requires SplitsFirst(sp, s, q) && SegmentOf(sp.points, x').None?
    ensures TangentsDefined(Split(sp, s, q))
    ensures SampleY(Split(sp, s, q), x') == SampleY(sp, x')
  {
    SplitTangentsDefined(sp, s, q);
    SplitRanges(sp, s, q, x');
    var nts := Split(sp, s, q).points;
    forall j | 0 <= j < |nts| - 1
      ensures !InSegment(nts, j, x')
    {
      if j > s + 1 {
        assert !InSegment(sp.points, j - 1, x');
      }
    }
  }

  /** x' in a segment before the split one finds the same segment. */
  lemma SampleBefore(sp: HermiteSpline, s: nat, q: SplinePoint, x': real)
    requires SplitsFirst(sp, s, q)
    requires SegmentOf(sp.points, x').Some? && SegmentOf(sp.points, x').value < s
    ensures TangentsDefined(Split(sp, s, q))
    ensures SampleY(Split(sp, s, q), x') == SampleY(sp, x')
  {
    SplitTangentsDefined(sp, s, q);
    SplitRanges(sp, s, q, x');
    var nts := Split(sp, s, q).points;
    var k := SegmentOf(sp.points, x').value;
    FirstSegment(nts, x', k);
    assert nts[k] == sp.points[k] && nts[k + 1] == sp.points[k + 1];
  }

  /** x' in a segment after the split one finds that segment, one later. */
  lemma SampleAfter(sp: HermiteSpline, s: nat, q: SplinePoint, x': real)
    requires SplitsFirst(sp, s, q)
    requires SegmentOf(sp.points, x').Some? && SegmentOf(sp.points, x').value > s
    ensures TangentsDefined(Split(sp, s, q))
    ensures SampleY(Split(sp, s, q), x') == SampleY(sp, x')
  {
    SplitTangentsDefined(sp, s, q);
    SplitRanges(sp, s, q, x');
    var nts := Split(sp, s, q).points;
    var k := SegmentOf(sp.points, x').value;
    forall j | 0 <= j < k + 1
      ensures !InSegment(nts, j, x')
    {
      if j > s + 1 {
        assert !InSegment(sp.points, j - 1, x');
      }
    }
    FirstSegment(nts, x', k + 1);
    assert nts[k + 1] == sp.points[k] && nts[k + 2] == sp.points[k + 1];
  }

  /** x' in the split segment, left of q, finds segment s at the matching
      local parameter. */
  lemma SampleLeft(sp: HermiteSpline, s: nat, q: SplinePoint, x': real)
    requires SplitsFirst(sp, s, q)
    requires SegmentOf(sp.points, x') == Some(s) && x' < q.x
    ensures TangentsDefined(Split(sp, s, q))
    ensures SampleY(Split(sp, s, q), x') == SampleY(sp, x')
  {
    SplitTangentsDefined(sp, s, q);
    SplitRanges(sp, s, q, x');
    var pts, nts := sp.points, Split(sp, s, q).points;
    assert nts[s] == pts[s] && nts[s + 1] == q;
    FirstSegment(nts, x', s);
    var tau := LocalT(pts, s, q.x);
    var u := LocalT(nts, s, x');
    assert u == (x' - pts[s].x) / (q.x - pts[s].x);
    LeftLocalT(pts[s].x, pts[s + 1].x, q.x, tau, x');
    assert tau * u == LocalT(pts, s, x');
    SplitLeftPart(sp, s, q, tau, u);
    assert SampleY(Split(sp, s, q), x') == Value(Split(sp, s, q), s, u).1;
  }

  /** x' in the split segment, at or right of q, finds segment s + 1 at
      the matching local parameter. */
  lemma SampleRight(sp: HermiteSpline, s: nat, q: SplinePoint, x': real)
    requires SplitsFirst(sp, s, q)
    requires SegmentOf(sp.points, x') == Some(s) && q.x <= x'
    ensures TangentsDefined(Split(sp, s, q))
    ensures SampleY(Split(sp, s, q), x') == SampleY(sp, x')
  {
    SplitTangentsDefined(sp, s, q);
    SplitRanges(sp, s, q, x');
    var pts, nts := sp.points, Split(sp, s, q).points;
    assert nts[s + 1] == q;
    FirstSegment(nts, x', s + 1);
    var tau := LocalT(pts, s, q.x);
    var u := LocalT(nts, s + 1, x');
    assert u == (x' - q.x) / (pts[s + 1].x - q.x);
    RightLocalT(pts[s].x, pts[s + 1].x, q.x, tau, x');
    assert tau + (1.0 - tau) * u == LocalT(pts, s, x');
    SplitRightPart(sp, s, q, tau, u);
    assert SampleY(Split(sp, s, q), x') == Value(Split(sp, s, q), s + 1, u).1;
  }

  /** Splitting a segment at a point on the curve leaves the sampled curve
      y(x) exactly as it was, for every x. */
  lemma SplitPreservesSample(sp: HermiteSpline, s: nat, q: SplinePoint, x': real)
    requires SplitsFirst(sp, s, q)
    ensures TangentsDefined(Split(sp, s, q))
    ensures SampleY(Split(sp, s, q), x') == SampleY(sp, x')
  {
    match SegmentOf(sp.points, x')
    case None =>
      SampleOutside(sp, s, q, x');
    case Some(k) =>
      if k < s {
        SampleBefore(sp, s, q, x');
      } else if k > s {
        SampleAfter(sp, s, q, x');
      } else if x' < q.x {
        SampleLeft(sp, s, q, x');
      } else {
        SampleRight(sp, s, q, x');
      }
  }

  /** insertPoint leaves the sampled curve y(x) exactly as it was, for
      every x: the new point's two segments cover exactly the x-range of
      the segment they replace, each reproducing its part of the cubic,
      and every other segment is kept. */
  lemma InsertPreservesSample(sp: HermiteSpline, x: real, sqrt: real -> real, x': real)
    requires |sp.points| >= 2 && TangentsDefined(sp) && IsSqrt(sqrt) && InsertSpec(sp, x, sqrt).Some?
    ensures TangentsDefined(InsertSpec(sp, x, sqrt).value)
    ensures SampleY(InsertSpec(sp, x, sqrt).value, x') == SampleY(sp, x')
  {
    InsertIsSplit(sp, x, sqrt);
    var s := SegmentOf(sp.points, x).value;
    var q := InsertSpec(sp, x, sqrt).value.points[s + 1];
    SplitPreservesSample(sp, s, q, x');
  }
}
