/**
 * The segmented Hermite spline of the particle editor's curve package: an
 * ordered list of control points (x, y, tx, ty) whose N points delimit N - 1
 * cubic segments over the x-range [0, 1]. This module holds the value types,
 * the two constructors, the queries (value, tangent, sample by x) and the
 * facts that make the curve continuous in value and slope.
 *
 * A spline is never changed after it is built: every edit in SplineEdit
 * copies the list and returns a new spline, so it is modelled as a value.
 */
module Spline {
  import opened HermiteBasis
  import opened Quadratic
  import opened Wrappers

  /** Smallest x-distance the editor keeps between neighbouring points. */
  const MinPointXDistance: real := 0.01

  /** A control point: position (x, y) and a tangent direction (tx, ty)
      whose slope is ty / tx. */
  datatype SplinePoint = SplinePoint(x: real, y: real, tx: real, ty: real)

  datatype HermiteSpline = HermiteSpline(points: seq<SplinePoint>)

  /** The intended shape of a spline: at least two points, the first at
      x = 0 and the last at x = 1, neighbours at least MinPointXDistance
      apart, and tangents pointing forward (tx > 0). The constructors'
      default, setPosition, removePoint and a forward setTangent keep it;
      insertPoint at a control point and a backward setTangent can leave
      it. */
  ghost predicate Valid(sp: HermiteSpline)
  {
    var pts := sp.points;
    && |pts| >= 2
    && pts[0].x == 0.0
    && pts[|pts| - 1].x == 1.0
    && (forall i :: 0 <= i < |pts| - 1 ==> pts[i].x + MinPointXDistance <= pts[i + 1].x)
    && (forall i :: 0 <= i < |pts| ==> pts[i].tx > 0.0)
  }

  /** Every tangent has a non-zero run, so every slope ty / tx is defined. */
  ghost predicate TangentsDefined(sp: HermiteSpline)
  {
    forall i :: 0 <= i < |sp.points| ==> sp.points[i].tx != 0.0
  }

  /** Segment `segment` exists and both its end slopes are defined. */
  ghost predicate Evaluable(sp: HermiteSpline, segment: nat)
  {
    segment + 1 < |sp.points| && sp.points[segment].tx != 0.0 && sp.points[segment + 1].tx != 0.0
  }

  lemma ValidTangentsDefined(sp: HermiteSpline)
    requires Valid(sp)
    ensures TangentsDefined(sp)
  {
  }

  /** In a valid spline x grows by at least MinPointXDistance from any
      point to any later one. */
  lemma {:induction false} ValidIncreasing(sp: HermiteSpline, j: nat, k: nat)
    requires Valid(sp) && j < k < |sp.points|
    ensures sp.points[j].x + MinPointXDistance <= sp.points[k].x
    decreases k - j
  {
    if j + 1 < k {
      ValidIncreasing(sp, j + 1, k);
    }
  }

  // ---------------------------------------------------------------------
  // Construction and access

  /** The spline of the default constructor. */
  function DefaultSpline(): (sp: HermiteSpline)
    ensures Valid(sp)
  {
    HermiteSpline([SplinePoint(0.0, 0.0, 0.5, 0.5), SplinePoint(1.0, 1.0, 0.5, 0.5)])
  }

  /** Point k of a flat array of (x, y, tx, ty) quadruples. */
  function Quadruple(data: seq<real>, k: nat): SplinePoint
    requires 4 * k + 3 < |data|
  {
    SplinePoint(data[4 * k], data[4 * k + 1], data[4 * k + 2], data[4 * k + 3])
  }

  /** The constructor from a flat float array. A trailing incomplete
      quadruple makes the source index past the end of the array and throw;
      that outcome is None here. No other check is made on the data. */
  method FromData(data: seq<real>) returns (r: Option<HermiteSpline>)
    ensures r.Some? <==> |data| % 4 == 0
    ensures r.Some? ==> |r.value.points| == |data| / 4
    ensures r.Some? ==> forall k :: 0 <= k < |data| / 4 ==> r.value.points[k] == Quadruple(data, k)
  {
    var points: seq<SplinePoint> := [];
    var i := 0;
    while i < |data|
      invariant 0 <= i <= |data| && i % 4 == 0
      invariant |points| == i / 4
      invariant forall k :: 0 <= k < |points| ==> points[k] == Quadruple(data, k)
    {
      if i + 3 >= |data| {
        return None;
      }
      points := points + [SplinePoint(data[i], data[i + 1], data[i + 2], data[i + 3])];
      i := i + 4;
    }
    return Some(HermiteSpline(points));
  }

  /** getCount: the number of control points. */
  function Count(sp: HermiteSpline): (n: nat)
    ensures n == |sp.points|
  {
    |sp.points|
  }

  /** getSegmentCount: N points delimit N - 1 segments (-1 for no points). */
  function SegmentCount(sp: HermiteSpline): (c: int)
    ensures c + 1 == Count(sp)
  {
    Count(sp) - 1
  }

  /** getPoint: a copy of point i, which as a value is point i itself. */
  function GetPoint(sp: HermiteSpline, i: nat): (p: SplinePoint)
    requires i < Count(sp)
    ensures p == sp.points[i]
  {
    sp.points[i]
  }

  /** getCount and getPoint observe the whole spline: two splines that
      agree on both are the same spline. */
  lemma AccessorsDetermineSpline(sp: HermiteSpline, sp': HermiteSpline)
    requires Count(sp) == Count(sp')
    requires forall i :: 0 <= i < Count(sp) ==> GetPoint(sp, i) == GetPoint(sp', i)
    ensures sp == sp'
  {
    forall i | 0 <= i < |sp.points|
      ensures sp.points[i] == sp'.points[i]
    {
      assert GetPoint(sp, i) == GetPoint(sp', i);
    }
    assert sp.points == sp'.points;
  }

  /** Every segment index below getSegmentCount of a valid spline names a
      segment whose end slopes are defined and whose width is positive, so
      getValue and getTangent never divide by zero on it. */
  lemma SegmentsOfValid(sp: HermiteSpline, s: nat)
    requires Valid(sp) && s < SegmentCount(sp)
    ensures Evaluable(sp, s) && GetPoint(sp, s).x < GetPoint(sp, s + 1).x
  {
  }

  // ---------------------------------------------------------------------
  // Evaluation of one segment

  /** A point's tangent slope scaled by the width dx of the segment it is
      used in: the derivative the Hermite basis expects over t in [0, 1]. */
  function ScaledTangent(dx: real, p: SplinePoint): (d: real)
    requires p.tx != 0.0
    ensures d == dx * (p.ty / p.tx)
  {
    dx * p.ty / p.tx
  }

  /** x moving linearly from x0 at t = 0 to x1 at t = 1, staying between
      them for t in [0, 1]. */
  function Lerp(x0: real, x1: real, t: real): (x: real)
    ensures t == 0.0 ==> x == x0
    ensures t == 1.0 ==> x == x1
    ensures x0 <= x1 && 0.0 <= t <= 1.0 ==> x0 <= x <= x1
  {
    var x := x0 * (1.0 - t) + x1 * t;
    LerpBetween(x0, x1, t, x);
    x
  }

  lemma NonNegativeProduct(p: real, q: real)
    requires p >= 0.0 && q >= 0.0
    ensures p * q >= 0.0
  {
  }

  lemma LerpBetween(x0: real, x1: real, t: real, x: real)
    requires x == x0 * (1.0 - t) + x1 * t
    ensures x0 <= x1 && 0.0 <= t <= 1.0 ==> x0 <= x <= x1
  {
    assert x == x0 + t * (x1 - x0);
    if x0 <= x1 && 0.0 <= t <= 1.0 {
      NonNegativeProduct(t, x1 - x0);
      NonNegativeProduct(1.0 - t, x1 - x0);
      assert x1 - x == (1.0 - t) * (x1 - x0);
    }
  }

  /** Position (x, y) on segment `segment` at local parameter t: x moves
      linearly between the end points, y follows the Hermite cubic. */
  function Value(sp: HermiteSpline, segment: nat, t: real): (v: (real, real))
    requires Evaluable(sp, segment)
    ensures t == 0.0 ==> v == (sp.points[segment].x, sp.points[segment].y)
    ensures t == 1.0 ==> v == (sp.points[segment + 1].x, sp.points[segment + 1].y)
  {
    var p0, p1 := sp.points[segment], sp.points[segment + 1];
    var dx := p1.x - p0.x;
    var pt0, pt1 := ScaledTangent(dx, p0), ScaledTangent(dx, p1);
    (Lerp(p0.x, p1.x, t), Hermite(p0.y, p1.y, pt0, pt1, t))
  }

  /** The source writes the position into a caller-supplied array. */
  method GetValue(sp: HermiteSpline, segment: nat, t: real, value: array<real>)
    requires Evaluable(sp, segment) && value.Length >= 2
    modifies value
    ensures value[0] == Value(sp, segment, t).0 && value[1] == Value(sp, segment, t).1
    ensures forall k :: 2 <= k < value.Length ==> value[k] == old(value[k])
  {
    var p0, p1 := GetPoint(sp, segment), GetPoint(sp, segment + 1);
    var segT := t;
    var dx := p1.x - p0.x;
    var py0, py1 := p0.y, p1.y;
    var pt0, pt1 := ScaledTangent(dx, p0), ScaledTangent(dx, p1);
    var x := p0.x * (1.0 - segT) + p1.x * segT;
    var y := Hermite(py0, py1, pt0, pt1, segT);
    value[0] := x;
    value[1] := y;
  }

  /** hermiteD of a segment at t: the derivative of y in t. */
  function SegmentDerivative(sp: HermiteSpline, segment: nat, t: real): real
    requires Evaluable(sp, segment)
  {
    var p0, p1 := sp.points[segment], sp.points[segment + 1];
    var dx := p1.x - p0.x;
    HermiteD(p0.y, p1.y, ScaledTangent(dx, p0), ScaledTangent(dx, p1), t)
  }

  /** dy/dx of segment `segment` at t: the Hermite derivative (a derivative
      in t) divided by the segment width, which undoes the tangent scaling.
      At either end it is exactly the end point's own slope ty / tx. */
  function Slope(sp: HermiteSpline, segment: nat, t: real): (d: real)
    requires Evaluable(sp, segment) && sp.points[segment].x != sp.points[segment + 1].x
    ensures t == 0.0 ==> d == sp.points[segment].ty / sp.points[segment].tx
    ensures t == 1.0 ==> d == sp.points[segment + 1].ty / sp.points[segment + 1].tx
  {
    var p0, p1 := sp.points[segment], sp.points[segment + 1];
    var dx := p1.x - p0.x;
    var pt0, pt1 := ScaledTangent(dx, p0), ScaledTangent(dx, p1);
    SlopeAtEnd(dx, p0);
    SlopeAtEnd(dx, p1);
    SegmentDerivative(sp, segment, t) / dx
  }

  lemma SlopeAtEnd(dx: real, p: SplinePoint)
    requires p.tx != 0.0 && dx != 0.0
    ensures ScaledTangent(dx, p) / dx == p.ty / p.tx
  {
    var k := p.ty / p.tx;
    assert (dx * k) / dx == k;
  }

  /** The h^2 coefficient of the change of segment `segment`'s y over a
      step h of t, starting at t. */
  function SegmentRemainder(sp: HermiteSpline, segment: nat, t: real, h: real): real
    requires Evaluable(sp, segment)
  {
    var p0, p1 := sp.points[segment], sp.points[segment + 1];
    var dx := p1.x - p0.x;
    var pt0, pt1 := ScaledTangent(dx, p0), ScaledTangent(dx, p1);
    CubicRemainder(LeadCoeff(p0.y, p1.y, pt0, pt1), SquareCoeff(p0.y, p1.y, pt0, pt1), t, h)
  }

  /** The change of a segment's y over a step h of t is Slope times the
      change of x, up to a term of order h^2: Slope is the curve's dy/dx. */
  lemma SlopeIsDerivative(sp: HermiteSpline, segment: nat, t: real, h: real)
    requires Evaluable(sp, segment) && sp.points[segment].x != sp.points[segment + 1].x
    ensures Value(sp, segment, t + h).1 - Value(sp, segment, t).1
         == Slope(sp, segment, t) * (Value(sp, segment, t + h).0 - Value(sp, segment, t).0)
          + h * h * SegmentRemainder(sp, segment, t, h)
  {
    var dx := sp.points[segment + 1].x - sp.points[segment].x;
    var dy := SegmentDerivative(sp, segment, t);
    ValueSteps(sp, segment, t, h);
    StepBySlope(Value(sp, segment, t + h).1 - Value(sp, segment, t).1,
                Value(sp, segment, t + h).0 - Value(sp, segment, t).0,
                dy, dx, h, h * h * SegmentRemainder(sp, segment, t, h), Slope(sp, segment, t));
  }

  /** yStep and xStep are the changes of y and x over a step h of t, for a
      derivative dy of y in t and a segment width dx. */
  ghost predicate StepsBy(yStep: real, xStep: real, dy: real, dx: real, h: real, rest: real)
  {
    yStep == h * dy + rest && xStep == h * dx
  }

  lemma ValueSteps(sp: HermiteSpline, segment: nat, t: real, h: real)
    requires Evaluable(sp, segment)
    ensures StepsBy(Value(sp, segment, t + h).1 - Value(sp, segment, t).1,
                    Value(sp, segment, t + h).0 - Value(sp, segment, t).0,
                    SegmentDerivative(sp, segment, t), sp.points[segment + 1].x - sp.points[segment].x,
                    h, h * h * SegmentRemainder(sp, segment, t, h))
  {
    ValueYStep(sp, segment, t, h);
    ValueXStep(sp, segment, t, h);
  }

  /** Over a step h of t, y changes by h times its derivative in t plus a
      term of order h^2. */
  lemma ValueYStep(sp: HermiteSpline, segment: nat, t: real, h: real)
    requires Evaluable(sp, segment)
    ensures Value(sp, segment, t + h).1 - Value(sp, segment, t).1
         == h * SegmentDerivative(sp, segment, t) + h * h * SegmentRemainder(sp, segment, t, h)
  {
    var p0, p1 := sp.points[segment], sp.points[segment + 1];
    var dx := p1.x - p0.x;
    HermiteStep(p0.y, p1.y, ScaledTangent(dx, p0), ScaledTangent(dx, p1), t, h);
  }

  /** Over a step h of t, x changes by h times the segment width. */
  lemma ValueXStep(sp: HermiteSpline, segment: nat, t: real, h: real)
    requires Evaluable(sp, segment)
    ensures Value(sp, segment, t + h).0 - Value(sp, segment, t).0
         == h * (sp.points[segment + 1].x - sp.points[segment].x)
  {
    XStep(sp.points[segment].x, sp.points[segment + 1].x, t, h);
  }

  /** A change of h * dy in y over a change of h * dx in x is the slope
      dy / dx times the change in x. */
  lemma StepBySlope(yStep: real, xStep: real, dy: real, dx: real, h: real, rest: real, slope: real)
    requires dx != 0.0 && slope == dy / dx && StepsBy(yStep, xStep, dy, dx, h, rest)
    ensures yStep == slope * xStep + rest
  {
    DivideStep(dy, dx, h);
  }

  lemma XStep(x0: real, x1: real, t: real, h: real)
    ensures (x0 * (1.0 - (t + h)) + x1 * (t + h)) - (x0 * (1.0 - t) + x1 * t) == h * (x1 - x0)
  {
  }

  lemma DivideStep(dy: real, dx: real, h: real)
    requires dx != 0.0
    ensures (dy / dx) * (h * dx) == h * dy
  {
  }

  lemma Normalized(d: real, l: real)
    requires 0.0 <= l && l * l == 1.0 + d * d
    ensures l > 0.0 && 1.0 / l > 0.0
    ensures (1.0 / l) * (1.0 / l) + (d / l) * (d / l) == 1.0
    ensures (d / l) / (1.0 / l) == d
  {
    assert d * d >= 0.0;
    assert l != 0.0;
    var r := 1.0 / l;
    assert r * l == 1.0;
    assert d / l == d * r;
    calc {
      r * r + (d * r) * (d * r);
      r * r * (1.0 + d * d);
      r * r * (l * l);
      (r * l) * (r * l);
      1.0;
    }
  }

  /** (tx, ty) is a forward unit vector of slope d. */
  predicate UnitTangentOf(tx: real, ty: real, d: real)
  {
    tx > 0.0 && tx * tx + ty * ty == 1.0 && ty / tx == d
  }

  /** The direction (1, d) scaled to unit length. */
  function UnitDirection(d: real, sqrt: real -> real): (v: (real, real))
    requires IsSqrt(sqrt)
    ensures UnitTangentOf(v.0, v.1, d)
  {
    var x, y := 1.0, d;
    var l := sqrt(x * x + y * y);
    Normalized(d, l);
    (x / l, y / l)
  }

  /** The unit tangent of segment `segment` at t: the direction (1, dy/dx)
      normalised. Its slope is the curve's slope there, and at either end
      the end point's own slope. */
  function Tangent(sp: HermiteSpline, segment: nat, t: real, sqrt: real -> real): (v: (real, real))
    requires Evaluable(sp, segment) && sp.points[segment].x != sp.points[segment + 1].x
    requires IsSqrt(sqrt)
    ensures UnitTangentOf(v.0, v.1, Slope(sp, segment, t))
    ensures t == 0.0 ==> v.1 / v.0 == sp.points[segment].ty / sp.points[segment].tx
    ensures t == 1.0 ==> v.1 / v.0 == sp.points[segment + 1].ty / sp.points[segment + 1].tx
  {
    UnitDirection(Slope(sp, segment, t), sqrt)
  }

  /** The source writes the unit tangent into a caller-supplied array. */
  method GetTangent(sp: HermiteSpline, segment: nat, t: real, sqrt: real -> real, value: array<real>)
    requires Evaluable(sp, segment) && sp.points[segment].x != sp.points[segment + 1].x
    requires IsSqrt(sqrt) && value.Length >= 2
    modifies value
    ensures value[0] == Tangent(sp, segment, t, sqrt).0 && value[1] == Tangent(sp, segment, t, sqrt).1
    ensures forall k :: 2 <= k < value.Length ==> value[k] == old(value[k])
  {
    var p0, p1 := GetPoint(sp, segment), GetPoint(sp, segment + 1);
    var segT := t;
    var dx := p1.x - p0.x;
    var py0, py1 := p0.y, p1.y;
    var pt0, pt1 := ScaledTangent(dx, p0), ScaledTangent(dx, p1);
    var d := HermiteD(py0, py1, pt0, pt1, segT) / dx;
    var x, y := 1.0, d;
    var l := sqrt(x * x + y * y);
    assert d == Slope(sp, segment, t);
    UnitDirectionOf(y, l, sqrt);
    value[0] := x / l;
    value[1] := y / l;
  }

  lemma UnitDirectionOf(d: real, l: real, sqrt: real -> real)
    requires IsSqrt(sqrt)
    requires l == sqrt(1.0 * 1.0 + d * d)
    ensures UnitDirection(d, sqrt) == (1.0 / l, d / l)
  {
    var v := UnitDirection(d, sqrt);
    assert v.0 == 1.0 / l;
    assert v.1 == d / l;
  }

  /** Neighbouring segments meet at their shared point with the same
      position and the same unit tangent: the curve is C1 there, because
      each side scales the shared point's slope by its own width. */
  lemma ContinuousAtSharedPoint(sp: HermiteSpline, s: nat, sqrt: real -> real)
    requires Evaluable(sp, s) && Evaluable(sp, s + 1) && IsSqrt(sqrt)
    requires sp.points[s].x != sp.points[s + 1].x && sp.points[s + 1].x != sp.points[s + 2].x
    ensures Value(sp, s, 1.0) == Value(sp, s + 1, 0.0)
    ensures Tangent(sp, s, 1.0, sqrt) == Tangent(sp, s + 1, 0.0, sqrt)
  {
    assert Slope(sp, s, 1.0) == Slope(sp, s + 1, 0.0);
  }

  // ---------------------------------------------------------------------
  // Sampling by x

  /** x lies in the half-open x-range [p_s.x, p_{s+1}.x) of segment s. */
  predicate InSegment(pts: seq<SplinePoint>, s: int, x: real)
  {
    0 <= s < |pts| - 1 && pts[s].x <= x < pts[s + 1].x
  }

  /** The first segment, from `from` on, whose half-open range holds x. */
  function SegmentFrom(pts: seq<SplinePoint>, x: real, from: nat): (r: Option<nat>)
    ensures r.Some? ==> from <= r.value && InSegment(pts, r.value, x)
    ensures r.Some? ==> forall j :: from <= j < r.value ==> !InSegment(pts, j, x)
    ensures r.None? ==> forall j :: from <= j ==> !InSegment(pts, j, x)
    decreases |pts| - from
  {
    if from + 1 >= |pts| then None
    else if InSegment(pts, from, x) then Some(from)
    else SegmentFrom(pts, x, from + 1)
  }

  /** The first segment whose half-open range holds x, if any. */
  function SegmentOf(pts: seq<SplinePoint>, x: real): (r: Option<nat>)
    ensures r.Some? ==> InSegment(pts, r.value, x) && forall j :: 0 <= j < r.value ==> !InSegment(pts, j, x)
    ensures r.None? ==> forall j :: !InSegment(pts, j, x)
  {
    SegmentFrom(pts, x, 0)
  }

  /** Local parameter of x within segment s: the t in [0, 1) at which the
      segment's linear x is x. */
  function LocalT(pts: seq<SplinePoint>, s: nat, x: real): (t: real)
    requires InSegment(pts, s, x)
    ensures 0.0 <= t < 1.0
    ensures Lerp(pts[s].x, pts[s + 1].x, t) == x
  {
    InverseLerp(pts[s].x, pts[s + 1].x, x);
    (x - pts[s].x) / (pts[s + 1].x - pts[s].x)
  }

  lemma InverseLerp(x0: real, x1: real, x: real)
    requires x0 <= x < x1
    ensures var t := (x - x0) / (x1 - x0); 0.0 <= t < 1.0 && Lerp(x0, x1, t) == x
  {
    var w := x1 - x0;
    var t := (x - x0) / w;
    assert t * w == x - x0;
    assert x0 * (1.0 - t) + x1 * t == x0 + t * w;
  }

  /** A segment holding x with none before it holding x is the one
      SegmentOf finds. */
  lemma FirstSegment(pts: seq<SplinePoint>, x: real, s: nat)
    requires InSegment(pts, s, x)
    requires forall j :: 0 <= j < s ==> !InSegment(pts, j, x)
    ensures SegmentOf(pts, x) == Some(s)
  {
  }

  /** The curve's y at x as the source computes it: the first segment whose
      half-open range holds x, at the matching local t; when no segment
      holds x it evaluates segment 0 at t = 0, i.e. the first point's y. */
  function SampleY(sp: HermiteSpline, x: real): (y: real)
    requires |sp.points| >= 2 && TangentsDefined(sp)
    ensures SegmentOf(sp.points, x).None? ==> y == sp.points[0].y
  {
    match SegmentOf(sp.points, x)
    case Some(s) => Value(sp, s, LocalT(sp.points, s, x)).1
    case None => Value(sp, 0, 0.0).1
  }

  method GetY(sp: HermiteSpline, x: real) returns (y: real)
    requires |sp.points| >= 2 && TangentsDefined(sp)
    ensures y == SampleY(sp, x)
  {
    var segmentCount := SegmentCount(sp);
    var segment, t := 0, 0.0;
    ghost var found := false;
    var s := 0;
    while s < segmentCount
      invariant 0 <= s <= segmentCount
      invariant forall j :: 0 <= j < s ==> !InSegment(sp.points, j, x)
      invariant !found && segment == 0 && t == 0.0
    {
      var p0, p1 := GetPoint(sp, s), GetPoint(sp, s + 1);
      if x >= p0.x && x < p1.x {
        t := (x - p0.x) / (p1.x - p0.x);
        segment := s;
        found := true;
        FirstSegment(sp.points, x, s);
        break;
      }
      s := s + 1;
    }
    assert found ==> SegmentOf(sp.points, x) == Some(segment) && t == LocalT(sp.points, segment, x);
    assert !found ==> SegmentOf(sp.points, x).None? && segment == 0 && t == 0.0;
    var value := new real[2];
    GetValue(sp, segment, t, value);
    y := value[1];
  }

  /** In a valid spline the first segment holding a point's own x is the
      segment that starts at that point (the last point excepted). */
  lemma {:induction false} SegmentOfControlPoint(sp: HermiteSpline, k: nat)
    requires Valid(sp) && k + 1 < |sp.points|
    ensures SegmentOf(sp.points, sp.points[k].x) == Some(k)
  {
    var pts := sp.points;
    ValidIncreasing(sp, k, k + 1);
    forall j | 0 <= j < k
      ensures !InSegment(pts, j, pts[k].x)
    {
      if j + 1 < k {
        ValidIncreasing(sp, j + 1, k);
      }
    }
    FirstSegment(pts, pts[k].x, k);
  }

  /** The sampled curve passes through every control point but the last. */
  lemma SampleAtControlPoint(sp: HermiteSpline, k: nat)
    requires Valid(sp) && k + 1 < |sp.points|
    ensures SampleY(sp, sp.points[k].x) == sp.points[k].y
  {
    SegmentOfControlPoint(sp, k);
    assert LocalT(sp.points, k, sp.points[k].x) == 0.0;
  }

  /** The default spline is the identity y = x on [0, 1). */
  lemma DefaultIsIdentity(x: real)
    requires 0.0 <= x < 1.0
    ensures SampleY(DefaultSpline(), x) == x
  {
    var sp := DefaultSpline();
    assert InSegment(sp.points, 0, x);
    assert LocalT(sp.points, 0, x) == x;
    assert ScaledTangent(1.0, sp.points[0]) == 1.0;
    assert ScaledTangent(1.0, sp.points[1]) == 1.0;
    HermitePowerForm(0.0, 1.0, 1.0, 1.0, x);
    assert LeadCoeff(0.0, 1.0, 1.0, 1.0) == 0.0 && SquareCoeff(0.0, 1.0, 1.0, 1.0) == 0.0;
  }

  // ---------------------------------------------------------------------
  // The right edge x = 1

  /** As written the last segment's range is half-open too, so sampling at
      the right edge x = 1 finds no segment and returns the FIRST point's y:
      on the default spline (y = x) it gives 0 where 1 is meant. */
  lemma RightEdgeFallsBack()
    ensures SegmentOf(DefaultSpline().points, 1.0).None?
    ensures SampleY(DefaultSpline(), 1.0) == 0.0
    ensures DefaultSpline().points[1] == SplinePoint(1.0, 1.0, 0.5, 0.5)
  {
  }

  /** Sampling with the last segment closed on the right, so that x equal to
      the last point's x evaluates the last segment at t = 1. */
  function SampleYClosed(sp: HermiteSpline, x: real): (y: real)
    requires |sp.points| >= 2 && TangentsDefined(sp)
    ensures SegmentOf(sp.points, x).None? && x == sp.points[|sp.points| - 1].x
            ==> y == sp.points[|sp.points| - 1].y
    ensures SegmentOf(sp.points, x).Some? ==> y == SampleY(sp, x)
  {
    var n := |sp.points|;
    if SegmentOf(sp.points, x).None? && x == sp.points[n - 1].x then Value(sp, n - 2, 1.0).1
    else SampleY(sp, x)
  }

  /** With the closed right edge the curve passes through every control
      point of a valid spline, the last one included. */
  lemma SampleClosedAtControlPoint(sp: HermiteSpline, k: nat)
    requires Valid(sp) && k < |sp.points|
    ensures SampleYClosed(sp, sp.points[k].x) == sp.points[k].y
  {
    var pts := sp.points;
    var n := |pts|;
    if k + 1 < n {
      SampleAtControlPoint(sp, k);
      SegmentOfControlPoint(sp, k);
    } else {
      forall j | 0 <= j < n - 1
        ensures !InSegment(pts, j, pts[k].x)
      {
        if j + 1 < k {
          ValidIncreasing(sp, j + 1, k);
        }
      }
    }
  }
}
