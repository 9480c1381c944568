/**
 * getExtremValues: the running minimum and maximum of y over the whole
 * spline. Per segment it folds in both end points' y and the y at the roots
 * in [0, 1] of the derivative A t^2 + B t + C, found with the quadratic
 * formula; a segment whose A is within 0.0001 of zero contributes no root.
 */
module SplineExtrema {
  import opened HermiteBasis
  import opened Quadratic
  import opened Spline
  import opened SplineEdit

  /** Java's Double.MAX_VALUE, (2 - 2^-52) * 2^1023: the running minimum
      starts here and the running maximum at its negation. */
  const MaxDouble: real := 179769313486231570814527423731704356798070567525844996598917476803157260780028538760589558632766878171540458953514382464234321326889464182768467546703537516986049910576551282076245490090389328944075868508455133942304583236903222948165808559332123348274797826204144723168738177180919299881250404026184124858368.0

  /** Below this |A| the source treats the derivative as having no root. */
  const RootEpsilon: real := 0.0001

  /** Which roots of the derivative a segment contributes. Thresholded is
      the source's rule: the quadratic formula when |A| > RootEpsilon, else
      none. Exact differs in two ways: it applies the quadratic formula for
      every A != 0, including 0 < |A| <= RootEpsilon, and when A = 0 it
      takes the root -C / B of the linear derivative. */
  datatype RootRule = Thresholded | Exact

  /** The Hermite inputs of one segment: end ys and width-scaled tangents. */
  datatype HermiteInputs = HermiteInputs(y0: real, y1: real, t0: real, t1: real)

  function Inputs(sp: HermiteSpline, s: nat): (h: HermiteInputs)
    requires Evaluable(sp, s)
    ensures h.y0 == sp.points[s].y && h.y1 == sp.points[s + 1].y
  {
    var p0, p1 := sp.points[s], sp.points[s + 1];
    var dx := p1.x - p0.x;
    HermiteInputs(p0.y, p1.y, ScaledTangent(dx, p0), ScaledTangent(dx, p1))
  }

  function Y(h: HermiteInputs, t: real): real
  {
    Hermite(h.y0, h.y1, h.t0, h.t1, t)
  }

  function DY(h: HermiteInputs, t: real): real
  {
    HermiteD(h.y0, h.y1, h.t0, h.t1, t)
  }

  /** The derivative in power form, A t^2 + B t + C. */
  function DerivA(h: HermiteInputs): real
  {
    3.0 * (2.0 * h.y0 - 2.0 * h.y1 + h.t0 + h.t1)
  }

  function DerivB(h: HermiteInputs): real
  {
    2.0 * (-3.0 * h.y0 + 3.0 * h.y1 - 2.0 * h.t0 - h.t1)
  }

  function DerivC(h: HermiteInputs): real
  {
    h.t0
  }

  function Abs(a: real): (r: real)
    ensures r >= 0.0 && (r == a || r == -a)
  {
    if a < 0.0 then -a else a
  }

  lemma DerivativePowerForm(h: HermiteInputs, t: real)
    ensures DY(h, t) == DerivA(h) * t * t + DerivB(h) * t + DerivC(h)
  {
    HermitePowerForm(h.y0, h.y1, h.t0, h.t1, t);
    var lead, square := LeadCoeff(h.y0, h.y1, h.t0, h.t1), SquareCoeff(h.y0, h.y1, h.t0, h.t1);
    assert DerivA(h) == 3.0 * lead && DerivB(h) == 2.0 * square;
    assert (3.0 * lead * t + 2.0 * square) * t + h.t0 == 3.0 * lead * t * t + 2.0 * square * t + h.t0;
  }

  /** The roots of a t^2 + b t + c that a segment contributes under rule:
      at most two; both rules take the quadratic formula's roots when
      |a| > RootEpsilon; below that Thresholded takes none, while Exact
      still takes the quadratic formula's roots for any a != 0 and the
      root -c / b of a linear derivative. */
  function Roots(a: real, b: real, c: real, sqrt: real -> real, rule: RootRule): (r: seq<real>)
    ensures |r| <= 2
    ensures Abs(a) > RootEpsilon ==> r == QuadraticRoots(a, b, c, sqrt)
    ensures rule == Thresholded && Abs(a) <= RootEpsilon ==> r == []
    ensures rule == Exact && a != 0.0 ==> r == QuadraticRoots(a, b, c, sqrt)
    ensures rule == Exact && a == 0.0 && b != 0.0 ==> r == [-c / b]
  {
    match rule
    case Thresholded =>
      if Abs(a) > RootEpsilon then QuadraticRoots(a, b, c, sqrt) else []
    case Exact =>
      if a != 0.0 then QuadraticRoots(a, b, c, sqrt)
      else if b != 0.0 then [-c / b]
      else []
  }

  function RootCandidates(h: HermiteInputs, sqrt: real -> real, rule: RootRule): seq<real>
  {
    Roots(DerivA(h), DerivB(h), DerivC(h), sqrt, rule)
  }


  // ---------------------------------------------------------------------
  // The running fold

  /** Folds the y at every candidate in [0, 1] into (lo, hi). */
  function FoldCandidates(h: HermiteInputs, ts: seq<real>, lo: real, hi: real): (r: (real, real))
    ensures r.0 <= lo && r.1 >= hi
    decreases |ts|
  {
    if |ts| == 0 then (lo, hi)
    else
      var prev := FoldCandidates(h, ts[..|ts| - 1], lo, hi);
      var t := ts[|ts| - 1];
      if 0.0 <= t <= 1.0 then (Min(prev.0, Y(h, t)), Max(prev.1, Y(h, t))) else prev
  }

  /** The fold bounds the y at every candidate in [0, 1]. */
  lemma {:induction false} FoldCandidatesCovers(h: HermiteInputs, ts: seq<real>, lo: real, hi: real)
    ensures var r := FoldCandidates(h, ts, lo, hi);
            forall i :: 0 <= i < |ts| && 0.0 <= ts[i] <= 1.0 ==> r.0 <= Y(h, ts[i]) <= r.1
    decreases |ts|
  {
    if |ts| > 0 {
      var init := ts[..|ts| - 1];
      FoldCandidatesCovers(h, init, lo, hi);
      var prev := FoldCandidates(h, init, lo, hi);
      var r := FoldCandidates(h, ts, lo, hi);
      forall i | 0 <= i < |ts| && 0.0 <= ts[i] <= 1.0
        ensures r.0 <= Y(h, ts[i]) <= r.1
      {
        if i < |ts| - 1 {
          assert ts[i] == init[i];
        }
      }
    }
  }

  /** One iteration of the outer loop: segment s folded into (lo, hi). */
  function SegmentStep(sp: HermiteSpline, s: nat, sqrt: real -> real, rule: RootRule, lo: real, hi: real): (real, real)
    requires Evaluable(sp, s)
  {
    var h := Inputs(sp, s);
    FoldCandidates(h, RootCandidates(h, sqrt, rule), Min(lo, Min(h.y0, h.y1)), Max(hi, Max(h.y0, h.y1)))
  }

  /** The pair reached by applying step to segments 0 .. n - 1 in turn,
      starting from init. */
  function FoldSteps(step: (nat, real, real) -> (real, real), init: (real, real), n: nat): (real, real)
  {
    if n == 0 then init
    else
      var prev := FoldSteps(step, init, n - 1);
      step(n - 1, prev.0, prev.1)
  }

  /** A step that never narrows the pair it is given. */
  ghost predicate Widening(step: (nat, real, real) -> (real, real))
  {
    forall s: nat, lo: real, hi: real :: step(s, lo, hi).0 <= lo && step(s, lo, hi).1 >= hi
  }

  /** With a widening step, later pairs contain earlier ones. */
  lemma {:induction false} FoldStepsWidens(step: (nat, real, real) -> (real, real), init: (real, real), m: nat, n: nat)
    requires Widening(step) && m <= n
    ensures FoldSteps(step, init, n).0 <= FoldSteps(step, init, m).0
    ensures FoldSteps(step, init, n).1 >= FoldSteps(step, init, m).1
  {
    if m < n {
      FoldStepsWidens(step, init, m, n - 1);
      var prev := FoldSteps(step, init, n - 1);
      assert FoldSteps(step, init, n) == step(n - 1, prev.0, prev.1);
    }
  }

  /** SegmentStep as a total function of the segment index (a segment with
      an undefined end slope is skipped; the methods never reach one). */
  ghost function StepOf(sp: HermiteSpline, sqrt: real -> real, rule: RootRule): (nat, real, real) -> (real, real)
  {
    (s: nat, lo: real, hi: real) => if Evaluable(sp, s) then SegmentStep(sp, s, sqrt, rule, lo, hi) else (lo, hi)
  }

  /** The running (min, max) after the first n segments. */
  ghost function ExtremaUpTo(sp: HermiteSpline, sqrt: real -> real, rule: RootRule, n: nat): (real, real)
  {
    FoldSteps(StepOf(sp, sqrt, rule), (MaxDouble, -MaxDouble), n)
  }

  /** What getExtremValues computes, with the root rule as a parameter. */
  ghost function Extrema(sp: HermiteSpline, sqrt: real -> real, rule: RootRule): (r: (real, real))
    requires TangentsDefined(sp)
    ensures |sp.points| < 2 ==> r == (MaxDouble, -MaxDouble)
  {
    if |sp.points| < 2 then (MaxDouble, -MaxDouble) else ExtremaUpTo(sp, sqrt, rule, |sp.points| - 1)
  }

  /** getExtremValues: writes the running minimum and maximum to v[0] and
      v[1] and leaves the rest of v alone. */
  method GetExtremValues(sp: HermiteSpline, sqrt: real -> real, v: array<real>)
    requires TangentsDefined(sp) && v.Length >= 2
    modifies v
    ensures v[0] == Extrema(sp, sqrt, Thresholded).0 && v[1] == Extrema(sp, sqrt, Thresholded).1
    ensures v[2..] == old(v[2..])
  {
    var min, max := ExtremValues(sp, sqrt);
    v[0] := min;
    v[1] := max;
  }

  /** The two loops of getExtremValues. */
  method ExtremValues(sp: HermiteSpline, sqrt: real -> real) returns (min: real, max: real)
    requires TangentsDefined(sp)
    ensures (min, max) == Extrema(sp, sqrt, Thresholded)
  {
    var segmentCount := SegmentCount(sp);
    min, max := MaxDouble, -MaxDouble;
    var s := 0;
    while s < segmentCount
      invariant 0 <= s && (segmentCount < 0 || s <= segmentCount)
      invariant s == 0 || s < |sp.points|
      invariant (min, max) == ExtremaUpTo(sp, sqrt, Thresholded, s)
    {
      ExtremaUpToStep(sp, sqrt, Thresholded, s);
      min, max := FoldSegment(sp, s, sqrt, min, max);
      s := s + 1;
    }
  }

  /** One more segment folded into the running (min, max). */
  lemma ExtremaUpToStep(sp: HermiteSpline, sqrt: real -> real, rule: RootRule, n: nat)
    requires TangentsDefined(sp) && n + 1 < |sp.points|
    ensures Evaluable(sp, n)
    ensures var prev := ExtremaUpTo(sp, sqrt, rule, n);
            ExtremaUpTo(sp, sqrt, rule, n + 1) == SegmentStep(sp, n, sqrt, rule, prev.0, prev.1)
  {
  }

  /** The body of the outer loop of getExtremValues for segment s. */
  method FoldSegment(sp: HermiteSpline, s: nat, sqrt: real -> real, min0: real, max0: real)
    returns (min: real, max: real)
    requires Evaluable(sp, s)
    ensures (min, max) == SegmentStep(sp, s, sqrt, Thresholded, min0, max0)
  {
    var p0, p1 := GetPoint(sp, s), GetPoint(sp, s + 1);
    var dx := p1.x - p0.x;
    var py0, py1 := p0.y, p1.y;
    min := Min(min0, Min(py0, py1));
    max := Max(max0, Max(py0, py1));
    var pt0, pt1 := ScaledTangent(dx, p0), ScaledTangent(dx, p1);
    ghost var h := HermiteInputs(py0, py1, pt0, pt1);
    assert h == Inputs(sp, s);
    var a := 3.0 * (2.0 * py0 - 2.0 * py1 + pt0 + pt1);
    var b := 2.0 * (-3.0 * py0 + 3.0 * py1 - 2.0 * pt0 - pt1);
    var c := pt0;
    assert a == DerivA(h) && b == DerivB(h) && c == DerivC(h);
    var ts := SegmentRoots(a, b, c, sqrt);
    min, max := FoldRoots(py0, py1, pt0, pt1, ts, min, max);
  }

  /** When |A| exceeds RootEpsilon and Q1 is non-negative, the two roots
      the quadratic formula gives; otherwise none. */
  method SegmentRoots(a: real, b: real, c: real, sqrt: real -> real) returns (ts: seq<real>)
    ensures ts == Roots(a, b, c, sqrt, Thresholded)
  {
    ts := [];
    if Abs(a) > RootEpsilon {
      var q0 := b / (2.0 * a);
      var q1 := b * b / (4.0 * a * a) - c / a;
      if q1 >= 0.0 {
        ts := [-q0 + sqrt(q1), -q0 - sqrt(q1)];
      }
    }
  }

  /** The inner loop of getExtremValues: the y at every root in [0, 1]
      folded into (min, max). */
  method FoldRoots(py0: real, py1: real, pt0: real, pt1: real, ts: seq<real>, min0: real, max0: real)
    returns (min: real, max: real)
    ensures (min, max) == FoldCandidates(HermiteInputs(py0, py1, pt0, pt1), ts, min0, max0)
  {
    ghost var h := HermiteInputs(py0, py1, pt0, pt1);
    min, max := min0, max0;
    var i := 0;
    while i < |ts|
      invariant 0 <= i <= |ts|
      invariant (min, max) == FoldCandidates(h, ts[..i], min0, max0)
    {
      var t := ts[i];
      assert ts[..i + 1][..i] == ts[..i];
      if 0.0 <= t && t <= 1.0 {
        var y := Hermite(py0, py1, pt0, pt1, t);
        min := Min(min, y);
        max := Max(max, y);
      }
      i := i + 1;
    }
    assert ts[..|ts|] == ts;
  }

  // ---------------------------------------------------------------------
  // What the result bounds

  /** (lo, hi) bounds segment s's end points and its y at every candidate
      root in [0, 1]. */
  ghost predicate Covers(sp: HermiteSpline, sqrt: real -> real, rule: RootRule, s: nat, lo: real, hi: real)
    requires Evaluable(sp, s)
  {
    var h := Inputs(sp, s);
    && lo <= h.y0 <= hi && lo <= h.y1 <= hi
    && forall t :: t in RootCandidates(h, sqrt, rule) && 0.0 <= t <= 1.0 ==> lo <= Y(h, t) <= hi
  }

  lemma SegmentStepCovers(sp: HermiteSpline, s: nat, sqrt: real -> real, rule: RootRule, lo: real, hi: real)
    requires Evaluable(sp, s)
    ensures var r := SegmentStep(sp, s, sqrt, rule, lo, hi);
            r.0 <= lo && r.1 >= hi && Covers(sp, sqrt, rule, s, r.0, r.1)
  {
    var h := Inputs(sp, s);
    var ts := RootCandidates(h, sqrt, rule);
    var r := SegmentStep(sp, s, sqrt, rule, lo, hi);
    var start := (Min(lo, Min(h.y0, h.y1)), Max(hi, Max(h.y0, h.y1)));
    FoldCandidatesCovers(h, ts, start.0, start.1);
    forall t | t in ts && 0.0 <= t <= 1.0
      ensures r.0 <= Y(h, t) <= r.1
    {
      var i :| 0 <= i < |ts| && ts[i] == t;
    }
  }

  /** Folding in more segments only widens the running (min, max). */
  lemma ExtremaUpToWidens(sp: HermiteSpline, sqrt: real -> real, rule: RootRule, m: nat, n: nat)
    requires m <= n
    ensures ExtremaUpTo(sp, sqrt, rule, n).0 <= ExtremaUpTo(sp, sqrt, rule, m).0
    ensures ExtremaUpTo(sp, sqrt, rule, n).1 >= ExtremaUpTo(sp, sqrt, rule, m).1
  {
    StepOfWidens(sp, sqrt, rule);
    FoldStepsWidens(StepOf(sp, sqrt, rule), (MaxDouble, -MaxDouble), m, n);
  }

  lemma StepOfWidens(sp: HermiteSpline, sqrt: real -> real, rule: RootRule)
    ensures Widening(StepOf(sp, sqrt, rule))
  {
    var step := StepOf(sp, sqrt, rule);
    forall s: nat, lo: real, hi: real
      ensures step(s, lo, hi).0 <= lo && step(s, lo, hi).1 >= hi
    {
      if Evaluable(sp, s) {
        SegmentStepWidens(sp, s, sqrt, rule, lo, hi);
      }
    }
  }

  lemma SegmentStepWidens(sp: HermiteSpline, s: nat, sqrt: real -> real, rule: RootRule, lo: real, hi: real)
    requires Evaluable(sp, s)
    ensures SegmentStep(sp, s, sqrt, rule, lo, hi).0 <= lo && SegmentStep(sp, s, sqrt, rule, lo, hi).1 >= hi
  {
  }

  /** The extrema bound segment s's end points and candidate roots. */
  lemma ExtremaCovers(sp: HermiteSpline, sqrt: real -> real, rule: RootRule, s: nat)
    requires TangentsDefined(sp) && s + 1 < |sp.points|
    ensures Evaluable(sp, s)
    ensures Covers(sp, sqrt, rule, s, Extrema(sp, sqrt, rule).0, Extrema(sp, sqrt, rule).1)
  {
    ExtremaUpToStep(sp, sqrt, rule, s);
    var prev := ExtremaUpTo(sp, sqrt, rule, s);
    SegmentStepCovers(sp, s, sqrt, rule, prev.0, prev.1);
    var mid := ExtremaUpTo(sp, sqrt, rule, s + 1);
    ExtremaUpToWidens(sp, sqrt, rule, s + 1, |sp.points| - 1);
    var r := Extrema(sp, sqrt, rule);
    CoversWiden(sp, sqrt, rule, s, mid.0, mid.1, r.0, r.1);
  }

  lemma CoversWiden(sp: HermiteSpline, sqrt: real -> real, rule: RootRule, s: nat, lo: real, hi: real, lo': real, hi': real)
    requires Evaluable(sp, s) && Covers(sp, sqrt, rule, s, lo, hi) && lo' <= lo && hi <= hi'
    ensures Covers(sp, sqrt, rule, s, lo', hi')
  {
  }

  /** The minimum is at most, and the maximum at least, every control
      point's y. */
  lemma ExtremaBoundsControlPoints(sp: HermiteSpline, sqrt: real -> real, rule: RootRule)
    requires TangentsDefined(sp) && |sp.points| >= 2
    ensures var r := Extrema(sp, sqrt, rule);
            r.0 <= r.1 && forall k :: 0 <= k < |sp.points| ==> r.0 <= sp.points[k].y <= r.1
  {
    var n := |sp.points|;
    var r := Extrema(sp, sqrt, rule);
    forall k | 0 <= k < n
      ensures r.0 <= sp.points[k].y <= r.1
    {
      if k < n - 1 {
        ExtremaCovers(sp, sqrt, rule, k);
      } else {
        ExtremaCovers(sp, sqrt, rule, k - 1);
      }
    }
    assert r.0 <= sp.points[0].y <= r.1;
  }

  /** The extrema bound the y of every candidate root in [0, 1] of every
      segment. */
  lemma ExtremaBoundsCandidates(sp: HermiteSpline, sqrt: real -> real, rule: RootRule, s: nat, t: real)
    requires TangentsDefined(sp) && s + 1 < |sp.points|
    requires t in RootCandidates(Inputs(sp, s), sqrt, rule) && 0.0 <= t <= 1.0
    ensures Extrema(sp, sqrt, rule).0 <= Y(Inputs(sp, s), t) <= Extrema(sp, sqrt, rule).1
  {
    ExtremaCovers(sp, sqrt, rule, s);
  }

  // ---------------------------------------------------------------------
  // What the result is attained by

  /** Every control point's y is a finite double, at most Double.MAX_VALUE
      in size. */
  ghost predicate FiniteYs(sp: HermiteSpline)
  {
    forall k :: 0 <= k < |sp.points| ==> -MaxDouble <= sp.points[k].y <= MaxDouble
  }

  /** v is the y at one of the candidates in [0, 1] of ts. */
  ghost predicate CandidateValue(h: HermiteInputs, ts: seq<real>, v: real)
  {
    exists i :: 0 <= i < |ts| && 0.0 <= ts[i] <= 1.0 && v == Y(h, ts[i])
  }

  /** v is a value the fold over the first n segments looks at: the y of
      one of points 0 .. n, or the y at a candidate in [0, 1] of one of
      segments 0 .. n - 1. */
  ghost predicate FoldedValue(sp: HermiteSpline, sqrt: real -> real, rule: RootRule, n: nat, v: real)
  {
    || (exists k :: 0 <= k <= n && k < |sp.points| && v == sp.points[k].y)
    || (exists s: nat :: s < n && Evaluable(sp, s)
          && CandidateValue(Inputs(sp, s), RootCandidates(Inputs(sp, s), sqrt, rule), v))
  }

  /** Folding candidates in leaves each end of the pair where it was or
      moves it to the y at one of the candidates. */
  lemma {:induction false} FoldCandidatesAttains(h: HermiteInputs, ts: seq<real>, lo: real, hi: real)
    ensures var r := FoldCandidates(h, ts, lo, hi);
            (r.0 == lo || CandidateValue(h, ts, r.0)) && (r.1 == hi || CandidateValue(h, ts, r.1))
    decreases |ts|
  {
    if |ts| > 0 {
      var init := ts[..|ts| - 1];
      var last := |ts| - 1;
      FoldCandidatesAttains(h, init, lo, hi);
      var prev := FoldCandidates(h, init, lo, hi);
      var r := FoldCandidates(h, ts, lo, hi);
      if r.0 != lo {
        if r.0 == prev.0 {
          var i :| 0 <= i < |init| && 0.0 <= init[i] <= 1.0 && prev.0 == Y(h, init[i]);
          assert ts[i] == init[i];
        } else {
          assert 0.0 <= ts[last] <= 1.0 && r.0 == Y(h, ts[last]);
        }
      }
      if r.1 != hi {
        if r.1 == prev.1 {
          var i :| 0 <= i < |init| && 0.0 <= init[i] <= 1.0 && prev.1 == Y(h, init[i]);
          assert ts[i] == init[i];
        } else {
          assert 0.0 <= ts[last] <= 1.0 && r.1 == Y(h, ts[last]);
        }
      }
    }
  }

  /** A segment's step moves each end of the pair only to one of the
      segment's end ys or to the y at one of its candidates. */
  lemma SegmentStepAttains(sp: HermiteSpline, s: nat, sqrt: real -> real, rule: RootRule, lo: real, hi: real)
    requires Evaluable(sp, s)
    ensures var h, r := Inputs(sp, s), SegmentStep(sp, s, sqrt, rule, lo, hi);
            var ts := RootCandidates(h, sqrt, rule);
            && ((r.0 == lo && lo <= h.y0) || r.0 == h.y0 || r.0 == h.y1 || CandidateValue(h, ts, r.0))
            && ((r.1 == hi && hi >= h.y0) || r.1 == h.y0 || r.1 == h.y1 || CandidateValue(h, ts, r.1))
  {
    var h := Inputs(sp, s);
    var ts := RootCandidates(h, sqrt, rule);
    FoldCandidatesAttains(h, ts, Min(lo, Min(h.y0, h.y1)), Max(hi, Max(h.y0, h.y1)));
  }

  /** A value folded over fewer segments is folded over more. */
  lemma FoldedValueGrows(sp: HermiteSpline, sqrt: real -> real, rule: RootRule, m: nat, n: nat, v: real)
    requires m <= n && FoldedValue(sp, sqrt, rule, m, v)
    ensures FoldedValue(sp, sqrt, rule, n, v)
  {
    if exists k :: 0 <= k <= m && k < |sp.points| && v == sp.points[k].y {
      var k :| 0 <= k <= m && k < |sp.points| && v == sp.points[k].y;
      assert 0 <= k <= n;
    } else {
      var s: nat :| s < m && Evaluable(sp, s)
                   && CandidateValue(Inputs(sp, s), RootCandidates(Inputs(sp, s), sqrt, rule), v);
      assert s < n;
    }
  }

  /** The running pair after n segments: the initial (MAX_VALUE,
      -MAX_VALUE) when n is 0, and otherwise two values the fold has
      looked at. */
  ghost predicate PairFolded(sp: HermiteSpline, sqrt: real -> real, rule: RootRule, n: nat, pair: (real, real))
  {
    if n == 0 then pair == (MaxDouble, -MaxDouble)
    else FoldedValue(sp, sqrt, rule, n, pair.0) && FoldedValue(sp, sqrt, rule, n, pair.1)
  }

  /** After n segments the running pair is as PairFolded says; the
      initial pair is gone after the first segment because every y is a
      finite double. */
  lemma {:induction false} ExtremaUpToAttained(sp: HermiteSpline, sqrt: real -> real, rule: RootRule, n: nat)
    requires TangentsDefined(sp) && FiniteYs(sp) && n < |sp.points|
    ensures PairFolded(sp, sqrt, rule, n, ExtremaUpTo(sp, sqrt, rule, n))
    decreases n
  {
    if n > 0 {
      ExtremaUpToStep(sp, sqrt, rule, n - 1);
      ExtremaUpToAttained(sp, sqrt, rule, n - 1);
      StepAttained(sp, sqrt, rule, n, ExtremaUpTo(sp, sqrt, rule, n - 1), ExtremaUpTo(sp, sqrt, rule, n));
    }
  }

  /** Folding segment n - 1 into a pair prev as PairFolded says for n - 1
      gives a pair r as PairFolded says for n. */
  lemma StepAttained(sp: HermiteSpline, sqrt: real -> real, rule: RootRule, n: nat, prev: (real, real), r: (real, real))
    requires FiniteYs(sp) && 1 <= n < |sp.points| && Evaluable(sp, n - 1)
    requires r == SegmentStep(sp, n - 1, sqrt, rule, prev.0, prev.1)
    requires PairFolded(sp, sqrt, rule, n - 1, prev)
    ensures PairFolded(sp, sqrt, rule, n, r)
  {
    var h := Inputs(sp, n - 1);
    SegmentStepAttains(sp, n - 1, sqrt, rule, prev.0, prev.1);
    assert -MaxDouble <= sp.points[n - 1].y <= MaxDouble;
    StepValueFolded(sp, sqrt, rule, n, prev.0, r.0, h);
    StepValueFolded(sp, sqrt, rule, n, prev.1, r.1, h);
  }

  /** One end v of the pair after segment n - 1 is either the folded value
      p it had before or one of the segment's own values. */
  lemma StepValueFolded(sp: HermiteSpline, sqrt: real -> real, rule: RootRule, n: nat, p: real, v: real, h: HermiteInputs)
    requires 1 <= n < |sp.points| && Evaluable(sp, n - 1) && h == Inputs(sp, n - 1)
    requires n > 1 ==> FoldedValue(sp, sqrt, rule, n - 1, p)
    requires (v == p && n > 1) || v == h.y0 || v == h.y1 || CandidateValue(h, RootCandidates(h, sqrt, rule), v)
    ensures FoldedValue(sp, sqrt, rule, n, v)
  {
    if v == h.y0 {
      assert v == sp.points[n - 1].y;
    } else if v == h.y1 {
      assert v == sp.points[n].y;
    } else if CandidateValue(h, RootCandidates(h, sqrt, rule), v) {
      assert (n - 1) as nat < n;
    } else {
      FoldedValueGrows(sp, sqrt, rule, n - 1, n, v);
    }
  }

  /** getExtremValues' minimum and maximum are themselves values the fold
      looked at: the y of a control point or at a candidate in [0, 1].
      With ExtremaBoundsControlPoints and ExtremaBoundsCandidates this
      makes them the least and greatest of those values. */
  lemma ExtremaAttained(sp: HermiteSpline, sqrt: real -> real, rule: RootRule)
    requires TangentsDefined(sp) && FiniteYs(sp) && |sp.points| >= 2
    ensures FoldedValue(sp, sqrt, rule, |sp.points| - 1, Extrema(sp, sqrt, rule).0)
    ensures FoldedValue(sp, sqrt, rule, |sp.points| - 1, Extrema(sp, sqrt, rule).1)
  {
    var n := |sp.points| - 1;
    assert Extrema(sp, sqrt, rule) == ExtremaUpTo(sp, sqrt, rule, n);
    ExtremaUpToAttained(sp, sqrt, rule, n);
  }

  /** With an exact square root every candidate is a root of the
      derivative's power form. */
  lemma CandidatesAreRoots(h: HermiteInputs, sqrt: real -> real, rule: RootRule, t: real)
    requires IsSqrt(sqrt) && t in RootCandidates(h, sqrt, rule)
    ensures DerivA(h) * t * t + DerivB(h) * t + DerivC(h) == 0.0
  {
    RootsAreRoots(DerivA(h), DerivB(h), DerivC(h), sqrt, rule, t);
  }

  /** Under either rule, with an exact square root, every root the rule
      gives solves a t^2 + b t + c = 0. */
  lemma RootsAreRoots(a: real, b: real, c: real, sqrt: real -> real, rule: RootRule, t: real)
    requires IsSqrt(sqrt) && t in Roots(a, b, c, sqrt, rule)
    ensures a * t * t + b * t + c == 0.0
  {
    if a != 0.0 {
      QuadraticRootsAreRoots(a, b, c, sqrt);
    } else {
      assert b != 0.0 && t == -c / b;
      LinearRoot(b, c);
    }
  }

  /** With an exact square root every candidate is a stationary point of its
      segment: the derivative is zero there. */
  lemma CandidatesAreStationary(h: HermiteInputs, sqrt: real -> real, rule: RootRule, t: real)
    requires IsSqrt(sqrt) && t in RootCandidates(h, sqrt, rule)
    ensures DY(h, t) == 0.0
  {
    CandidatesAreRoots(h, sqrt, rule, t);
    DerivativePowerForm(h, t);
  }

  /** With the source's rule, every stationary point in [0, 1] of a segment
      whose |A| exceeds RootEpsilon is bounded by the extrema. */
  lemma ExtremaBoundsSteepStationary(sp: HermiteSpline, sqrt: real -> real, s: nat, t: real)
    requires TangentsDefined(sp) && IsSqrt(sqrt) && s + 1 < |sp.points| && 0.0 <= t <= 1.0
    requires Abs(DerivA(Inputs(sp, s))) > RootEpsilon && DY(Inputs(sp, s), t) == 0.0
    ensures Extrema(sp, sqrt, Thresholded).0 <= Y(Inputs(sp, s), t) <= Extrema(sp, sqrt, Thresholded).1
  {
    var h := Inputs(sp, s);
    DerivativePowerForm(h, t);
    RootsAreQuadraticRoots(DerivA(h), DerivB(h), DerivC(h), sqrt, t);
    ExtremaBoundsCandidates(sp, sqrt, Thresholded, s, t);
  }

  // ---------------------------------------------------------------------
  // A segment whose derivative is linear

  /** The valid spline (0, 0, 1, 1), (1, 0, 1, -1): a single parabolic
      segment rising from y = 0 to y = 0.25 at x = 0.5 and falling back. */
  function Parabola(): HermiteSpline
  {
    HermiteSpline([SplinePoint(0.0, 0.0, 1.0, 1.0), SplinePoint(1.0, 0.0, 1.0, -1.0)])
  }

  lemma ParabolaInputs(sp: HermiteSpline)
    requires sp == Parabola()
    ensures Evaluable(sp, 0) && Inputs(sp, 0) == HermiteInputs(0.0, 0.0, 1.0, -1.0)
  {
  }

  lemma ParabolaValid(sp: HermiteSpline)
    requires sp == Parabola()
    ensures Valid(sp) && TangentsDefined(sp) && |sp.points| == 2
  {
    var pts := sp.points;
    assert |pts| == 2 && pts[0] == SplinePoint(0.0, 0.0, 1.0, 1.0) && pts[1] == SplinePoint(1.0, 0.0, 1.0, -1.0);
    forall i | 0 <= i < |pts| - 1
      ensures pts[i].x + MinPointXDistance <= pts[i + 1].x
    {
      assert i == 0;
    }
    forall i | 0 <= i < |pts|
      ensures pts[i].tx > 0.0
    {
      assert i == 0 || i == 1;
    }
  }

  /** The parabola's slope is zero at t = 0.5, where it peaks at
      (0.5, 0.25). */
  lemma ParabolaPeak(sp: HermiteSpline)
    requires sp == Parabola()
    ensures Evaluable(sp, 0)
    ensures DY(Inputs(sp, 0), 0.5) == 0.0 && Y(Inputs(sp, 0), 0.5) == 0.25
    ensures Value(sp, 0, 0.5) == (0.5, 0.25)
  {
    ParabolaInputs(sp);
  }

  /** With the source's rule a parabolic segment (A = 0) is folded in only
      through its end points: the parabola's slope is zero at its peak
      y = 0.25, yet its extrema come out as (0, 0). */
  lemma ParabolaPeakMissed(sp: HermiteSpline, sqrt: real -> real)
    requires sp == Parabola()
    ensures Valid(sp)
    ensures DY(Inputs(sp, 0), 0.5) == 0.0 && Value(sp, 0, 0.5) == (0.5, 0.25)
    ensures Extrema(sp, sqrt, Thresholded) == (0.0, 0.0)
  {
    ParabolaValid(sp);
    ParabolaPeak(sp);
    ParabolaExtrema(sp, sqrt);
  }

  lemma ParabolaExtrema(sp: HermiteSpline, sqrt: real -> real)
    requires sp == Parabola()
    ensures TangentsDefined(sp) && Extrema(sp, sqrt, Thresholded) == (0.0, 0.0)
  {
    ParabolaValid(sp);
    ParabolaCandidates(sp, sqrt);
    ParabolaStep(sp, sqrt, MaxDouble, -MaxDouble);
    OneSegmentExtrema(sp, sqrt, Thresholded);
  }

  /** The extrema of a one-segment spline are its segment's step from the
      initial pair. */
  lemma OneSegmentExtrema(sp: HermiteSpline, sqrt: real -> real, rule: RootRule)
    requires TangentsDefined(sp) && |sp.points| == 2
    ensures Evaluable(sp, 0)
    ensures Extrema(sp, sqrt, rule) == SegmentStep(sp, 0, sqrt, rule, MaxDouble, -MaxDouble)
  {
    ExtremaUpToStep(sp, sqrt, rule, 0);
    assert ExtremaUpTo(sp, sqrt, rule, 0) == (MaxDouble, -MaxDouble);
  }

  /** The parabola's one segment has no candidates under the source's rule,
      and both its end values are 0. */
  lemma ParabolaCandidates(sp: HermiteSpline, sqrt: real -> real)
    requires sp == Parabola()
    ensures Evaluable(sp, 0) && RootCandidates(Inputs(sp, 0), sqrt, Thresholded) == []
    ensures Inputs(sp, 0).y0 == 0.0 && Inputs(sp, 0).y1 == 0.0
  {
    ParabolaInputs(sp);
    assert DerivA(Inputs(sp, 0)) == 0.0;
  }

  /** So folding it into any pair around 0 gives (0, 0). */
  lemma ParabolaStep(sp: HermiteSpline, sqrt: real -> real, lo: real, hi: real)
    requires Evaluable(sp, 0) && RootCandidates(Inputs(sp, 0), sqrt, Thresholded) == []
    requires Inputs(sp, 0).y0 == 0.0 && Inputs(sp, 0).y1 == 0.0 && 0.0 <= lo && hi <= 0.0
    ensures SegmentStep(sp, 0, sqrt, Thresholded, lo, hi) == (0.0, 0.0)
  {
    var h := Inputs(sp, 0);
    StepWithoutCandidates(sp, 0, sqrt, Thresholded, lo, hi, h.y0, h.y1);
  }

  /** A segment without candidates folds in its end values alone. */
  lemma StepWithoutCandidates(sp: HermiteSpline, s: nat, sqrt: real -> real, rule: RootRule,
                              lo: real, hi: real, y0: real, y1: real)
    requires Evaluable(sp, s) && RootCandidates(Inputs(sp, s), sqrt, rule) == []
    requires y0 == Inputs(sp, s).y0 && y1 == Inputs(sp, s).y1
    ensures SegmentStep(sp, s, sqrt, rule, lo, hi) == (Min(lo, Min(y0, y1)), Max(hi, Max(y0, y1)))
  {
  }

  /** A segment whose derivative vanishes identically is flat at its start
      value. */
  lemma FlatSegment(h: HermiteInputs, t: real)
    requires DerivA(h) == 0.0 && DerivB(h) == 0.0 && DerivC(h) == 0.0
    ensures Y(h, t) == h.y0
  {
    HermitePowerForm(h.y0, h.y1, h.t0, h.t1, t);
    assert LeadCoeff(h.y0, h.y1, h.t0, h.t1) == 0.0;
    assert SquareCoeff(h.y0, h.y1, h.t0, h.t1) == 0.0;
  }

  /** With the Exact rule (the quadratic formula for every A != 0, and the
      root -C / B when A = 0) every stationary point in [0, 1] of every
      segment is bounded by the extrema, whatever the size of A. */
  lemma ExactExtremaBoundStationary(sp: HermiteSpline, sqrt: real -> real, s: nat, t: real)
    requires TangentsDefined(sp) && IsSqrt(sqrt) && s + 1 < |sp.points| && 0.0 <= t <= 1.0
    requires DY(Inputs(sp, s), t) == 0.0
    ensures Extrema(sp, sqrt, Exact).0 <= Y(Inputs(sp, s), t) <= Extrema(sp, sqrt, Exact).1
  {
    var h := Inputs(sp, s);
    var a, b, c := DerivA(h), DerivB(h), DerivC(h);
    DerivativePowerForm(h, t);
    if a != 0.0 {
      RootsAreQuadraticRoots(a, b, c, sqrt, t);
      ExtremaBoundsCandidates(sp, sqrt, Exact, s, t);
    } else if b != 0.0 {
      assert b * t == -c;
      assert t == -c / b;
      ExtremaBoundsCandidates(sp, sqrt, Exact, s, t);
    } else {
      FlatSegment(h, t);
      ExtremaBoundsControlPoints(sp, sqrt, Exact);
    }
  }

  /** The two rules also differ on a derivative with 0 < |A| <= RootEpsilon:
      0.00005 t^2 - 0.0000125 has the roots 0.5 and -0.5, which Exact takes
      and Thresholded skips. */
  lemma RulesDifferOnShallowQuadratic(sqrt: real -> real)
    requires IsSqrt(sqrt)
    ensures Roots(0.00005, 0.0, -0.0000125, sqrt, Thresholded) == []
    ensures Roots(0.00005, 0.0, -0.0000125, sqrt, Exact) == [0.5, -0.5]
  {
    var a, c := 0.00005, -0.0000125;
    assert c / a == -0.25;
    assert 0.0 * 0.0 / (4.0 * a * a) == 0.0;
    assert 0.0 / (2.0 * a) == 0.0;
    assert sqrt(0.25) * sqrt(0.25) == 0.25 && sqrt(0.25) >= 0.0;
    assert 0.5 * 0.5 == 0.25;
    assert sqrt(0.25) == 0.5 by {
      var r := sqrt(0.25);
      assert (r - 0.5) * (r + 0.5) == 0.0;
      ZeroProduct(r - 0.5, r + 0.5);
    }
  }

  /** On the parabola above the Exact rule reaches the peak. */
  lemma ExactReachesParabolaPeak(sp: HermiteSpline, sqrt: real -> real)
    requires sp == Parabola() && IsSqrt(sqrt)
    ensures Extrema(sp, sqrt, Exact).1 >= 0.25
  {
    ParabolaValid(sp);
    ParabolaPeak(sp);
    ExactExtremaBoundStationary(sp, sqrt, 0, 0.5);
  }
}
