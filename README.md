# Segmented Hermite spline and session-code converters, in Dafny

This project models two pieces of the Defold game engine and its editor.

**The segmented Hermite spline** is the curve the particle editor uses for
time-varying properties. `HermiteSpline.java` keeps an ordered list of
control points `(x, y, tx, ty)`. N points cut the x-range [0, 1] into N - 1
cubic segments.

- **Evaluation.** Segment s is evaluated at a local parameter t. x moves
  linearly between the two end points, and y follows the cubic Hermite
  interpolant of the end ys. The end slopes `ty / tx` are first scaled by the
  segment width `dx`; that scaling is what makes the curve C1 at shared
  points.
- **Queries.**
  - `getValue` gives the position on a segment and `getTangent` the unit
    tangent there.
  - `getY` samples the curve by x: it takes the first segment whose
    half-open x-range holds x.
  - `getExtremValues` folds a running minimum and maximum over every
    segment. Each segment contributes its end points and the roots in
    [0, 1] of its derivative, found with the quadratic formula.
- **Edits.** `setPosition` clamps x to keep 0.01 between neighbours and pins
  the ends. `setTangent` clamps a backward run to 0. `insertPoint` splits a
  segment at x with a point on the curve. `removePoint` never removes an
  end point. Every edit copies the list and returns a new spline.

**The two converters of the Android Facebook bridge** (`FacebookJNI.java`):

- `convertSessionState` packs a Facebook SDK session state into the integer
  code shared with the iOS side: a step number in the low bits, bit 9 for an
  open session and bit 8 for a closed one.
- `convertSessionDefaultAudience` maps the engine's audience code back to
  the SDK's default audience.

## Modules

| file | module | what |
|---|---|---|
| `wrappers.dfy` | `Wrappers` | `Option` |
| `hermite_basis.dfy` | `HermiteBasis` | the Hermite basis and its derivative, their power form, and the sub-interval identity behind `insertPoint` |
| `quadratic.dfy` | `Quadratic` | the quadratic formula as `getExtremValues` writes it; `IsSqrt` |
| `spline.dfy` | `Spline` | points, splines, constructors, `getValue`, `getTangent`, `getY`, continuity |
| `spline_edit.dfy` | `SplineEdit` | `alterPoint`, `setPosition`, `setTangent`, `removePoint`, `insertPoint` |
| `spline_extrema.dfy` | `SplineExtrema` | `getExtremValues` and what its result bounds |
| `spline_insert_shape.dfy` | `SplineInsertShape` | proof that `insertPoint` leaves the sampled curve unchanged |
| `facebook_session.dfy` | `FacebookSession` | the two converters and their inverses |

How the model is built:

- A spline is a datatype value. It is never changed after it is built, so
  the copy each edit makes is what value semantics already give.
- The Java code that loops becomes a Dafny method with a loop, proved equal
  to a specification function. This covers `getY`, `insertPoint`,
  `getExtremValues` and the `float[]` constructor. The code that writes into
  a caller's `double[]` becomes a method that writes an `array<real>`:
  `getValue`, `getTangent` and `getExtremValues`.
- Doubles and floats are reals. `Math.sqrt` is a parameter `sqrt`. Where the
  exact root matters, `IsSqrt(sqrt)` requires it to be a square root.

Edge cases of the source, as the model states them:

- `getY` at an x that no segment holds, such as an x outside [0, 1],
  evaluates segment 0 at t = 0 and so returns the first point's y
  (`Spline.SampleY`).
- Every segment's x-range is half-open, the last one included, so `getY` at
  the last point's x also falls back to the first point's y
  (`Spline.RightEdgeFallsBack`; see the findings below).
- A `float[]` whose length is not a multiple of 4 makes the constructor
  index past the end of the array and throw (`Spline.FromData` gives
  `None`).
- `getExtremValues` looks for no interior stationary point on a segment
  whose A is within 0.0001 of zero, so the curve can leave the range it
  reports (`SplineExtrema.ParabolaPeakMissed`; see the findings below).

## Model

HermiteSpline.java stands for `com.dynamo.cr/com.dynamo.cr.parted/src/com/dynamo/cr/parted/curve/HermiteSpline.java` below; the table cells give the full path.

| member | source | states |
|---|---|---|
| HermiteBasis.Hermite | com.dynamo.cr/com.dynamo.cr.parted/src/com/dynamo/cr/parted/curve/HermiteSpline.java:63-68 | the interpolant takes the value x0 at t = 0 and x1 at t = 1 |
| HermiteBasis.HermiteD | com.dynamo.cr/com.dynamo.cr.parted/src/com/dynamo/cr/parted/curve/HermiteSpline.java:70-75 | the derivative takes the value t0 at t = 0 and t1 at t = 1 |
| HermiteBasis.HermitePowerForm | com.dynamo.cr/com.dynamo.cr.parted/src/com/dynamo/cr/parted/curve/HermiteSpline.java:63-75 | the interpolant and its derivative are the cubic with coefficients (2x0 - 2x1 + t0 + t1, -3x0 + 3x1 - 2t0 - t1, t0, x0) and that cubic's derivative |
| HermiteBasis.HermiteValuePowerForm | com.dynamo.cr/com.dynamo.cr.parted/src/com/dynamo/cr/parted/curve/HermiteSpline.java:63-68 | the interpolant in power form |
| HermiteBasis.HermiteSlopePowerForm | com.dynamo.cr/com.dynamo.cr.parted/src/com/dynamo/cr/parted/curve/HermiteSpline.java:70-75 | the derivative in power form |
| HermiteBasis.CubicStep | com.dynamo.cr/com.dynamo.cr.parted/src/com/dynamo/cr/parted/curve/HermiteSpline.java:70-75 | a cubic changes over a step h by h times its derivative plus a term of order h^2 |
| HermiteBasis.HermiteStep | com.dynamo.cr/com.dynamo.cr.parted/src/com/dynamo/cr/parted/curve/HermiteSpline.java:63-75 | hermiteD is the derivative of hermite: the change over h is h times hermiteD plus a term of order h^2 |
| HermiteBasis.HermiteOfCubic | com.dynamo.cr/com.dynamo.cr.parted/src/com/dynamo/cr/parted/curve/HermiteSpline.java:63-68 | every cubic is the Hermite interpolant of its own end values and end derivatives |
| HermiteBasis.CubicShift | com.dynamo.cr/com.dynamo.cr.parted/src/com/dynamo/cr/parted/curve/HermiteSpline.java:239-244 | shifting a cubic's variable by alpha gives the cubic of its Taylor coefficients at alpha |
| HermiteBasis.CubicScale | com.dynamo.cr/com.dynamo.cr.parted/src/com/dynamo/cr/parted/curve/HermiteSpline.java:239-244 | scaling a cubic's variable by beta scales its k-th coefficient by beta^k |
| HermiteBasis.CubicReparam | com.dynamo.cr/com.dynamo.cr.parted/src/com/dynamo/cr/parted/curve/HermiteSpline.java:239-244 | substituting alpha + beta u into a cubic gives a cubic in u, with these coefficients |
| HermiteBasis.CubicReparamValue | com.dynamo.cr/com.dynamo.cr.parted/src/com/dynamo/cr/parted/curve/HermiteSpline.java:239-244 | the value half of that substitution: the cubic at alpha + beta u is the cubic in u with coefficients (a beta^3, (3a alpha + b) beta^2, beta times the derivative at alpha, the value at alpha) |
| HermiteBasis.CubicReparamSlope | com.dynamo.cr/com.dynamo.cr.parted/src/com/dynamo/cr/parted/curve/HermiteSpline.java:239-244 | the slope half: beta times the derivative at alpha + beta u is the derivative in u of that cubic |
| HermiteBasis.ReparamEnds | com.dynamo.cr/com.dynamo.cr.parted/src/com/dynamo/cr/parted/curve/HermiteSpline.java:239-244 | the reparametrised cubic has, at u = 0 and 1, the old values at alpha and alpha + beta and beta times the old derivatives |
| HermiteBasis.CubicSubSegment | com.dynamo.cr/com.dynamo.cr.parted/src/com/dynamo/cr/parted/curve/HermiteSpline.java:239-244 | a cubic on [alpha, alpha + beta] is the Hermite interpolant of its end values there and its end derivatives times beta |
| HermiteBasis.HermiteSubSegment | com.dynamo.cr/com.dynamo.cr.parted/src/com/dynamo/cr/parted/curve/HermiteSpline.java:239-244 | the same for a Hermite segment: restricted to [alpha, alpha + beta] it is the Hermite segment of its end values and beta-scaled end slopes |
| HermiteBasis.HermitePowerFormAt | com.dynamo.cr/com.dynamo.cr.parted/src/com/dynamo/cr/parted/curve/HermiteSpline.java:63-68 | the power form at the point alpha + beta u |
| HermiteBasis.HermiteOfEnds | com.dynamo.cr/com.dynamo.cr.parted/src/com/dynamo/cr/parted/curve/HermiteSpline.java:63-68 | a Hermite interpolant given a cubic's end values and end derivatives is that cubic |
| Quadratic.ShiftedRoot | com.dynamo.cr/com.dynamo.cr.parted/src/com/dynamo/cr/parted/curve/HermiteSpline.java:155-158 | -Q0 + r is a root of A t^2 + B t + C whenever r^2 = Q1 |
| Quadratic.QuadraticRootsAreRoots | com.dynamo.cr/com.dynamo.cr.parted/src/com/dynamo/cr/parted/curve/HermiteSpline.java:154-158 | with an exact square root, both candidates -Q0 +- sqrt(Q1) are roots |
| Quadratic.RootsAreQuadraticRoots | com.dynamo.cr/com.dynamo.cr.parted/src/com/dynamo/cr/parted/curve/HermiteSpline.java:154-158 | conversely, every root of A t^2 + B t + C is one of the two candidates, and Q1 >= 0 then |
| Quadratic.HalfSquare | com.dynamo.cr/com.dynamo.cr.parted/src/com/dynamo/cr/parted/curve/HermiteSpline.java:155-156 | B^2 / 4A^2 is the square of Q0 = B / 2A |
| Quadratic.LinearRoot | com.dynamo.cr/com.dynamo.cr.parted/src/com/dynamo/cr/parted/curve/HermiteSpline.java:147-149 | -C / B is the root of the linear derivative B t + C |
| Quadratic.QuadraticRoots | com.dynamo.cr/com.dynamo.cr.parted/src/com/dynamo/cr/parted/curve/HermiteSpline.java:155-158 | no candidate (Q1 < 0) or two, and the two candidates sum to -B / A |
| Spline.ValidTangentsDefined | com.dynamo.cr/com.dynamo.cr.parted/src/com/dynamo/cr/parted/curve/HermiteSpline.java:93-94 | in a valid spline (the intended shape, which insertPoint at a control point and a backward setTangent can leave) every slope ty / tx is defined |
| Spline.ValidIncreasing | com.dynamo.cr/com.dynamo.cr.parted/src/com/dynamo/cr/parted/curve/HermiteSpline.java:44 | in a valid spline x grows by at least 0.01 from any point to any later one |
| Spline.DefaultSpline | com.dynamo.cr/com.dynamo.cr.parted/src/com/dynamo/cr/parted/curve/HermiteSpline.java:48-51 | the default spline, points (0, 0, 0.5, 0.5) and (1, 1, 0.5, 0.5), is valid |
| Spline.DefaultIsIdentity | com.dynamo.cr/com.dynamo.cr.parted/src/com/dynamo/cr/parted/curve/HermiteSpline.java:48-51 | the default spline samples as y = x on [0, 1) |
| Spline.FromData | com.dynamo.cr/com.dynamo.cr.parted/src/com/dynamo/cr/parted/curve/HermiteSpline.java:53-57 | a spline is built exactly when the length is a multiple of 4; it then has length / 4 points, and point k is the k-th quadruple |
| Spline.Count | com.dynamo.cr/com.dynamo.cr.parted/src/com/dynamo/cr/parted/curve/HermiteSpline.java:77-79 | getCount is the number of points |
| Spline.SegmentCount | com.dynamo.cr/com.dynamo.cr.parted/src/com/dynamo/cr/parted/curve/HermiteSpline.java:227-229 | getSegmentCount is one less than getCount |
| Spline.GetPoint | com.dynamo.cr/com.dynamo.cr.parted/src/com/dynamo/cr/parted/curve/HermiteSpline.java:81-83 | getPoint(i) is point i of the list |
| Spline.AccessorsDetermineSpline | com.dynamo.cr/com.dynamo.cr.parted/src/com/dynamo/cr/parted/curve/HermiteSpline.java:77-83 | two splines with the same count and the same point at every index are equal: getCount and getPoint observe the whole spline |
| Spline.SegmentsOfValid | com.dynamo.cr/com.dynamo.cr.parted/src/com/dynamo/cr/parted/curve/HermiteSpline.java:44 | in a valid spline every segment can be evaluated, and x grows from its first point to its second |
| Spline.ScaledTangent | com.dynamo.cr/com.dynamo.cr.parted/src/com/dynamo/cr/parted/curve/HermiteSpline.java:93-94 | the end tangent getValue uses is the slope ty / tx times the segment width dx |
| Spline.Lerp | com.dynamo.cr/com.dynamo.cr.parted/src/com/dynamo/cr/parted/curve/HermiteSpline.java:96 | the linear x is x0 at t = 0 and x1 at t = 1, and lies between x0 and x1 for t in [0, 1] |
| Spline.ValueYStep | com.dynamo.cr/com.dynamo.cr.parted/src/com/dynamo/cr/parted/curve/HermiteSpline.java:85-101 | over a step h in t, a segment's y changes by h times hermiteD plus a term of order h^2 |
| Spline.ValueXStep | com.dynamo.cr/com.dynamo.cr.parted/src/com/dynamo/cr/parted/curve/HermiteSpline.java:96 | over a step h in t, a segment's x changes by h times dx |
| Spline.Value | com.dynamo.cr/com.dynamo.cr.parted/src/com/dynamo/cr/parted/curve/HermiteSpline.java:85-101 | a segment at t = 0 is at its first point and at t = 1 at its second |
| Spline.GetValue | com.dynamo.cr/com.dynamo.cr.parted/src/com/dynamo/cr/parted/curve/HermiteSpline.java:85-101 | getValue writes that position to value[0] and value[1] and nothing else |
| Spline.Slope | com.dynamo.cr/com.dynamo.cr.parted/src/com/dynamo/cr/parted/curve/HermiteSpline.java:179-186 | at either end of a segment its dy/dx is that end point's own slope ty / tx |
| Spline.SlopeAtEnd | com.dynamo.cr/com.dynamo.cr.parted/src/com/dynamo/cr/parted/curve/HermiteSpline.java:183-186 | dividing a tangent scaled by dx by dx again gives back the slope |
| Spline.SlopeIsDerivative | com.dynamo.cr/com.dynamo.cr.parted/src/com/dynamo/cr/parted/curve/HermiteSpline.java:12-35 | dividing hermiteD by dx gives the curve's dy/dx: y changes by that slope times the change in x, plus a term of order h^2 |
| Spline.Normalized | com.dynamo.cr/com.dynamo.cr.parted/src/com/dynamo/cr/parted/curve/HermiteSpline.java:187-192 | (1, d) divided by its length l is a forward unit vector of slope d |
| Spline.UnitDirection | com.dynamo.cr/com.dynamo.cr.parted/src/com/dynamo/cr/parted/curve/HermiteSpline.java:187-192 | the normalised (1, d) is forward, of unit length and of slope d |
| Spline.Tangent | com.dynamo.cr/com.dynamo.cr.parted/src/com/dynamo/cr/parted/curve/HermiteSpline.java:175-193 | the tangent is a forward unit vector whose slope is the curve's dy/dx, and at either end the end point's own slope |
| Spline.GetTangent | com.dynamo.cr/com.dynamo.cr.parted/src/com/dynamo/cr/parted/curve/HermiteSpline.java:175-193 | getTangent writes that unit tangent to value[0] and value[1] and nothing else |
| Spline.UnitDirectionOf | com.dynamo.cr/com.dynamo.cr.parted/src/com/dynamo/cr/parted/curve/HermiteSpline.java:190-192 | (x / l, y / l) with l = sqrt(1 + d^2) is the unit direction of slope d |
| Spline.ContinuousAtSharedPoint | com.dynamo.cr/com.dynamo.cr.parted/src/com/dynamo/cr/parted/curve/HermiteSpline.java:12-35 | two neighbouring segments meet at their shared point with the same position and the same unit tangent (C1) |
| Spline.SegmentFrom | com.dynamo.cr/com.dynamo.cr.parted/src/com/dynamo/cr/parted/curve/HermiteSpline.java:107-115 | the result is the first segment from `from` on whose half-open range holds x, or None if there is none |
| Spline.SegmentOf | com.dynamo.cr/com.dynamo.cr.parted/src/com/dynamo/cr/parted/curve/HermiteSpline.java:107-115 | the first segment whose half-open range holds x, or None if no segment does |
| Spline.LocalT | com.dynamo.cr/com.dynamo.cr.parted/src/com/dynamo/cr/parted/curve/HermiteSpline.java:111 | the local t of an x in a segment's half-open range lies in [0, 1), and the linear x at that t is x again |
| Spline.FirstSegment | com.dynamo.cr/com.dynamo.cr.parted/src/com/dynamo/cr/parted/curve/HermiteSpline.java:107-115 | a segment holding x with none before it holding x is the one the scan finds |
| Spline.SampleY | com.dynamo.cr/com.dynamo.cr.parted/src/com/dynamo/cr/parted/curve/HermiteSpline.java:103-120 | when no segment holds x, the sample is the first point's y |
| Spline.GetY | com.dynamo.cr/com.dynamo.cr.parted/src/com/dynamo/cr/parted/curve/HermiteSpline.java:103-120 | the loop with its early break returns the sample of the first segment holding x at x's local t, else the fall-back |
| Spline.SegmentOfControlPoint | com.dynamo.cr/com.dynamo.cr.parted/src/com/dynamo/cr/parted/curve/HermiteSpline.java:107-115 | in a valid spline the scan for a point's own x (the last point excepted) finds the segment starting at that point |
| Spline.SampleAtControlPoint | com.dynamo.cr/com.dynamo.cr.parted/src/com/dynamo/cr/parted/curve/HermiteSpline.java:103-120 | getY passes through every control point but the last |
| Spline.RightEdgeFallsBack | com.dynamo.cr/com.dynamo.cr.parted/src/com/dynamo/cr/parted/curve/HermiteSpline.java:107-119 | getY(1.0) on the default spline finds no segment and returns 0, the first point's y, although the last point is (1, 1) |
| Spline.SampleYClosed | com.dynamo.cr/com.dynamo.cr.parted/src/com/dynamo/cr/parted/curve/HermiteSpline.java:103-120 | with the last segment closed on the right, x at the last point gives the last point's y; everywhere a segment holds x it agrees with getY |
| Spline.SampleClosedAtControlPoint | com.dynamo.cr/com.dynamo.cr.parted/src/com/dynamo/cr/parted/curve/HermiteSpline.java:103-120 | the closed sample passes through every control point of a valid spline, the last included |
| SplineEdit.Max | com.dynamo.cr/com.dynamo.cr.parted/src/com/dynamo/cr/parted/curve/HermiteSpline.java:211 | Math.max: the larger of its arguments |
| SplineEdit.Min | com.dynamo.cr/com.dynamo.cr.parted/src/com/dynamo/cr/parted/curve/HermiteSpline.java:214 | Math.min: the smaller of its arguments |
| SplineEdit.AlterPoint | com.dynamo.cr/com.dynamo.cr.parted/src/com/dynamo/cr/parted/curve/HermiteSpline.java:195-199 | same count; point i replaced; every other point unchanged |
| SplineEdit.SetPosition | com.dynamo.cr/com.dynamo.cr.parted/src/com/dynamo/cr/parted/curve/HermiteSpline.java:201-218 | same count; only point i changes; it gets x = PlacedX, y = newY and keeps its tangent |
| SplineEdit.PlacedX | com.dynamo.cr/com.dynamo.cr.parted/src/com/dynamo/cr/parted/curve/HermiteSpline.java:204-215 | an interior x is clamped into [previous + 0.01, next - 0.01] and is next - 0.01 when that range is empty; the first point goes to 0, or to next - 0.01 when that is below 0; the last point goes to 1, or to previous + 0.01 when that is above 1; a lone point goes to 0 |
| SplineEdit.SetTangent | com.dynamo.cr/com.dynamo.cr.parted/src/com/dynamo/cr/parted/curve/HermiteSpline.java:220-225 | same count; only point i changes; it keeps its position and gets ty and max(tx, 0) |
| SplineEdit.RemovePoint | com.dynamo.cr/com.dynamo.cr.parted/src/com/dynamo/cr/parted/curve/HermiteSpline.java:251-259 | the first, the last or an out-of-range index gives the spline back; an interior index gives one point fewer, that point deleted and the rest in order |
| SplineEdit.SplitPoint | com.dynamo.cr/com.dynamo.cr.parted/src/com/dynamo/cr/parted/curve/HermiteSpline.java:239-244 | the inserted point is the curve's position at t with the curve's unit tangent at t |
| SplineEdit.SplitPointTangent | com.dynamo.cr/com.dynamo.cr.parted/src/com/dynamo/cr/parted/curve/HermiteSpline.java:241-244 | the inserted point's tangent is forward and of unit length, and its slope is the curve's dy/dx at t |
| SplineEdit.InsertAt | com.dynamo.cr/com.dynamo.cr.parted/src/com/dynamo/cr/parted/curve/HermiteSpline.java:243-244 | ArrayList.add(k, q): one more element, q at k, those before k unchanged and those from k shifted up by one |
| SplineEdit.InsertSpec | com.dynamo.cr/com.dynamo.cr.parted/src/com/dynamo/cr/parted/curve/HermiteSpline.java:231-249 | no result exactly when no segment holds x. Otherwise one more point, inserted after the first segment s holding x; it is s's split point at x's local t, and it lies at x |
| SplineEdit.SplitPointAtX | com.dynamo.cr/com.dynamo.cr.parted/src/com/dynamo/cr/parted/curve/HermiteSpline.java:239-244 | the split point at x's local parameter has x-coordinate x |
| SplineEdit.InsertPoint | com.dynamo.cr/com.dynamo.cr.parted/src/com/dynamo/cr/parted/curve/HermiteSpline.java:231-249 | the loop with its early return computes that result |
| SplineEdit.SplitSegment | com.dynamo.cr/com.dynamo.cr.parted/src/com/dynamo/cr/parted/curve/HermiteSpline.java:236-245 | the found branch: from the out-array queries, it inserts the split point at x's local t after point s |
| SplineEdit.SetPositionPreservesValid | com.dynamo.cr/com.dynamo.cr.parted/src/com/dynamo/cr/parted/curve/HermiteSpline.java:201-218 | moving a point keeps a valid spline valid: ends at 0 and 1, neighbours 0.01 apart, forward tangents |
| SplineEdit.SetPositionToItself | com.dynamo.cr/com.dynamo.cr.parted/src/com/dynamo/cr/parted/curve/HermiteSpline.java:201-218 | moving a point of a valid spline to where it is changes nothing |
| SplineEdit.SetPositionIdempotent | com.dynamo.cr/com.dynamo.cr.parted/src/com/dynamo/cr/parted/curve/HermiteSpline.java:201-218 | doing the same move twice is the same as doing it once |
| SplineEdit.SetTangentPreservesValid | com.dynamo.cr/com.dynamo.cr.parted/src/com/dynamo/cr/parted/curve/HermiteSpline.java:220-225 | a forward tangent keeps a valid spline valid |
| SplineEdit.SetTangentZeroRun | com.dynamo.cr/com.dynamo.cr.parted/src/com/dynamo/cr/parted/curve/HermiteSpline.java:220-225 | a run tx <= 0 is stored as 0, after which some slope ty / tx is undefined |
| SplineEdit.SetTangentSetsSlope | com.dynamo.cr/com.dynamo.cr.parted/src/com/dynamo/cr/parted/curve/HermiteSpline.java:220-225 | after setTangent(i, tx, ty) with tx > 0 the curve leaves and enters point i with slope ty / tx |
| SplineEdit.SetTangentToItself | com.dynamo.cr/com.dynamo.cr.parted/src/com/dynamo/cr/parted/curve/HermiteSpline.java:220-225 | setting a point's own non-negative tangent changes nothing |
| SplineEdit.RemovePreservesValid | com.dynamo.cr/com.dynamo.cr.parted/src/com/dynamo/cr/parted/curve/HermiteSpline.java:251-259 | removing any index keeps a valid spline valid |
| SplineEdit.RemoveUndoesInsert | com.dynamo.cr/com.dynamo.cr.parted/src/com/dynamo/cr/parted/curve/HermiteSpline.java:231-259 | removing the point insertPoint added gives back the original spline |
| SplineEdit.InsertAtControlPoint | com.dynamo.cr/com.dynamo.cr.parted/src/com/dynamo/cr/parted/curve/HermiteSpline.java:231-249 | inserting at an existing point's x (the last excepted) adds a second point at that x right after it, and the result is not valid |
| SplineExtrema.Inputs | com.dynamo.cr/com.dynamo.cr.parted/src/com/dynamo/cr/parted/curve/HermiteSpline.java:131-138 | a segment's Hermite inputs carry its end points' ys |
| SplineExtrema.Abs | com.dynamo.cr/com.dynamo.cr.parted/src/com/dynamo/cr/parted/curve/HermiteSpline.java:154 | Math.abs: non-negative and equal to a or -a |
| SplineExtrema.DerivativePowerForm | com.dynamo.cr/com.dynamo.cr.parted/src/com/dynamo/cr/parted/curve/HermiteSpline.java:143-149 | A, B and C are the power-form coefficients of hermiteD: hermiteD(t) = A t^2 + B t + C |
| SplineExtrema.FoldCandidates | com.dynamo.cr/com.dynamo.cr.parted/src/com/dynamo/cr/parted/curve/HermiteSpline.java:159-165 | folding in candidates never raises the minimum or lowers the maximum |
| SplineExtrema.FoldCandidatesCovers | com.dynamo.cr/com.dynamo.cr.parted/src/com/dynamo/cr/parted/curve/HermiteSpline.java:159-165 | after the fold, the y at every candidate in [0, 1] lies between the minimum and the maximum |
| SplineExtrema.FoldStepsWidens | com.dynamo.cr/com.dynamo.cr.parted/src/com/dynamo/cr/parted/curve/HermiteSpline.java:127-168 | with steps that only widen, the pair after more segments contains the pair after fewer |
| SplineExtrema.Extrema | com.dynamo.cr/com.dynamo.cr.parted/src/com/dynamo/cr/parted/curve/HermiteSpline.java:122-172 | a spline without segments gives (Double.MAX_VALUE, -Double.MAX_VALUE) |
| SplineExtrema.GetExtremValues | com.dynamo.cr/com.dynamo.cr.parted/src/com/dynamo/cr/parted/curve/HermiteSpline.java:122-172 | writes the running minimum and maximum to v[0] and v[1] and leaves the rest of v alone |
| SplineExtrema.ExtremValues | com.dynamo.cr/com.dynamo.cr.parted/src/com/dynamo/cr/parted/curve/HermiteSpline.java:123-168 | the outer loop computes the fold of every segment's step from (MAX_VALUE, -MAX_VALUE) |
| SplineExtrema.ExtremaUpToStep | com.dynamo.cr/com.dynamo.cr.parted/src/com/dynamo/cr/parted/curve/HermiteSpline.java:127-168 | each iteration of the outer loop applies one segment's step |
| SplineExtrema.FoldSegment | com.dynamo.cr/com.dynamo.cr.parted/src/com/dynamo/cr/parted/curve/HermiteSpline.java:128-167 | one iteration: fold in both end ys, then the y at every root in [0, 1] |
| SplineExtrema.SegmentRoots | com.dynamo.cr/com.dynamo.cr.parted/src/com/dynamo/cr/parted/curve/HermiteSpline.java:154-166 | two candidates -Q0 +- sqrt(Q1) when abs(A) > 0.0001 and Q1 >= 0, otherwise none |
| SplineExtrema.Roots | com.dynamo.cr/com.dynamo.cr.parted/src/com/dynamo/cr/parted/curve/HermiteSpline.java:147-158 | at most two roots. For abs(A) > 0.0001 both rules take the quadratic-formula candidates. Otherwise the source's rule takes none, while Exact takes those candidates for any A != 0 and the root -C / B when A = 0 and B != 0 |
| SplineExtrema.RootsAreRoots | com.dynamo.cr/com.dynamo.cr.parted/src/com/dynamo/cr/parted/curve/HermiteSpline.java:147-158 | with an exact square root, every root either rule gives is a root of A t^2 + B t + C |
| SplineExtrema.RulesDifferOnShallowQuadratic | com.dynamo.cr/com.dynamo.cr.parted/src/com/dynamo/cr/parted/curve/HermiteSpline.java:154 | for A = 0.00005, B = 0, C = -0.0000125 the source's rule gives no root, although the derivative has the roots 0.5 and -0.5 that Exact gives |
| SplineExtrema.FoldRoots | com.dynamo.cr/com.dynamo.cr.parted/src/com/dynamo/cr/parted/curve/HermiteSpline.java:159-165 | the inner loop folds in the y of each candidate in [0, 1], in order |
| SplineExtrema.SegmentStepCovers | com.dynamo.cr/com.dynamo.cr.parted/src/com/dynamo/cr/parted/curve/HermiteSpline.java:133-165 | one segment's step widens the pair and makes it bound the segment's end ys and its candidates in [0, 1] |
| SplineExtrema.ExtremaUpToWidens | com.dynamo.cr/com.dynamo.cr.parted/src/com/dynamo/cr/parted/curve/HermiteSpline.java:127-168 | later iterations of the outer loop only widen the pair |
| SplineExtrema.StepOfWidens | com.dynamo.cr/com.dynamo.cr.parted/src/com/dynamo/cr/parted/curve/HermiteSpline.java:135-136 | every segment step only widens the pair |
| SplineExtrema.SegmentStepWidens | com.dynamo.cr/com.dynamo.cr.parted/src/com/dynamo/cr/parted/curve/HermiteSpline.java:135-136 | one segment's step never raises the minimum or lowers the maximum |
| SplineExtrema.ExtremaCovers | com.dynamo.cr/com.dynamo.cr.parted/src/com/dynamo/cr/parted/curve/HermiteSpline.java:122-172 | the final pair bounds every segment's end ys and its candidates in [0, 1] |
| SplineExtrema.CoversWiden | com.dynamo.cr/com.dynamo.cr.parted/src/com/dynamo/cr/parted/curve/HermiteSpline.java:135-136 | a wider pair still bounds what a narrower one bounded |
| SplineExtrema.ExtremaBoundsControlPoints | com.dynamo.cr/com.dynamo.cr.parted/src/com/dynamo/cr/parted/curve/HermiteSpline.java:133-136 | min <= max, and min <= every control point's y <= max |
| SplineExtrema.ExtremaBoundsCandidates | com.dynamo.cr/com.dynamo.cr.parted/src/com/dynamo/cr/parted/curve/HermiteSpline.java:158-165 | min <= y <= max at every candidate root in [0, 1] of every segment |
| SplineExtrema.FoldCandidatesAttains | com.dynamo.cr/com.dynamo.cr.parted/src/com/dynamo/cr/parted/curve/HermiteSpline.java:159-165 | folding in candidates leaves each end of the pair where it was or sets it to the y at one of the candidates in [0, 1] |
| SplineExtrema.SegmentStepAttains | com.dynamo.cr/com.dynamo.cr.parted/src/com/dynamo/cr/parted/curve/HermiteSpline.java:133-165 | a segment step sets each end to the previous value (only when that was already past the segment's first y), to an end y, or to the y at a candidate in [0, 1] |
| SplineExtrema.FoldedValueGrows | com.dynamo.cr/com.dynamo.cr.parted/src/com/dynamo/cr/parted/curve/HermiteSpline.java:127-168 | a value the fold looked at within the first m segments is one it looked at within any later n |
| SplineExtrema.StepValueFolded | com.dynamo.cr/com.dynamo.cr.parted/src/com/dynamo/cr/parted/curve/HermiteSpline.java:133-165 | one end after a segment step is a value the fold has looked at |
| SplineExtrema.StepAttained | com.dynamo.cr/com.dynamo.cr.parted/src/com/dynamo/cr/parted/curve/HermiteSpline.java:127-168 | a step keeps the running pair made of values the fold has looked at, and replaces the initial (MAX_VALUE, -MAX_VALUE) on the first segment |
| SplineExtrema.ExtremaUpToAttained | com.dynamo.cr/com.dynamo.cr.parted/src/com/dynamo/cr/parted/curve/HermiteSpline.java:124-168 | after n >= 1 segments both ends of the running pair are the y of one of points 0 .. n or the y at a candidate in [0, 1] of one of segments 0 .. n - 1 |
| SplineExtrema.ExtremaAttained | com.dynamo.cr/com.dynamo.cr.parted/src/com/dynamo/cr/parted/curve/HermiteSpline.java:122-172 | for two or more points with finite ys, min and max are each the y of a control point or the y at a candidate in [0, 1] of a segment; with the two bound lemmas they are the least and the greatest of those values |
| SplineExtrema.CandidatesAreRoots | com.dynamo.cr/com.dynamo.cr.parted/src/com/dynamo/cr/parted/curve/HermiteSpline.java:154-158 | with an exact square root, every candidate is a root of A t^2 + B t + C |
| SplineExtrema.CandidatesAreStationary | com.dynamo.cr/com.dynamo.cr.parted/src/com/dynamo/cr/parted/curve/HermiteSpline.java:143-158 | so every candidate is a stationary point of its segment, where hermiteD is 0 |
| SplineExtrema.ExtremaBoundsSteepStationary | com.dynamo.cr/com.dynamo.cr.parted/src/com/dynamo/cr/parted/curve/HermiteSpline.java:154-166 | on a segment with abs(A) > 0.0001, every stationary point in [0, 1] lies between min and max |
| SplineExtrema.ParabolaInputs | com.dynamo.cr/com.dynamo.cr.parted/src/com/dynamo/cr/parted/curve/HermiteSpline.java:131-138 | the single segment of (0, 0, 1, 1), (1, 0, 1, -1) has end ys 0 and 0 and scaled tangents 1 and -1 |
| SplineExtrema.ParabolaValid | com.dynamo.cr/com.dynamo.cr.parted/src/com/dynamo/cr/parted/curve/HermiteSpline.java:44 | that spline is valid |
| SplineExtrema.ParabolaPeak | com.dynamo.cr/com.dynamo.cr.parted/src/com/dynamo/cr/parted/curve/HermiteSpline.java:63-101 | its slope is 0 at t = 0.5, where the curve is at (0.5, 0.25) |
| SplineExtrema.ParabolaCandidates | com.dynamo.cr/com.dynamo.cr.parted/src/com/dynamo/cr/parted/curve/HermiteSpline.java:147-154 | its A is 0, so it gets no candidate |
| SplineExtrema.ParabolaStep | com.dynamo.cr/com.dynamo.cr.parted/src/com/dynamo/cr/parted/curve/HermiteSpline.java:133-136 | folding such a segment into a pair around 0 gives (0, 0) |
| SplineExtrema.StepWithoutCandidates | com.dynamo.cr/com.dynamo.cr.parted/src/com/dynamo/cr/parted/curve/HermiteSpline.java:135-136 | a segment without candidates folds in its end ys alone |
| SplineExtrema.OneSegmentExtrema | com.dynamo.cr/com.dynamo.cr.parted/src/com/dynamo/cr/parted/curve/HermiteSpline.java:123-127 | the extrema of a one-segment spline are its segment's step from (MAX_VALUE, -MAX_VALUE) |
| SplineExtrema.ParabolaExtrema | com.dynamo.cr/com.dynamo.cr.parted/src/com/dynamo/cr/parted/curve/HermiteSpline.java:122-172 | getExtremValues gives (0, 0) on that spline |
| SplineExtrema.ParabolaPeakMissed | com.dynamo.cr/com.dynamo.cr.parted/src/com/dynamo/cr/parted/curve/HermiteSpline.java:153-154 | on that valid spline the slope is 0 at the peak y = 0.25, yet the extrema are (0, 0) |
| SplineExtrema.FlatSegment | com.dynamo.cr/com.dynamo.cr.parted/src/com/dynamo/cr/parted/curve/HermiteSpline.java:143-149 | a segment whose A, B and C are all 0 is flat at its first y |
| SplineExtrema.ExactExtremaBoundStationary | com.dynamo.cr/com.dynamo.cr.parted/src/com/dynamo/cr/parted/curve/HermiteSpline.java:151-166 | with the rule that applies the quadratic formula for every A != 0 (not only when abs(A) > 0.0001) and takes the root -C/B of the linear derivative when A = 0, every stationary point in [0, 1] of every segment lies between min and max |
| SplineExtrema.ExactReachesParabolaPeak | com.dynamo.cr/com.dynamo.cr.parted/src/com/dynamo/cr/parted/curve/HermiteSpline.java:151-166 | with that rule, the parabola's maximum is at least its peak 0.25 |
| SplineInsertShape.ScaleSlope | com.dynamo.cr/com.dynamo.cr.parted/src/com/dynamo/cr/parted/curve/HermiteSpline.java:93-94 | a point of slope d / dx in a segment of width c dx gets the scaled tangent c d |
| SplineInsertShape.SpanOnCurve | com.dynamo.cr/com.dynamo.cr.parted/src/com/dynamo/cr/parted/curve/HermiteSpline.java:12-35 | two points on a segment's curve at alpha and alpha + beta, with the curve's slopes there, span the old segment on that range |
| SplineInsertShape.StartOnCurve | com.dynamo.cr/com.dynamo.cr.parted/src/com/dynamo/cr/parted/curve/HermiteSpline.java:93-97 | a segment's first point lies on its curve at t = 0 with the curve's slope |
| SplineInsertShape.FinishOnCurve | com.dynamo.cr/com.dynamo.cr.parted/src/com/dynamo/cr/parted/curve/HermiteSpline.java:93-97 | its second point lies on the curve at t = 1 with the curve's slope |
| SplineInsertShape.LinearForm | com.dynamo.cr/com.dynamo.cr.parted/src/com/dynamo/cr/parted/curve/HermiteSpline.java:96 | the linear x lies t (x1 - x0) past x0 and (1 - t)(x1 - x0) before x1 |
| SplineInsertShape.LeftHalf | com.dynamo.cr/com.dynamo.cr.parted/src/com/dynamo/cr/parted/curve/HermiteSpline.java:239-244 | the left half [p0, q] of a segment split at tau is the old segment on [0, tau] |
| SplineInsertShape.RightHalf | com.dynamo.cr/com.dynamo.cr.parted/src/com/dynamo/cr/parted/curve/HermiteSpline.java:239-244 | the right half [q, p1] is the old segment on [tau, 1] |
| SplineInsertShape.SplitPointFacts | com.dynamo.cr/com.dynamo.cr.parted/src/com/dynamo/cr/parted/curve/HermiteSpline.java:239-244 | the point insertPoint builds lies on the segment's curve at t and carries the curve's slope there |
| SplineInsertShape.InsertIsSplit | com.dynamo.cr/com.dynamo.cr.parted/src/com/dynamo/cr/parted/curve/HermiteSpline.java:231-249 | insertPoint's result is the old list with such a point, at x, inserted after the first segment holding x |
| SplineInsertShape.SplitTangentsDefined | com.dynamo.cr/com.dynamo.cr.parted/src/com/dynamo/cr/parted/curve/HermiteSpline.java:241-244 | after the split every slope is still defined |
| SplineInsertShape.LeftX | com.dynamo.cr/com.dynamo.cr.parted/src/com/dynamo/cr/parted/curve/HermiteSpline.java:96 | x on the left half at u is the old x at tau u |
| SplineInsertShape.RightX | com.dynamo.cr/com.dynamo.cr.parted/src/com/dynamo/cr/parted/curve/HermiteSpline.java:96 | x on the right half at u is the old x at tau + (1 - tau) u |
| SplineInsertShape.SplitPoints | com.dynamo.cr/com.dynamo.cr.parted/src/com/dynamo/cr/parted/curve/HermiteSpline.java:243-244 | after the split, points s, s + 1 and s + 2 are the old s, the new point and the old s + 1 |
| SplineInsertShape.ValueOfPoints | com.dynamo.cr/com.dynamo.cr.parted/src/com/dynamo/cr/parted/curve/HermiteSpline.java:85-101 | a segment's position depends on its two end points alone |
| SplineInsertShape.SplitLeftPart | com.dynamo.cr/com.dynamo.cr.parted/src/com/dynamo/cr/parted/curve/HermiteSpline.java:239-244 | segment s after the split, at u, is at the old segment's position at tau u |
| SplineInsertShape.SplitRightPart | com.dynamo.cr/com.dynamo.cr.parted/src/com/dynamo/cr/parted/curve/HermiteSpline.java:239-244 | segment s + 1 after the split, at u, is at the old segment's position at tau + (1 - tau) u |
| SplineInsertShape.LeftLocalT | com.dynamo.cr/com.dynamo.cr.parted/src/com/dynamo/cr/parted/curve/HermiteSpline.java:111 | left of the new point, tau times the new local t is the old local t |
| SplineInsertShape.RightLocalT | com.dynamo.cr/com.dynamo.cr.parted/src/com/dynamo/cr/parted/curve/HermiteSpline.java:111 | right of it, tau + (1 - tau) times the new local t is the old local t |
| SplineInsertShape.SplitRanges | com.dynamo.cr/com.dynamo.cr.parted/src/com/dynamo/cr/parted/curve/HermiteSpline.java:107-115 | after the split the ranges below s are as before, s and s + 1 divide the old s at the new x, and those above are shifted by one |
| SplineInsertShape.SampleOutside | com.dynamo.cr/com.dynamo.cr.parted/src/com/dynamo/cr/parted/curve/HermiteSpline.java:103-120 | an x no segment held is still held by none, so getY is unchanged |
| SplineInsertShape.SampleBefore | com.dynamo.cr/com.dynamo.cr.parted/src/com/dynamo/cr/parted/curve/HermiteSpline.java:103-120 | getY is unchanged for x before the split segment |
| SplineInsertShape.SampleAfter | com.dynamo.cr/com.dynamo.cr.parted/src/com/dynamo/cr/parted/curve/HermiteSpline.java:103-120 | getY is unchanged for x after it |
| SplineInsertShape.SampleLeft | com.dynamo.cr/com.dynamo.cr.parted/src/com/dynamo/cr/parted/curve/HermiteSpline.java:103-120 | getY is unchanged for x in the split segment left of the new point |
| SplineInsertShape.SampleRight | com.dynamo.cr/com.dynamo.cr.parted/src/com/dynamo/cr/parted/curve/HermiteSpline.java:103-120 | getY is unchanged for x in the split segment at or right of the new point |
| SplineInsertShape.SplitPreservesSample | com.dynamo.cr/com.dynamo.cr.parted/src/com/dynamo/cr/parted/curve/HermiteSpline.java:103-120 | splitting a segment at a point on its curve leaves getY unchanged at every x |
| SplineInsertShape.InsertPreservesSample | com.dynamo.cr/com.dynamo.cr.parted/src/com/dynamo/cr/parted/curve/HermiteSpline.java:231-249 | insertPoint leaves the sampled curve exactly as it was, at every x |
| FacebookSession.ConvertSessionState | engine/facebook/src/java/com/dynamo/android/facebook/FacebookJNI.java:46-66 | the code is -1 exactly for a state without a case. Otherwise bit 9 is set exactly for the two opened states and bit 8 exactly for the two closed states; the step is at most 2; no other bit is set; and reading the code back gives the state |
| FacebookSession.SessionStateOf | engine/facebook/src/java/com/dynamo/android/facebook/FacebookJNI.java:46-66 | a code that reads as a state has no bit outside the flags and step, and never reads as the state without a case |
| FacebookSession.SessionCodeRoundTrip | engine/facebook/src/java/com/dynamo/android/facebook/FacebookJNI.java:48-62 | every code that reads as a state is exactly that state's code |
| FacebookSession.SessionCodesDistinct | engine/facebook/src/java/com/dynamo/android/facebook/FacebookJNI.java:46-66 | distinct states get distinct codes |
| FacebookSession.UnknownCodeIsNoState | engine/facebook/src/java/com/dynamo/android/facebook/FacebookJNI.java:64-65 | the fall-back code -1 reads as no state |
| FacebookSession.NeverOpenedAndClosed | engine/facebook/src/java/com/dynamo/android/facebook/FacebookJNI.java:55-62 | no listed state's code has both flags set |
| FacebookSession.ConvertSessionDefaultAudience | engine/facebook/src/java/com/dynamo/android/facebook/FacebookJNI.java:68-82 | every code other than 0, 10, 20 and 30 means FRIENDS |
| FacebookSession.AudienceCode | engine/facebook/src/java/com/dynamo/android/facebook/FacebookJNI.java:68-78 | each audience has a table code (0, 10, 20 or 30), and converting it gives the audience back |
| FacebookSession.AudienceCodeRoundTrip | engine/facebook/src/java/com/dynamo/android/facebook/FacebookJNI.java:68-82 | a code survives conversion there and back exactly when it is one of the four table codes |

## Left out

- IEEE-754 rounding: doubles and floats are reals, and `float` to `double` widening in the `float[]` constructor is the identity.
- `Math.sqrt` is a parameter. The properties that depend on the root being exact require `IsSqrt(sqrt)`.
- Spline.Value, Spline.GetValue, Spline.Slope, Spline.Tangent, Spline.GetTangent: require `segment + 1 < getCount()` (`Evaluable`). With a larger segment the source's `getPoint(segment + 1)` throws IndexOutOfBoundsException, which the model does not represent.
- Spline.Value, Spline.Slope, Spline.Tangent: require `tx != 0` on the segment's end points. At `tx == 0` the source divides by zero and gets an infinity or NaN, which reals cannot represent. `Slope` and `Tangent` also require the segment to have non-zero width, for the same reason.
- Spline.GetPoint, SplineEdit.SetPosition, SplineEdit.SetTangent, SplineEdit.AlterPoint: require the index to be in range. The source throws IndexOutOfBoundsException there, and nothing in HermiteSpline catches it.
- SplineExtrema.Extrema: skips a segment with an undefined end slope. The methods never reach one, because they require all slopes to be defined.
- Spline.SampleY, Spline.GetY, SplineEdit.InsertSpec, SplineEdit.InsertPoint, SplineExtrema.Extrema, SplineExtrema.ExtremValues, SplineExtrema.GetExtremValues: require `tx != 0` at every point (`TangentsDefined`). The source divides by `tx` only at the two ends of the segment it evaluates, so `getY` and `insertPoint` are defined there even when another point has `tx == 0`, for example after `setTangent(3, 0, 1)`. `getExtremValues` divides at every point of a spline with two or more points, so it differs only for a single point.
- Spline.SampleY, Spline.GetY: also require at least two points. On a one-point spline the source's fall-back `getValue(0, 0, …)` reads point 1 and throws IndexOutOfBoundsException.
- SplineExtrema.ExtremaAttained, SplineExtrema.ExtremaUpToAttained, SplineExtrema.StepAttained: require every y to lie within ±Double.MAX_VALUE (`FiniteYs`). Every finite double does; reals need the bound stated.
- `Serializable`, the private copy constructor, and the defensive copy in `getPoint` are left out: the points are values here.
- `insertPoint`'s `y` argument plays no part in the source, and `InsertSpec` ignores it as well. "No segment" is `None` here, where the source returns null.
- FacebookSession.ConvertSessionState: a null `SessionState` makes the source's `switch` throw NullPointerException; the model's `SessionState` has no null.
- The rest of `FacebookJNI.java` is not part of this model: the JNI callbacks, threading, the Facebook SDK calls, JSON and dialogs are foreign calls and UI.
- The Facebook SDK's `SessionState` enum is not part of this model. `Unrecognised` stands for any constant the bridge has no case for.

## Findings

| source | as written | input that shows it | evidently intended | confidence | as-written member | corrected member |
|---|---|---|---|---|---|---|
| com.dynamo.cr/com.dynamo.cr.parted/src/com/dynamo/cr/parted/curve/HermiteSpline.java:153-154 | a segment with abs(A) <= 0.0001 gets no interior candidate, on the grounds that it is a straight line. But then its derivative B t + C is linear, and the segment is a parabola with a stationary point at -C/B | the valid spline (0, 0, 1, 1), (1, 0, 1, -1): getExtremValues gives (0, 0), but the curve reaches y = 0.25 at x = 0.5 | apply the quadratic formula whenever A != 0 (test a != 0.0 instead of Math.abs(A) > 0.0001), and when A = 0 fold in the root -C/B of the linear derivative, so that every stationary point lies within the extrema | medium, not executed | SplineExtrema.ParabolaPeakMissed | SplineExtrema.ExactExtremaBoundStationary |
| com.dynamo.cr/com.dynamo.cr.parted/src/com/dynamo/cr/parted/curve/HermiteSpline.java:107-119 | every segment's range is half-open, the last one included, so getY at the last point's x finds no segment and falls back to the first point's y | the default spline, x = 1.0: getY gives 0 where the curve ends at 1 | close the last segment on the right, so that getY(1.0) gives the last point's y | medium, not executed | Spline.RightEdgeFallsBack | Spline.SampleClosedAtControlPoint |
