/**
 * The editing operations of the Hermite spline. Each one copies the point
 * list, changes the copy and wraps it in a new spline; the receiver is left
 * as it was, which the value semantics of HermiteSpline give for free.
 */
module SplineEdit {
  import opened Quadratic
  import opened Spline
  import opened Wrappers

  function Max(a: real, b: real): (m: real)
    ensures m >= a && m >= b && (m == a || m == b)
  {
    if a >= b then a else b
  }

  function Min(a: real, b: real): (m: real)
    ensures m <= a && m <= b && (m == a || m == b)
  {
    if a <= b then a else b
  }

  /** A copy of the spline with point i replaced and every other point,
      and the count, unchanged. */
  function AlterPoint(sp: HermiteSpline, i: nat, x: real, y: real, tx: real, ty: real): (r: HermiteSpline)
    requires i < |sp.points|
    ensures |r.points| == |sp.points|
    ensures r.points[i] == SplinePoint(x, y, tx, ty)
    ensures forall j :: 0 <= j < |sp.points| && j != i ==> r.points[j] == sp.points[j]
  {
    HermiteSpline(sp.points[i := SplinePoint(x, y, tx, ty)])
  }

  /** The x that setPosition gives point i when asked to move it to newX:
      the first point is pinned to 0 and the last to 1, then x is pushed
      up to at least MinPointXDistance past the previous point and down to
      at least MinPointXDistance before the next one, in that order. */
  function PlacedX(sp: HermiteSpline, i: nat, newX: real): (x: real)
    requires i < |sp.points|
    // an interior point lands on the point of [lo, hi] nearest to newX, and
    // on hi when the neighbours leave no such window
    ensures 0 < i < |sp.points| - 1 ==>
              var lo, hi := sp.points[i - 1].x + MinPointXDistance, sp.points[i + 1].x - MinPointXDistance;
              && (lo <= hi ==> lo <= x <= hi)
              && (lo <= newX <= hi ==> x == newX)
              && (newX < lo <= hi ==> x == lo)
              && (hi < newX ==> x == hi)
              && (hi < lo ==> x == hi)
    // the first point is pinned to 0 unless its neighbour is closer than
    // MinPointXDistance to 0, which pushes it below
    ensures i == 0 ==>
              if |sp.points| == 1 || MinPointXDistance <= sp.points[1].x then x == 0.0
              else x == sp.points[1].x - MinPointXDistance
    // the last point is pinned to 1 unless its neighbour is closer than
    // MinPointXDistance to 1, which pushes it above
    ensures 0 < i == |sp.points| - 1 ==>
              if sp.points[i - 1].x + MinPointXDistance <= 1.0 then x == 1.0
              else x == sp.points[i - 1].x + MinPointXDistance
  {
    var n := |sp.points|;
    var pinned := if i == 0 then 0.0 else if i == n - 1 then 1.0 else newX;
    var raised := if i > 0 then Max(sp.points[i - 1].x + MinPointXDistance, pinned) else pinned;
    if i < n - 1 then Min(sp.points[i + 1].x - MinPointXDistance, raised) else raised
  }

  /** Moves point i to (newX, newY), keeping its tangent; x is clamped as
      PlacedX says. */
  function SetPosition(sp: HermiteSpline, i: nat, newX: real, newY: real): (r: HermiteSpline)
    requires i < |sp.points|
    ensures |r.points| == |sp.points|
    ensures forall j :: 0 <= j < |sp.points| && j != i ==> r.points[j] == sp.points[j]
    ensures r.points[i].x == PlacedX(sp, i, newX) && r.points[i].y == newY
    ensures r.points[i].tx == sp.points[i].tx && r.points[i].ty == sp.points[i].ty
  {
    var p := sp.points[i];
    AlterPoint(sp, i, PlacedX(sp, i, newX), newY, p.tx, p.ty)
  }

  /** Sets the tangent of point i, keeping its position; a backward run
      tx < 0 is clamped to 0. */
  function SetTangent(sp: HermiteSpline, i: nat, tx: real, ty: real): (r: HermiteSpline)
    requires i < |sp.points|
    ensures |r.points| == |sp.points|
    ensures forall j :: 0 <= j < |sp.points| && j != i ==> r.points[j] == sp.points[j]
    ensures r.points[i].x == sp.points[i].x && r.points[i].y == sp.points[i].y
    ensures r.points[i].ty == ty
    ensures r.points[i].tx >= 0.0 && (r.points[i].tx == tx || (tx < 0.0 && r.points[i].tx == 0.0))
  {
    var p := sp.points[i];
    AlterPoint(sp, i, p.x, p.y, Max(tx, 0.0), ty)
  }

  /** Removes point index; the two end points, and any index outside the
      list, leave the spline as it is. */
  function RemovePoint(sp: HermiteSpline, index: int): (r: HermiteSpline)
    ensures !(0 < index < |sp.points| - 1) ==> r == sp
    ensures 0 < index < |sp.points| - 1 ==>
              && |r.points| == |sp.points| - 1
              && (forall j :: 0 <= j < index ==> r.points[j] == sp.points[j])
              && (forall j :: index <= j < |r.points| ==> r.points[j] == sp.points[j + 1])
  {
    if 0 < index < |sp.points| - 1 then
      HermiteSpline(sp.points[..index] + sp.points[index + 1..])
    else
      sp
  }

  // ---------------------------------------------------------------------
  // Insertion

  /** The point insertPoint adds inside segment s at local parameter t:
      the curve's position there and its unit tangent. */
  function SplitPoint(sp: HermiteSpline, s: nat, t: real, sqrt: real -> real): (q: SplinePoint)
    requires Evaluable(sp, s) && sp.points[s].x != sp.points[s + 1].x && IsSqrt(sqrt)
    ensures (q.x, q.y) == Value(sp, s, t)
    ensures (q.tx, q.ty) == Tangent(sp, s, t, sqrt)
  {
    var pos := Value(sp, s, t);
    var tan := Tangent(sp, s, t, sqrt);
    SplinePoint(pos.0, pos.1, tan.0, tan.1)
  }

  /** The split point's tangent points forward, has unit length and has the
      curve's slope at t. */
  lemma SplitPointTangent(sp: HermiteSpline, s: nat, t: real, sqrt: real -> real)
    requires Evaluable(sp, s) && sp.points[s].x != sp.points[s + 1].x && IsSqrt(sqrt)
    ensures var q := SplitPoint(sp, s, t, sqrt); UnitTangentOf(q.tx, q.ty, Slope(sp, s, t))
  {
    var q, v := SplitPoint(sp, s, t, sqrt), Tangent(sp, s, t, sqrt);
    assert q.tx == v.0 && q.ty == v.1;
  }

  /** The list with q inserted at index k. */
  function InsertAt(pts: seq<SplinePoint>, k: nat, q: SplinePoint): (r: seq<SplinePoint>)
    requires k <= |pts|
    ensures |r| == |pts| + 1 && r[k] == q
    ensures forall j :: 0 <= j < k ==> r[j] == pts[j]
    ensures forall j :: k <= j < |pts| ==> r[j + 1] == pts[j]
  {
    pts[..k] + [q] + pts[k..]
  }

  /** What insertPoint returns for x: None when no segment's half-open
      x-range holds x; otherwise the spline with the split point of the
      first such segment s inserted at index s + 1. The new point lies on
      the curve at x itself. The y argument of the source plays no part. */
  function InsertSpec(sp: HermiteSpline, x: real, sqrt: real -> real): (r: Option<HermiteSpline>)
    requires TangentsDefined(sp) && IsSqrt(sqrt)
    ensures r.None? <==> forall j :: !InSegment(sp.points, j, x)
    ensures r.Some? ==>
              var s := SegmentOf(sp.points, x).value;
              && |r.value.points| == |sp.points| + 1
              && r.value.points == InsertAt(sp.points, s + 1, r.value.points[s + 1])
              && r.value.points[s + 1] == SplitPoint(sp, s, LocalT(sp.points, s, x), sqrt)
              && r.value.points[s + 1].x == x
  {
    match SegmentOf(sp.points, x)
    case None => None
    case Some(s) =>
      var t := LocalT(sp.points, s, x);
      SplitPointAtX(sp, s, x, sqrt);
      var q := SplitPoint(sp, s, t, sqrt);
      Some(HermiteSpline(InsertAt(sp.points, s + 1, q)))
  }

  /** The split point of the segment holding x, at x's local parameter,
      lies at x. */
  lemma SplitPointAtX(sp: HermiteSpline, s: nat, x: real, sqrt: real -> real)
    requires TangentsDefined(sp) && IsSqrt(sqrt) && InSegment(sp.points, s, x)
    ensures Evaluable(sp, s) && sp.points[s].x != sp.points[s + 1].x
    ensures SplitPoint(sp, s, LocalT(sp.points, s, x), sqrt).x == x
  {
    ghost var t := LocalT(sp.points, s, x);
    assert SplitPoint(sp, s, t, sqrt).x == Value(sp, s, t).0;
  }

  method InsertPoint(sp: HermiteSpline, x: real, y: real, sqrt: real -> real) returns (r: Option<HermiteSpline>)
    requires TangentsDefined(sp) && IsSqrt(sqrt)
    ensures r == InsertSpec(sp, x, sqrt)
  {
    var segmentCount := SegmentCount(sp);
    var s := 0;
    while s < segmentCount
      invariant 0 <= s && (segmentCount < 0 || s <= segmentCount)
      invariant forall j :: 0 <= j < s ==> !InSegment(sp.points, j, x)
    {
      var p0, p1 := GetPoint(sp, s), GetPoint(sp, s + 1);
      if x >= p0.x && x < p1.x {
        FirstSegment(sp.points, x, s);
        var l := SplitSegment(sp, s, x, sqrt);
        return Some(HermiteSpline(l));
      }
      s := s + 1;
    }
    return None;
  }

  /** The found branch of insertPoint: evaluates segment s at x's local t
      through the out-array queries and inserts the point after s. */
  method SplitSegment(sp: HermiteSpline, s: nat, x: real, sqrt: real -> real) returns (l: seq<SplinePoint>)
    requires TangentsDefined(sp) && IsSqrt(sqrt) && InSegment(sp.points, s, x)
    ensures l == InsertAt(sp.points, s + 1, SplitPoint(sp, s, LocalT(sp.points, s, x), sqrt))
  {
    var p0, p1 := GetPoint(sp, s), GetPoint(sp, s + 1);
    var pos := new real[2];
    var tan := new real[2];
    var t := (x - p0.x) / (p1.x - p0.x);
    GetValue(sp, s, t, pos);
    var px, py := pos[0], pos[1];
    GetTangent(sp, s, t, sqrt, tan);
    var q := SplinePoint(px, py, tan[0], tan[1]);
    assert q == SplitPoint(sp, s, t, sqrt);
    l := sp.points[..s + 1] + [q] + sp.points[s + 1..];
  }

  // ---------------------------------------------------------------------
  // Properties of the edits

  /** Moving a point keeps a valid spline valid: the clamping leaves it
      MinPointXDistance from both neighbours and the ends pinned. */
  lemma SetPositionPreservesValid(sp: HermiteSpline, i: nat, newX: real, newY: real)
    requires Valid(sp) && i < |sp.points|
    ensures Valid(SetPosition(sp, i, newX, newY))
  {
    var n := |sp.points|;
    if 0 < i < n - 1 {
      ValidIncreasing(sp, i - 1, i + 1);
    }
  }

  /** Moving a point of a valid spline to where it already is changes
      nothing. */
  lemma SetPositionToItself(sp: HermiteSpline, i: nat)
    requires Valid(sp) && i < |sp.points|
    ensures SetPosition(sp, i, sp.points[i].x, sp.points[i].y) == sp
  {
    var r := SetPosition(sp, i, sp.points[i].x, sp.points[i].y);
    assert r.points[i] == sp.points[i];
    assert r.points == sp.points;
  }

  /** Moving the same point twice to the same place is moving it once: the
      clamping depends only on the neighbours, which it does not move. */
  lemma SetPositionIdempotent(sp: HermiteSpline, i: nat, newX: real, newY: real)
    requires i < |sp.points|
    ensures SetPosition(SetPosition(sp, i, newX, newY), i, newX, newY) == SetPosition(sp, i, newX, newY)
  {
    var once := SetPosition(sp, i, newX, newY);
    assert PlacedX(once, i, newX) == PlacedX(sp, i, newX);
    assert SetPosition(once, i, newX, newY).points == once.points;
  }

  /** A forward tangent keeps a valid spline valid. */
  lemma SetTangentPreservesValid(sp: HermiteSpline, i: nat, tx: real, ty: real)
    requires Valid(sp) && i < |sp.points| && tx > 0.0
    ensures Valid(SetTangent(sp, i, tx, ty))
  {
  }

  /** A tangent with run tx <= 0 is stored with run 0, so the slopes of
      the spline are no longer all defined. */
  lemma SetTangentZeroRun(sp: HermiteSpline, i: nat, tx: real, ty: real)
    requires i < |sp.points| && tx <= 0.0
    ensures SetTangent(sp, i, tx, ty).points[i].tx == 0.0
    ensures !TangentsDefined(SetTangent(sp, i, tx, ty))
  {
  }

  /** After setTangent(i, tx, ty) with tx > 0 the curve leaves and enters
      point i with slope ty / tx. */
  lemma SetTangentSetsSlope(sp: HermiteSpline, i: nat, tx: real, ty: real)
    requires TangentsDefined(sp) && i < |sp.points| && tx > 0.0
    ensures var r := SetTangent(sp, i, tx, ty);
            && (i + 1 < |r.points| && r.points[i].x != r.points[i + 1].x ==> Slope(r, i, 0.0) == ty / tx)
            && (0 < i && r.points[i - 1].x != r.points[i].x ==> Slope(r, i - 1, 1.0) == ty / tx)
  {
  }

  /** Setting a point's tangent to the one it has changes nothing. */
  lemma SetTangentToItself(sp: HermiteSpline, i: nat)
    requires i < |sp.points| && sp.points[i].tx >= 0.0
    ensures SetTangent(sp, i, sp.points[i].tx, sp.points[i].ty) == sp
  {
    var r := SetTangent(sp, i, sp.points[i].tx, sp.points[i].ty);
    assert r.points[i] == sp.points[i];
    assert r.points == sp.points;
  }

  /** Removing an interior point keeps a valid spline valid: the two
      neighbours it leaves are at least twice MinPointXDistance apart. */
  lemma RemovePreservesValid(sp: HermiteSpline, index: int)
    requires Valid(sp)
    ensures Valid(RemovePoint(sp, index))
  {
    var n := |sp.points|;
    if 0 < index < n - 1 {
      var r := RemovePoint(sp, index);
      ValidIncreasing(sp, index - 1, index + 1);
      assert r.points[index - 1] == sp.points[index - 1];
      assert r.points[|r.points| - 1] == sp.points[n - 1];
      forall j | 0 <= j < |r.points| - 1
        ensures r.points[j].x + MinPointXDistance <= r.points[j + 1].x
      {
        if j + 1 < index {
        } else if j + 1 == index {
        } else {
          assert r.points[j] == sp.points[j + 1] && r.points[j + 1] == sp.points[j + 2];
        }
      }
    }
  }

  /** Removing the point that insertPoint added gives back the spline it
      was added to. */
  lemma RemoveUndoesInsert(sp: HermiteSpline, x: real, sqrt: real -> real)
    requires TangentsDefined(sp) && IsSqrt(sqrt)
    requires InsertSpec(sp, x, sqrt).Some?
    ensures RemovePoint(InsertSpec(sp, x, sqrt).value, SegmentOf(sp.points, x).value + 1) == sp
  {
    var s := SegmentOf(sp.points, x).value;
    var r := InsertSpec(sp, x, sqrt).value;
    var back := RemovePoint(r, s + 1);
    assert |back.points| == |sp.points|;
    forall j | 0 <= j < |sp.points|
      ensures back.points[j] == sp.points[j]
    {
      if j > s {
        assert back.points[j] == r.points[j + 1];
      }
    }
    assert back.points == sp.points;
  }

  /** Inserting at the x of an existing point (the last excepted) puts a
      second point at that same x, right after it: the new spline is no
      longer valid, and the zero-width segment between the two has no
      slope. */
  lemma InsertAtControlPoint(sp: HermiteSpline, k: nat, sqrt: real -> real)
    requires Valid(sp) && k + 1 < |sp.points| && IsSqrt(sqrt)
    ensures InsertSpec(sp, sp.points[k].x, sqrt).Some?
    ensures var r := InsertSpec(sp, sp.points[k].x, sqrt).value;
            r.points[k] == sp.points[k] && r.points[k + 1].x == sp.points[k].x && !Valid(r)
  {
    ValidTangentsDefined(sp);
    SegmentOfControlPoint(sp, k);
    var r := InsertSpec(sp, sp.points[k].x, sqrt).value;
    assert r.points[k] == sp.points[k];
    assert r.points[k].x + MinPointXDistance > r.points[k + 1].x;
  }
}
