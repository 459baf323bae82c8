/** Corner extraction for detected text boxes (test_craft.py, lines 167-182).

    Each detected box is a list of points.  The script keeps, per box, a "min point" and a
    "max point".  It does not take a per-axis minimum or maximum: it starts from the box's
    first and third points and replaces the candidate whenever a later point is componentwise
    at or below it (for the min point) or at or above it (for the max point).  The result is
    therefore always one of the box's own points. */
module Geometry {

  /** A point in image pixel coordinates; y grows downward. */
  datatype Point = Point(x: real, y: real)

  /** The pair (min point, max point) the script stores for one box. */
  datatype Extent = Extent(lo: Point, hi: Point) {
    /** Top edge: the min point's y. */
    function Top(): real { lo.y }
    /** Bottom edge: the max point's y. */
    function Bottom(): real { hi.y }
    /** Left edge: the min point's x. */
    function Left(): real { lo.x }
  }

  /** `p` is componentwise at or below `q`. */
  predicate ComponentwiseLe(p: Point, q: Point) {
    p.x <= q.x && p.y <= q.y
  }

  /** The min point after scanning `box` in order, starting from candidate `m`.
      The result never lies above `m`, and no point of the box lies strictly below it. */
  function ScanMin(box: seq<Point>, m: Point): (r: Point)
    ensures r == m || r in box
    ensures ComponentwiseLe(r, m)
    ensures forall k :: 0 <= k < |box| && ComponentwiseLe(box[k], r) ==> box[k] == r
    decreases |box|
  {
    if box == [] then m
    else ScanMin(box[1..], if ComponentwiseLe(box[0], m) then box[0] else m)
  }

  /** The max point after scanning `box` in order, starting from candidate `m`.
      The result never lies below `m`, and no point of the box lies strictly above it. */
  function ScanMax(box: seq<Point>, m: Point): (r: Point)
    ensures r == m || r in box
    ensures ComponentwiseLe(m, r)
    ensures forall k :: 0 <= k < |box| && ComponentwiseLe(r, box[k]) ==> box[k] == r
    decreases |box|
  {
    if box == [] then m
    else ScanMax(box[1..], if ComponentwiseLe(m, box[0]) then box[0] else m)
  }

  /** The corner pick of lines 170-180 for one box. */
  method ExtractCorners(box: seq<Point>) returns (minPoint: Point, maxPoint: Point)
    requires |box| >= 3
    ensures minPoint == ScanMin(box, box[0]) && maxPoint == ScanMax(box, box[2])
    ensures minPoint in box && ComponentwiseLe(minPoint, box[0])
    ensures maxPoint in box && ComponentwiseLe(box[2], maxPoint)
    ensures forall k :: 0 <= k < |box| && ComponentwiseLe(box[k], minPoint) ==> box[k] == minPoint
    ensures forall k :: 0 <= k < |box| && ComponentwiseLe(maxPoint, box[k]) ==> box[k] == maxPoint
  {
    minPoint, maxPoint := box[0], box[2];
    for j := 0 to |box|
      invariant ScanMin(box[j..], minPoint) == ScanMin(box, box[0])
      invariant ScanMax(box[j..], maxPoint) == ScanMax(box, box[2])
    {
      assert box[j..][1..] == box[j + 1..];
      var p := box[j];
      if ComponentwiseLe(p, minPoint) {
        minPoint := p;
      }
      if ComponentwiseLe(maxPoint, p) {
        maxPoint := p;
      }
    }
    assert box[|box|..] == [];
  }

  /** The loop of lines 169-182 over all detected boxes: one extent per box, every order
      entry 0 ("not yet placed in a row"). */
  method ExtractAll(bboxes: seq<seq<Point>>) returns (points: seq<Extent>, order: seq<int>)
    requires forall i :: 0 <= i < |bboxes| ==> |bboxes[i]| >= 3
    ensures |points| == |order| == |bboxes|
    ensures forall i :: 0 <= i < |bboxes| ==>
      points[i] == Extent(ScanMin(bboxes[i], bboxes[i][0]), ScanMax(bboxes[i], bboxes[i][2]))
    ensures forall i :: 0 <= i < |order| ==> order[i] == 0
  {
    points, order := [], [];
    for i := 0 to |bboxes|
      invariant |points| == |order| == i
      invariant forall k :: 0 <= k < i ==>
        points[k] == Extent(ScanMin(bboxes[k], bboxes[k][0]), ScanMax(bboxes[k], bboxes[k][2]))
      invariant forall k :: 0 <= k < i ==> order[k] == 0
    {
      var minPoint, maxPoint := ExtractCorners(bboxes[i]);
      points := points + [Extent(minPoint, maxPoint)];
      order := order + [0];
    }
  }

  /** For an axis-aligned rectangle whose corners are listed in any order, the scan yields
      its top-left and bottom-right corners. */
  lemma {:induction false} RectangleCorners(box: seq<Point>, left: real, top: real, right: real, bottom: real)
    requires |box| >= 3 && left <= right && top <= bottom
    requires forall k :: 0 <= k < |box| ==>
      (box[k].x == left || box[k].x == right) && (box[k].y == top || box[k].y == bottom)
    requires Point(left, top) in box && Point(right, bottom) in box
    ensures ScanMin(box, box[0]) == Point(left, top)
    ensures ScanMax(box, box[2]) == Point(right, bottom)
  {
    var lo, hi := ScanMin(box, box[0]), ScanMax(box, box[2]);
    var a :| 0 <= a < |box| && box[a] == Point(left, top);
    var b :| 0 <= b < |box| && box[b] == Point(right, bottom);
    assert lo in box;
    assert ComponentwiseLe(box[a], lo);
    assert hi in box;
    assert ComponentwiseLe(hi, box[b]);
  }

  /** The picked min point can lie below the picked max point: here the min point is (0, 5)
      and the max point (3, 3), so the box's top edge is lower than its bottom edge. */
  lemma InvertedExtentExample()
    ensures var box := [Point(0.0, 5.0), Point(1.0, 1.0), Point(2.0, 0.0), Point(3.0, 3.0)];
      ScanMin(box, box[0]) == Point(0.0, 5.0) && ScanMax(box, box[2]) == Point(3.0, 3.0)
  {
    var box := [Point(0.0, 5.0), Point(1.0, 1.0), Point(2.0, 0.0), Point(3.0, 3.0)];
    assert box[1..] == [Point(1.0, 1.0), Point(2.0, 0.0), Point(3.0, 3.0)];
    assert box[1..][1..] == [Point(2.0, 0.0), Point(3.0, 3.0)];
    assert box[1..][1..][1..] == [Point(3.0, 3.0)];
    assert box[1..][1..][1..][1..] == [];
  }
}
