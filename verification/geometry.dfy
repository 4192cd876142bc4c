/** Points and polyline length.

    `Point.distance` is Euclidean distance computed in floating point. Dafny's
    reals have no square root, so the distance is a parameter `dist` of the
    functions that need it; a road's length is stated only as a sum of its
    values. */
module Geometry {

  datatype Point = Point(x: real, y: real)

  /** A distance function between points, standing for `Point.distance`. */
  type Metric = (Point, Point) -> real

  /** The length of a road's shape: the distances between consecutive
      points, added up from the first segment to the last. */
  function PolylineLength(pts: seq<Point>, dist: Metric): (len: real)
    ensures |pts| < 2 ==> len == 0.0
    ensures |pts| == 2 ==> len == dist(pts[1], pts[0])
    ensures (forall p, q :: dist(p, q) >= 0.0) ==> len >= 0.0
    decreases |pts|
  {
    if |pts| < 2 then 0.0
    else PolylineLength(pts[..|pts| - 1], dist) + dist(pts[|pts| - 1], pts[|pts| - 2])
  }

  /** Cutting a polyline at any shape point splits its length in two. */
  lemma {:induction false} PolylineSplit(pts: seq<Point>, k: nat, dist: Metric)
    requires k < |pts|
    ensures PolylineLength(pts, dist) == PolylineLength(pts[..k + 1], dist) + PolylineLength(pts[k..], dist)
    decreases |pts|
  {
    if k < |pts| - 1 {
      var init := pts[..|pts| - 1];
      PolylineSplit(init, k, dist);
      assert init[..k + 1] == pts[..k + 1];
      assert pts[k..][..|pts[k..]| - 1] == init[k..];
    } else {
      assert pts[..k + 1] == pts;
    }
  }

  /** The length seen segment by segment from the front: the first segment
      plus the length of the rest. */
  lemma PolylineFirstSegment(pts: seq<Point>, dist: Metric)
    requires 2 <= |pts|
    ensures PolylineLength(pts, dist) == dist(pts[1], pts[0]) + PolylineLength(pts[1..], dist)
  {
    PolylineSplit(pts, 1, dist);
    assert pts[..2] == [pts[0], pts[1]];
  }
}
