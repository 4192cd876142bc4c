/** `translate_road`: one CityFlow road becomes one SUMO edge. */
module Roads {
  import opened Geometry
  import opened Names
  import opened Distinct
  import CityFlow
  import opened Sumo

  /** Lane `i` of the edge is named after the road and `i`, keeps the road
      lane's maximum speed, and has the length of the whole shape. */
  function TranslateRoad(road: CityFlow.Road, dist: Metric): (e: Edge)
    ensures e.id == road.id
    ensures e.fromJunction == road.startIntersection && e.toJunction == road.endIntersection
    ensures e.shape == road.points
    ensures |e.lanes| == |road.lanes|
    ensures forall i :: 0 <= i < |e.lanes| ==>
              && e.lanes[i].index == i
              && e.lanes[i].id == LaneName(road.id, i)
              && e.lanes[i].speed == road.lanes[i].maxSpeed
              && e.lanes[i].length == PolylineLength(road.points, dist)
  {
    var length := PolylineLength(road.points, dist);
    var lanes := seq(|road.lanes|, i requires 0 <= i < |road.lanes| =>
                       Lane(LaneName(road.id, i), i, road.lanes[i].maxSpeed, length));
    Edge(road.id, road.startIntersection, road.endIntersection, road.points, lanes)
  }

  /** A lane id names exactly one lane of one road: two lanes of translated
      roads share an id only if they are the same ordinal of the same road id. */
  lemma LaneIdIdentifiesLane(r1: CityFlow.Road, i: nat, r2: CityFlow.Road, j: nat, dist: Metric)
    requires i < |r1.lanes| && j < |r2.lanes|
    requires TranslateRoad(r1, dist).lanes[i].id == TranslateRoad(r2, dist).lanes[j].id
    ensures r1.id == r2.id && i == j
  {
    QualifiedInjective(r1.id, i, r2.id, j);
  }

  /** Within one edge the lane ids are pairwise distinct. */
  lemma RoadLaneIdsDistinct(road: CityFlow.Road, dist: Metric)
    ensures NoDup(LaneIds(TranslateRoad(road, dist)))
  {
    var e := TranslateRoad(road, dist);
    forall i, j | 0 <= i < j < |e.lanes|
      ensures LaneIds(e)[i] != LaneIds(e)[j]
    {
      if LaneIds(e)[i] == LaneIds(e)[j] {
        LaneIdIdentifiesLane(road, i, road, j, dist);
      }
    }
  }
}
