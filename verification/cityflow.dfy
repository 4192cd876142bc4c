/** The parsed CityFlow road-network document, the translator's input.

    Field names follow the JSON keys the translator reads; a road link's
    `type` key is `kind` here. Keys the translator never reads are absent. */
module CityFlow {
  import opened Geometry

  /** One entry of a road's `lanes` list. */
  datatype RoadLane = RoadLane(maxSpeed: real)

  datatype Road = Road(
    id: string,
    points: seq<Point>,
    startIntersection: string,
    endIntersection: string,
    lanes: seq<RoadLane>)

  /** A lane-to-lane movement inside a road link, by lane ordinal. */
  datatype LaneLink = LaneLink(startLaneIndex: int, endLaneIndex: int)

  /** A road-to-road movement of an intersection; `kind` is the movement tag
      (`go_straight`, `turn_left`, `turn_right` are the known ones). */
  datatype RoadLink = RoadLink(
    startRoad: string,
    endRoad: string,
    kind: string,
    laneLinks: seq<LaneLink>)

  /** One light phase: its duration and the indices (into the intersection's
      `roadLinks`) of the road links that have right of way. */
  datatype LightPhase = LightPhase(time: real, availableRoadLinks: seq<int>)

  datatype TrafficLightProgram = TrafficLightProgram(lightphases: seq<LightPhase>)

  datatype Intersection = Intersection(
    id: string,
    point: Point,
    virtual: bool,
    roadLinks: seq<RoadLink>,
    trafficLight: TrafficLightProgram)

  datatype RoadNet = RoadNet(roads: seq<Road>, intersections: seq<Intersection>)
}
