/** The SUMO network objects the translator produces. */
module Sumo {
  import opened Geometry

  /** Speed and length of every junction-interior lane; the translator uses
      these fixed values and never derives them from geometry. */
  const InternalLaneSpeed: real := 3.93
  const InternalLaneLength: real := 2.19

  datatype Lane = Lane(id: string, index: int, speed: real, length: real)

  /** A real road. */
  datatype Edge = Edge(
    id: string,
    fromJunction: string,
    toJunction: string,
    shape: seq<Point>,
    lanes: seq<Lane>)

  /** The ids of an edge's lanes, in lane order. */
  function LaneIds(e: Edge): (ids: seq<string>)
    ensures |ids| == |e.lanes|
    ensures forall i :: 0 <= i < |ids| ==> ids[i] == e.lanes[i].id
  {
    seq(|e.lanes|, i requires 0 <= i < |e.lanes| => e.lanes[i].id)
  }

  /** A junction-interior edge carrying one turning movement. */
  datatype InternalEdge = InternalEdge(id: string, lanes: seq<Lane>)

  /** SUMO junction types `traffic_light` and `dead_end`. */
  datatype JunctionKind = TrafficLight | DeadEnd

  /** A right-of-way request; the translator never creates one. */
  datatype Request = Request(index: int, response: string, foes: string)

  datatype Junction = Junction(
    id: string,
    kind: JunctionKind,
    point: Point,
    incomingLanes: seq<string>,
    intoLanes: seq<string>,
    requests: seq<Request>)

  /** Second half of a movement: internal edge to destination lane. */
  datatype InternalConnection = InternalConnection(
    fromEdge: string,
    toEdge: string,
    fromLane: int,
    toLane: int,
    direction: char)

  /** A movement from a road lane to a road lane through an internal lane;
      `index` is the link index addressing one character of every phase
      state of the junction `junctionId`. */
  datatype ViaConnection = ViaConnection(
    fromEdge: string,
    toEdge: string,
    fromLane: int,
    toLane: int,
    direction: char,
    index: int,
    viaLane: string,
    junctionId: string)

  datatype Phase = Phase(duration: real, state: string)

  datatype TLLogic = TLLogic(id: string, phases: seq<Phase>)

  datatype Network = Network(
    roadEdges: seq<Edge>,
    junctions: seq<Junction>,
    viaConnections: seq<ViaConnection>,
    internalConnections: seq<InternalConnection>,
    junctionEdges: seq<InternalEdge>,
    tllogics: seq<TLLogic>)
}
