/** `map_incoming_into_junction_edges` and `translate_virtual_intersection`:
    the lanes meeting at each junction, and the `dead_end` junction of a
    virtual (boundary) intersection.

    The source fills two dicts keyed by junction id whose values are dicts
    used as ordered sets of lane ids; here a value is the key list of such a
    dict, kept by `DedupOnto`. */
module Boundary {
  import opened Outcomes
  import opened Distinct
  import CF = CityFlow
  import opened Sumo

  /** Which end of an edge a map files it under: `Incoming` collects the lanes
      of edges ending at a junction, `Outgoing` those of edges starting there. */
  datatype Side = Incoming | Outgoing

  function Endpoint(e: Edge, side: Side): string {
    match side
    case Incoming => e.toJunction
    case Outgoing => e.fromJunction
  }

  /** Junction id to the lane ids meeting there, in insertion order. */
  type LaneMap = map<string, seq<string>>

  /** One loop iteration for one of the two maps: create the junction's entry
      if it is missing, then insert the edge's lane ids in lane order. */
  function AddEdge(m: LaneMap, e: Edge, side: Side): (m': LaneMap)
    ensures m'.Keys == m.Keys + {Endpoint(e, side)}
    ensures forall j :: j in m && j != Endpoint(e, side) ==> m'[j] == m[j]
    ensures forall x :: x in m'[Endpoint(e, side)] <==>
              (Endpoint(e, side) in m && x in m[Endpoint(e, side)]) || x in LaneIds(e)
  {
    var key := Endpoint(e, side);
    var prev := if key in m then m[key] else [];
    DedupOntoSpec(prev, LaneIds(e));
    m[key := DedupOnto(prev, LaneIds(e))]
  }

  /** The loop over `edges`, for one side. */
  function GroupLanes(edges: seq<Edge>, side: Side): LaneMap
    decreases |edges|
  {
    if |edges| == 0 then map[]
    else AddEdge(GroupLanes(edges[..|edges| - 1], side), edges[|edges| - 1], side)
  }

  /** The incoming map and the into map. */
  function MapIncomingInto(edges: seq<Edge>): (maps: (LaneMap, LaneMap))
    ensures maps.0.Keys == Ends(edges, Incoming)
    ensures maps.1.Keys == Ends(edges, Outgoing)
    ensures forall j :: j in maps.0 ==> maps.0[j] == FirstOccurrences(LanesAt(edges, Incoming, j))
    ensures forall j :: j in maps.1 ==> maps.1[j] == FirstOccurrences(LanesAt(edges, Outgoing, j))
  {
    GroupLanesSpec(edges, Incoming);
    GroupLanesSpec(edges, Outgoing);
    GroupLanesFirstOccurrences(edges, Incoming);
    GroupLanesFirstOccurrences(edges, Outgoing);
    (GroupLanes(edges, Incoming), GroupLanes(edges, Outgoing))
  }

  // ---------------------------------------------------------------------
  // Reference description
  // ---------------------------------------------------------------------

  /** The junctions some edge has on the given side. */
  function Ends(edges: seq<Edge>, side: Side): set<string> {
    set i | 0 <= i < |edges| :: Endpoint(edges[i], side)
  }

  /** The lane ids of the edges with junction `j` on the given side, edge by
      edge, repetitions kept. */
  function LanesAt(edges: seq<Edge>, side: Side, j: string): seq<string>
    decreases |edges|
  {
    if |edges| == 0 then []
    else
      var e := edges[|edges| - 1];
      LanesAt(edges[..|edges| - 1], side, j) + (if Endpoint(e, side) == j then LaneIds(e) else [])
  }

  lemma EndsSnoc(edges: seq<Edge>, side: Side)
    requires 0 < |edges|
    ensures Ends(edges, side) == Ends(edges[..|edges| - 1], side) + {Endpoint(edges[|edges| - 1], side)}
  {
    var init := edges[..|edges| - 1];
    forall j | j in Ends(edges, side)
      ensures j in Ends(init, side) + {Endpoint(edges[|edges| - 1], side)}
    {
      var i :| 0 <= i < |edges| && Endpoint(edges[i], side) == j;
      if i < |init| {
        assert Endpoint(init[i], side) == j;
      }
    }
    forall j | j in Ends(init, side)
      ensures j in Ends(edges, side)
    {
      var i :| 0 <= i < |init| && Endpoint(init[i], side) == j;
      assert Endpoint(edges[i], side) == j;
    }
  }

  /** A junction no edge has on the given side collects no lanes. */
  lemma {:induction false} LanesAtAbsent(edges: seq<Edge>, side: Side, j: string)
    requires j !in Ends(edges, side)
    ensures LanesAt(edges, side, j) == []
    decreases |edges|
  {
    if |edges| > 0 {
      EndsSnoc(edges, side);
      LanesAtAbsent(edges[..|edges| - 1], side, j);
    }
  }

  /** The loop builds, for every junction it has seen, the key list of its
      reference lane sequence, and has seen exactly the junctions some edge
      has on that side, including edges without lanes. */
  lemma {:induction false} GroupLanesSpec(edges: seq<Edge>, side: Side)
    ensures GroupLanes(edges, side).Keys == Ends(edges, side)
    ensures forall j :: j in GroupLanes(edges, side) ==>
              GroupLanes(edges, side)[j] == Dedup(LanesAt(edges, side, j))
    decreases |edges|
  {
    if |edges| > 0 {
      var init, e := edges[..|edges| - 1], edges[|edges| - 1];
      var m, key := GroupLanes(init, side), Endpoint(e, side);
      var g := GroupLanes(edges, side);
      assert g == AddEdge(m, e, side);
      GroupLanesSpec(init, side);
      EndsSnoc(edges, side);
      forall j | j in g
        ensures g[j] == Dedup(LanesAt(edges, side, j))
      {
        assert LanesAt(edges, side, j) == LanesAt(init, side, j) + (if key == j then LaneIds(e) else []);
        if j == key {
          var prev := if key in m then m[key] else [];
          if key !in m {
            LanesAtAbsent(init, side, key);
          }
          assert prev == Dedup(LanesAt(init, side, key));
          assert g[j] == DedupOnto(prev, LaneIds(e));
          DedupOntoConcat([], LanesAt(init, side, key), LaneIds(e));
        } else {
          assert g[j] == m[j];
          assert LanesAt(init, side, j) + [] == LanesAt(init, side, j);
        }
      }
    } else {
      assert Ends(edges, side) == {};
    }
  }

  /** The same, against the first-occurrence reference. */
  lemma GroupLanesFirstOccurrences(edges: seq<Edge>, side: Side)
    ensures forall j :: j in GroupLanes(edges, side) ==>
              GroupLanes(edges, side)[j] == FirstOccurrences(LanesAt(edges, side, j))
  {
    GroupLanesSpec(edges, side);
    forall j | j in GroupLanes(edges, side)
      ensures GroupLanes(edges, side)[j] == FirstOccurrences(LanesAt(edges, side, j))
    {
      DedupIsFirstOccurrences(LanesAt(edges, side, j));
    }
  }

  /** A lane id is collected for junction `j` exactly when it is the id of a
      lane of an edge with `j` on that side. */
  lemma {:induction false} LanesAtMembers(edges: seq<Edge>, side: Side, j: string, x: string)
    ensures x in LanesAt(edges, side, j) <==>
              exists i, l :: 0 <= i < |edges| && Endpoint(edges[i], side) == j
                             && 0 <= l < |edges[i].lanes| && x == edges[i].lanes[l].id
    decreases |edges|
  {
    if |edges| > 0 {
      var last := |edges| - 1;
      var init := edges[..last];
      LanesAtMembers(init, side, j, x);
      if x in LanesAt(edges, side, j) {
        if x in LanesAt(init, side, j) {
          var i, l :| 0 <= i < |init| && Endpoint(init[i], side) == j
                      && 0 <= l < |init[i].lanes| && x == init[i].lanes[l].id;
          assert edges[i] == init[i];
        } else {
          var l :| 0 <= l < |edges[last].lanes| && LaneIds(edges[last])[l] == x;
        }
      }
      if exists i, l :: 0 <= i < |edges| && Endpoint(edges[i], side) == j
                        && 0 <= l < |edges[i].lanes| && x == edges[i].lanes[l].id {
        var i, l :| 0 <= i < |edges| && Endpoint(edges[i], side) == j
                    && 0 <= l < |edges[i].lanes| && x == edges[i].lanes[l].id;
        if i < last {
          assert init[i] == edges[i];
        } else {
          assert LaneIds(edges[last])[l] == x;
        }
      }
    }
  }

  /** Every lane of every edge is listed under the junction the edge ends at
      in the incoming map and under the junction it starts at in the into
      map, and no list repeats a lane id. */
  lemma MapsContents(edges: seq<Edge>)
    ensures var maps := MapIncomingInto(edges);
            forall i, l :: 0 <= i < |edges| && 0 <= l < |edges[i].lanes| ==>
              && edges[i].toJunction in maps.0 && edges[i].lanes[l].id in maps.0[edges[i].toJunction]
              && edges[i].fromJunction in maps.1 && edges[i].lanes[l].id in maps.1[edges[i].fromJunction]
    ensures var maps := MapIncomingInto(edges);
            && (forall j :: j in maps.0 ==> NoDup(maps.0[j]))
            && (forall j :: j in maps.1 ==> NoDup(maps.1[j]))
  {
    var maps := MapIncomingInto(edges);
    GroupLanesSpec(edges, Incoming);
    GroupLanesSpec(edges, Outgoing);
    forall i, l | 0 <= i < |edges| && 0 <= l < |edges[i].lanes|
      ensures edges[i].toJunction in maps.0 && edges[i].lanes[l].id in maps.0[edges[i].toJunction]
      ensures edges[i].fromJunction in maps.1 && edges[i].lanes[l].id in maps.1[edges[i].fromJunction]
    {
      var to, from, x := edges[i].toJunction, edges[i].fromJunction, edges[i].lanes[l].id;
      assert Endpoint(edges[i], Incoming) == to && Endpoint(edges[i], Outgoing) == from;
      LanesAtMembers(edges, Incoming, to, x);
      LanesAtMembers(edges, Outgoing, from, x);
    }
  }

  // ---------------------------------------------------------------------
  // translate_virtual_intersection
  // ---------------------------------------------------------------------

  /** A boundary intersection becomes a `dead_end` junction with the lanes the
      maps hold for it; the lookup in either map aborts when the id is
      missing. */
  function TranslateVirtualIntersection(ix: CF.Intersection, incoming: LaneMap, into: LaneMap): (r: Result<Junction>)
    ensures r.Ok? <==> ix.id in incoming && ix.id in into
    ensures r.Fail? ==> r.error == UnknownJunction(ix.id)
    ensures r.Ok? ==> r.value == Junction(ix.id, DeadEnd, ix.point, incoming[ix.id], into[ix.id], [])
  {
    if ix.id !in incoming then Fail(UnknownJunction(ix.id))
    else if ix.id !in into then Fail(UnknownJunction(ix.id))
    else Ok(Junction(ix.id, DeadEnd, ix.point, incoming[ix.id], into[ix.id], []))
  }

  /** With the maps built from `edges`: a virtual intersection translates
      exactly when some edge ends at it and some edge starts at it, and then
      its lane lists are repetition-free and hold exactly the lane ids of the
      edges ending (starting) there, in first-occurrence order. */
  lemma VirtualJunctionLanes(ix: CF.Intersection, edges: seq<Edge>)
    ensures var (incoming, into) := MapIncomingInto(edges);
            var ok := TranslateVirtualIntersection(ix, incoming, into).Ok?;
            ok <==> ix.id in Ends(edges, Incoming) && ix.id in Ends(edges, Outgoing)
    ensures var (incoming, into) := MapIncomingInto(edges);
            var r := TranslateVirtualIntersection(ix, incoming, into);
            r.Ok? ==>
              && NoDup(r.value.incomingLanes)
              && NoDup(r.value.intoLanes)
              && r.value.incomingLanes == FirstOccurrences(LanesAt(edges, Incoming, ix.id))
              && r.value.intoLanes == FirstOccurrences(LanesAt(edges, Outgoing, ix.id))
              && (forall x :: x in r.value.incomingLanes <==> x in LanesAt(edges, Incoming, ix.id))
              && (forall x :: x in r.value.intoLanes <==> x in LanesAt(edges, Outgoing, ix.id))
  {
    GroupLanesSpec(edges, Incoming);
    GroupLanesSpec(edges, Outgoing);
    GroupLanesFirstOccurrences(edges, Incoming);
    GroupLanesFirstOccurrences(edges, Outgoing);
  }
}
