/** `translate_network`: a whole CityFlow road network becomes a SUMO network.

    Every road becomes an edge; the lanes meeting at each junction are
    collected from those edges; then the intersections are translated in
    document order, virtual ones to `dead_end` junctions and the others to
    signalised junctions whose connections, internal edges and programs are
    appended to the network's lists. The first intersection that fails
    aborts the whole translation. */
module Translate {
  import opened Outcomes
  import opened Geometry
  import opened Names
  import opened Distinct
  import CF = CityFlow
  import opened Sumo
  import opened Roads
  import opened Signals
  import opened Boundary

  /** What one intersection contributes to the network's lists. */
  datatype Part = Part(
    junction: Junction,
    vias: seq<ViaConnection>,
    internals: seq<InternalConnection>,
    edges: seq<InternalEdge>,
    tllogics: seq<TLLogic>)

  /** The lists the intersection loop appends to. */
  datatype Assembly = Assembly(
    junctions: seq<Junction>,
    vias: seq<ViaConnection>,
    internals: seq<InternalConnection>,
    edges: seq<InternalEdge>,
    tllogics: seq<TLLogic>)

  /** The shape every part of intersection `ix` has: the junction carries the
      intersection's id and point, is `dead_end` exactly for a virtual
      intersection and has no requests; the three connection lists have equal
      lengths and name `ix` as their junction; a virtual intersection adds no
      connections and no program, a signalised one exactly one program named
      after it. */
  predicate PartOf(ix: CF.Intersection, p: Part) {
    && p.junction.id == ix.id
    && p.junction.point == ix.point
    && (p.junction.kind == DeadEnd <==> ix.virtual)
    && p.junction.requests == []
    && |p.internals| == |p.vias|
    && |p.edges| == |p.vias|
    && (forall k :: 0 <= k < |p.vias| ==> p.vias[k].junctionId == ix.id)
    && (ix.virtual ==> p.vias == [] && p.tllogics == [])
    && (!ix.virtual ==> |p.tllogics| == 1 && p.tllogics[0].id == ix.id)
  }

  /** What a part of `ix` contributes besides a virtual junction: nothing for
      a virtual intersection; for a signalised one, exactly the junction, the
      three connection lists and the program of its translation. */
  predicate Contributes(ix: CF.Intersection, p: Part) {
    if ix.virtual then p.vias == [] && p.internals == [] && p.edges == [] && p.tllogics == []
    else
      && TranslateTlIntersection(ix).Ok?
      && var s := TranslateTlIntersection(ix).value;
         && p.junction == s.junction
         && p.vias == s.vias
         && p.internals == s.internals
         && p.edges == s.edges
         && p.tllogics == [s.tllogic]
  }

  /** The body of the intersection loop for one intersection: a virtual one
      through `translate_virtual_intersection`, any other through
      `translate_tl_intersection`. */
  function IntersectionPart(ix: CF.Intersection, incoming: LaneMap, into: LaneMap): (r: Result<Part>)
    ensures r.Ok? <==> if ix.virtual then ix.id in incoming && ix.id in into
                       else KnownDirections(ix.roadLinks) && PhasesInRange(ix)
    ensures r.Fail? && ix.virtual ==> r.error == UnknownJunction(ix.id)
    ensures r.Fail? && !ix.virtual ==>
              TranslateTlIntersection(ix).Fail? && r.error == TranslateTlIntersection(ix).error
    ensures r.Ok? && ix.virtual ==>
              r.value.junction == TranslateVirtualIntersection(ix, incoming, into).value
    ensures r.Ok? && !ix.virtual ==>
              r.value.junction == TranslateTlIntersection(ix).value.junction
    ensures r.Ok? ==> PartOf(ix, r.value) && Contributes(ix, r.value)
  {
    if ix.virtual then
      var junction :- TranslateVirtualIntersection(ix, incoming, into);
      Ok(Part(junction, [], [], [], []))
    else
      var s :- TranslateTlIntersection(ix);
      TlConnectionsAgree(ix);
      Ok(Part(s.junction, s.vias, s.internals, s.edges, [s.tllogic]))
  }

  /** Every intersection's outcome, in document order. Each translation
      depends only on its intersection and the two maps, so computing all of
      them and stopping at the first failure (`Collect`) gives what the
      source's loop gives. */
  function Parts(ixs: seq<CF.Intersection>, incoming: LaneMap, into: LaneMap): (ps: seq<Result<Part>>)
    ensures |ps| == |ixs|
    ensures forall i :: 0 <= i < |ixs| ==> ps[i] == IntersectionPart(ixs[i], incoming, into)
  {
    seq(|ixs|, i requires 0 <= i < |ixs| => IntersectionPart(ixs[i], incoming, into))
  }

  /** The intersection loop: append each part in order; the first failure
      aborts. */
  function Collect(ps: seq<Result<Part>>): Result<Assembly>
    decreases |ps|
  {
    if |ps| == 0 then Ok(Assembly([], [], [], [], []))
    else
      var a :- Collect(ps[..|ps| - 1]);
      var p :- ps[|ps| - 1];
      Ok(Assembly(a.junctions + [p.junction], a.vias + p.vias, a.internals + p.internals,
                  a.edges + p.edges, a.tllogics + p.tllogics))
  }

  /** The loop succeeds exactly when every part does, fails with the error
      of the first failing part, and otherwise yields one junction per part,
      in order. */
  lemma {:induction false} CollectSpec(ps: seq<Result<Part>>)
    ensures Collect(ps).Ok? <==> forall i :: 0 <= i < |ps| ==> ps[i].Ok?
    ensures Collect(ps).Fail? ==>
              exists i :: (0 <= i < |ps| && ps[i].Fail? && Collect(ps).error == ps[i].error
                           && forall i' :: 0 <= i' < i ==> ps[i'].Ok?)
    ensures Collect(ps).Ok? ==>
              && |Collect(ps).value.junctions| == |ps|
              && forall i :: 0 <= i < |ps| ==> Collect(ps).value.junctions[i] == ps[i].value.junction
    decreases |ps|
  {
    if |ps| > 0 {
      var last := |ps| - 1;
      var init := ps[..last];
      CollectSpec(init);
      assert forall i :: 0 <= i < last ==> ps[i] == init[i];
      var ri := Collect(init);
      if ri.Fail? {
        var i :| 0 <= i < |init| && init[i].Fail? && ri.error == init[i].error
                 && forall i' :: 0 <= i' < i ==> init[i'].Ok?;
        assert ps[i].Fail?;
      } else if ps[last].Ok? {
        var js := Collect(ps).value.junctions;
        assert js == ri.value.junctions + [ps[last].value.junction];
        forall i | 0 <= i < |ps|
          ensures ps[i].Ok? && js[i] == ps[i].value.junction
        {
          if i < last {
            assert js[i] == ri.value.junctions[i];
          }
        }
      }
    }
  }

  /** Appending parts of the shape `PartOf` keeps the connection lists of
      equal length, makes every via connection name a signalised
      intersection, and names the programs after the signalised
      intersections in document order. */
  lemma {:induction false} CollectShape(ps: seq<Result<Part>>, ixs: seq<CF.Intersection>)
    requires |ps| == |ixs| && Collect(ps).Ok?
    requires forall i :: 0 <= i < |ps| ==> ps[i].Ok? ==> PartOf(ixs[i], ps[i].value)
    ensures var a := Collect(ps).value;
            && |a.internals| == |a.vias|
            && |a.edges| == |a.vias|
            && (forall k :: 0 <= k < |a.vias| ==> a.vias[k].junctionId in SignalisedIds(ixs))
            && |a.tllogics| == |SignalisedIds(ixs)|
            && (forall t :: 0 <= t < |a.tllogics| ==> a.tllogics[t].id == SignalisedIds(ixs)[t])
    decreases |ps|
  {
    if |ps| > 0 {
      var last := |ps| - 1;
      var init, initIxs := ps[..last], ixs[..last];
      var ri := Collect(init);
      assert ri.Ok? && ps[last].Ok?;
      var b, p, ix := ri.value, ps[last].value, ixs[last];
      assert forall i :: 0 <= i < last ==> init[i] == ps[i] && initIxs[i] == ixs[i];
      CollectShape(init, initIxs);
      SignalisedIdsSnoc(ixs);
      var a := Collect(ps).value;
      assert a == Assembly(b.junctions + [p.junction], b.vias + p.vias, b.internals + p.internals,
                           b.edges + p.edges, b.tllogics + p.tllogics);
      assert PartOf(ix, p);
      var ids := SignalisedIds(ixs);
      assert ids == SignalisedIds(initIxs) + (if ix.virtual then [] else [ix.id]);
      forall k | 0 <= k < |a.vias|
        ensures a.vias[k].junctionId in ids
      {
        if k < |b.vias| {
          assert a.vias[k] == b.vias[k];
        } else {
          assert a.vias[k] == p.vias[k - |b.vias|];
        }
      }
      forall t | 0 <= t < |a.tllogics|
        ensures a.tllogics[t].id == ids[t]
      {
        if t < |b.tllogics| {
          assert a.tllogics[t] == b.tllogics[t];
        } else {
          assert a.tllogics[t] == p.tllogics[0];
        }
      }
    } else {
      assert SignalisedIds(ixs) == [];
    }
  }

  /** Every signalised intersection of `ixs` translates. */
  predicate SignalisedTranslate(ixs: seq<CF.Intersection>) {
    forall i :: 0 <= i < |ixs| && !ixs[i].virtual ==> TranslateTlIntersection(ixs[i]).Ok?
  }

  /** The translations of the signalised intersections, in document order. */
  function TlOutputs(ixs: seq<CF.Intersection>): seq<SignalisedJunction>
    requires SignalisedTranslate(ixs)
    decreases |ixs|
  {
    if |ixs| == 0 then []
    else
      var last := ixs[|ixs| - 1];
      assert forall i :: 0 <= i < |ixs| - 1 ==> ixs[..|ixs| - 1][i] == ixs[i];
      TlOutputs(ixs[..|ixs| - 1]) + (if last.virtual then [] else [TranslateTlIntersection(last).value])
  }

  /** The junctions, connection lists and programs of the translations `ss`,
      each concatenated in order. */
  function Joined(ss: seq<SignalisedJunction>): (a: Assembly)
    ensures |a.junctions| == |ss| && |a.tllogics| == |ss|
    ensures forall k :: 0 <= k < |ss| ==> a.junctions[k] == ss[k].junction && a.tllogics[k] == ss[k].tllogic
    decreases |ss|
  {
    if |ss| == 0 then Assembly([], [], [], [], [])
    else
      var a := Joined(ss[..|ss| - 1]);
      var s := ss[|ss| - 1];
      assert forall k :: 0 <= k < |ss| - 1 ==> ss[..|ss| - 1][k] == ss[k];
      Assembly(a.junctions + [s.junction], a.vias + s.vias, a.internals + s.internals,
               a.edges + s.edges, a.tllogics + [s.tllogic])
  }

  /** Appending the parts of intersections whose parts contribute their
      translations builds the concatenated translations of the signalised
      ones. */
  lemma {:induction false} CollectJoined(ps: seq<Result<Part>>, ixs: seq<CF.Intersection>)
    requires |ps| == |ixs| && Collect(ps).Ok? && SignalisedTranslate(ixs)
    requires forall i :: 0 <= i < |ps| ==> ps[i].Ok? ==> Contributes(ixs[i], ps[i].value)
    ensures var a, j := Collect(ps).value, Joined(TlOutputs(ixs));
            && a.vias == j.vias
            && a.internals == j.internals
            && a.edges == j.edges
            && a.tllogics == j.tllogics
    decreases |ps|
  {
    if |ps| > 0 {
      var last := |ps| - 1;
      var init, initIxs := ps[..last], ixs[..last];
      var ri := Collect(init);
      assert ri.Ok? && ps[last].Ok?;
      assert forall i :: 0 <= i < last ==> init[i] == ps[i] && initIxs[i] == ixs[i];
      CollectJoined(init, initIxs);
      var ss := TlOutputs(initIxs);
      var ix, p := ixs[last], ps[last].value;
      assert Contributes(ix, p);
      if !ix.virtual {
        var s := TranslateTlIntersection(ix).value;
        assert TlOutputs(ixs) == ss + [s];
        assert (ss + [s])[..|ss|] == ss;
      } else {
        assert TlOutputs(ixs) == ss;
      }
    }
  }

  /** The edges of the roads, in document order. */
  function RoadEdges(roads: seq<CF.Road>, dist: Metric): (es: seq<Edge>)
    ensures |es| == |roads|
    ensures forall i :: 0 <= i < |roads| ==> es[i] == TranslateRoad(roads[i], dist)
  {
    seq(|roads|, i requires 0 <= i < |roads| => TranslateRoad(roads[i], dist))
  }

  /** Some road ends at the junction `id`. */
  predicate RoadEndsAt(roads: seq<CF.Road>, id: string) {
    exists i :: 0 <= i < |roads| && roads[i].endIntersection == id
  }

  /** Some road starts at the junction `id`. */
  predicate RoadStartsAt(roads: seq<CF.Road>, id: string) {
    exists i :: 0 <= i < |roads| && roads[i].startIntersection == id
  }

  /** What the document must satisfy for intersection `ix` to translate: a
      virtual intersection needs a road ending and a road starting there; a
      signalised one needs known tags and in-range phases. */
  predicate Accepted(doc: CF.RoadNet, ix: CF.Intersection) {
    if ix.virtual then RoadEndsAt(doc.roads, ix.id) && RoadStartsAt(doc.roads, ix.id)
    else KnownDirections(ix.roadLinks) && PhasesInRange(ix)
  }

  /** The whole translation. */
  function TranslateNetwork(doc: CF.RoadNet, dist: Metric): (r: Result<Network>)
    ensures r.Ok? <==> forall i :: 0 <= i < |doc.intersections| ==> Accepted(doc, doc.intersections[i])
    ensures r.Ok? ==>
              && r.value.roadEdges == RoadEdges(doc.roads, dist)
              && |r.value.junctions| == |doc.intersections|
              && (forall i :: 0 <= i < |doc.intersections| ==>
                    && r.value.junctions[i].id == doc.intersections[i].id
                    && r.value.junctions[i].point == doc.intersections[i].point
                    && (r.value.junctions[i].kind == DeadEnd <==> doc.intersections[i].virtual)
                    && r.value.junctions[i].requests == [])
              && |r.value.internalConnections| == |r.value.viaConnections|
              && |r.value.junctionEdges| == |r.value.viaConnections|
  {
    var es := RoadEdges(doc.roads, dist);
    var maps := MapIncomingInto(es);
    var ps := Parts(doc.intersections, maps.0, maps.1);
    AcceptedIffOk(doc, dist);
    CollectSpec(ps);
    var a :- Collect(ps);
    CollectShape(ps, doc.intersections);
    Ok(Network(es, a.junctions, a.vias, a.internals, a.edges, a.tllogics))
  }

  /** A failed translation reports the error of the first intersection the
      document does not satisfy: `UnknownJunction` for a virtual one, the
      signalised translation's own error otherwise. */
  lemma NetworkFailure(doc: CF.RoadNet, dist: Metric)
    requires TranslateNetwork(doc, dist).Fail?
    ensures exists i :: (0 <= i < |doc.intersections|
                         && !Accepted(doc, doc.intersections[i])
                         && (forall i' :: 0 <= i' < i ==> Accepted(doc, doc.intersections[i']))
                         && (doc.intersections[i].virtual ==>
                               TranslateNetwork(doc, dist).error == UnknownJunction(doc.intersections[i].id))
                         && (!doc.intersections[i].virtual ==>
                               TranslateNetwork(doc, dist).error == TranslateTlIntersection(doc.intersections[i]).error))
  {
    var maps := MapIncomingInto(RoadEdges(doc.roads, dist));
    var ps := Parts(doc.intersections, maps.0, maps.1);
    AcceptedIffOk(doc, dist);
    CollectSpec(ps);
    assert TranslateNetwork(doc, dist).error == Collect(ps).error;
  }

  /** The junctions the maps know are exactly the junctions roads end (start) at. */
  lemma RoadEnds(roads: seq<CF.Road>, dist: Metric, id: string)
    ensures id in Ends(RoadEdges(roads, dist), Incoming) <==> RoadEndsAt(roads, id)
    ensures id in Ends(RoadEdges(roads, dist), Outgoing) <==> RoadStartsAt(roads, id)
  {
    var es := RoadEdges(roads, dist);
    if RoadEndsAt(roads, id) {
      var i :| 0 <= i < |roads| && roads[i].endIntersection == id;
      assert Endpoint(es[i], Incoming) == id;
    }
    if RoadStartsAt(roads, id) {
      var i :| 0 <= i < |roads| && roads[i].startIntersection == id;
      assert Endpoint(es[i], Outgoing) == id;
    }
  }

  /** `Accepted` is exactly the condition under which an intersection's part
      is computed without failure. */
  lemma AcceptedIffOk(doc: CF.RoadNet, dist: Metric)
    ensures var maps := MapIncomingInto(RoadEdges(doc.roads, dist));
            var ps := Parts(doc.intersections, maps.0, maps.1);
            forall i :: 0 <= i < |doc.intersections| ==> (Accepted(doc, doc.intersections[i]) <==> ps[i].Ok?)
  {
    var maps := MapIncomingInto(RoadEdges(doc.roads, dist));
    var ps := Parts(doc.intersections, maps.0, maps.1);
    forall i | 0 <= i < |doc.intersections|
      ensures Accepted(doc, doc.intersections[i]) <==> ps[i].Ok?
    {
      RoadEnds(doc.roads, dist, doc.intersections[i].id);
    }
  }

  /** A translated network is the road edges plus the lists the
      intersection loop assembled. */
  lemma NetworkAssembly(doc: CF.RoadNet, dist: Metric)
    requires TranslateNetwork(doc, dist).Ok?
    ensures var es := RoadEdges(doc.roads, dist);
            var maps := MapIncomingInto(es);
            var a := Collect(Parts(doc.intersections, maps.0, maps.1));
            && a.Ok?
            && TranslateNetwork(doc, dist).value
                 == Network(es, a.value.junctions, a.value.vias, a.value.internals, a.value.edges, a.value.tllogics)
  {
  }

  // ---------------------------------------------------------------------
  // Properties of the assembled network
  // ---------------------------------------------------------------------

  /** The ids of the signalised intersections, in document order. */
  function SignalisedIds(ixs: seq<CF.Intersection>): seq<string>
    decreases |ixs|
  {
    if |ixs| == 0 then []
    else (if ixs[0].virtual then [] else [ixs[0].id]) + SignalisedIds(ixs[1..])
  }

  lemma {:induction false} SignalisedIdsSnoc(ixs: seq<CF.Intersection>)
    requires 0 < |ixs|
    ensures var last := ixs[|ixs| - 1];
            SignalisedIds(ixs) == SignalisedIds(ixs[..|ixs| - 1]) + (if last.virtual then [] else [last.id])
    decreases |ixs|
  {
    if |ixs| > 1 {
      var tail := ixs[1..];
      SignalisedIdsSnoc(tail);
      assert tail[..|tail| - 1] == ixs[..|ixs| - 1][1..];
    }
  }

  /** The network's via connections, internal connections, internal edges
      and programs are those of the signalised intersections' translations,
      each list concatenated in document order. */
  lemma NetworkLists(doc: CF.RoadNet, dist: Metric)
    requires TranslateNetwork(doc, dist).Ok?
    ensures SignalisedTranslate(doc.intersections)
    ensures var n, j := TranslateNetwork(doc, dist).value, Joined(TlOutputs(doc.intersections));
            && n.viaConnections == j.vias
            && n.internalConnections == j.internals
            && n.junctionEdges == j.edges
            && n.tllogics == j.tllogics
  {
    var maps := MapIncomingInto(RoadEdges(doc.roads, dist));
    var ps := Parts(doc.intersections, maps.0, maps.1);
    NetworkAssembly(doc, dist);
    CollectSpec(ps);
    CollectJoined(ps, doc.intersections);
  }

  /** Junction `i` of the network is the junction intersection `i`
      translates to: by `translate_virtual_intersection` against the maps of
      the road edges, or by `translate_tl_intersection`. */
  lemma NetworkJunctions(doc: CF.RoadNet, dist: Metric, i: nat)
    requires TranslateNetwork(doc, dist).Ok? && i < |doc.intersections|
    ensures var n, ix := TranslateNetwork(doc, dist).value, doc.intersections[i];
            var maps := MapIncomingInto(RoadEdges(doc.roads, dist));
            && (ix.virtual ==>
                  && TranslateVirtualIntersection(ix, maps.0, maps.1).Ok?
                  && n.junctions[i] == TranslateVirtualIntersection(ix, maps.0, maps.1).value)
            && (!ix.virtual ==>
                  && TranslateTlIntersection(ix).Ok?
                  && n.junctions[i] == TranslateTlIntersection(ix).value.junction)
  {
    var maps := MapIncomingInto(RoadEdges(doc.roads, dist));
    var ps := Parts(doc.intersections, maps.0, maps.1);
    NetworkAssembly(doc, dist);
    CollectSpec(ps);
    assert ps[i] == IntersectionPart(doc.intersections[i], maps.0, maps.1);
  }

  /** The network's traffic-light programs are the programs of the
      signalised intersections' translations, one each, in document order,
      each named after its intersection. */
  lemma NetworkTllogics(doc: CF.RoadNet, dist: Metric)
    requires TranslateNetwork(doc, dist).Ok?
    ensures SignalisedTranslate(doc.intersections)
    ensures var n, ss := TranslateNetwork(doc, dist).value, TlOutputs(doc.intersections);
            && |n.tllogics| == |ss| == |SignalisedIds(doc.intersections)|
            && forall t :: 0 <= t < |n.tllogics| ==>
                 && n.tllogics[t] == ss[t].tllogic
                 && n.tllogics[t].id == SignalisedIds(doc.intersections)[t]
  {
    var maps := MapIncomingInto(RoadEdges(doc.roads, dist));
    NetworkAssembly(doc, dist);
    CollectShape(Parts(doc.intersections, maps.0, maps.1), doc.intersections);
    NetworkLists(doc, dist);
  }

  /** Every via connection of the network belongs to a signalised
      intersection of the document, and that junction has a traffic-light
      program in the network. */
  lemma NetworkVias(doc: CF.RoadNet, dist: Metric)
    requires TranslateNetwork(doc, dist).Ok?
    ensures var n := TranslateNetwork(doc, dist).value;
            forall k :: 0 <= k < |n.viaConnections| ==>
              && n.viaConnections[k].junctionId in SignalisedIds(doc.intersections)
              && HasProgram(n.tllogics, n.viaConnections[k].junctionId)
  {
    var n := TranslateNetwork(doc, dist).value;
    var maps := MapIncomingInto(RoadEdges(doc.roads, dist));
    NetworkAssembly(doc, dist);
    CollectShape(Parts(doc.intersections, maps.0, maps.1), doc.intersections);
    ViasHavePrograms(n.viaConnections, n.tllogics, SignalisedIds(doc.intersections));
  }

  /** Via connections naming listed junctions, with one program per listed
      junction in list order, all have a program. */
  lemma ViasHavePrograms(vias: seq<ViaConnection>, tls: seq<TLLogic>, ids: seq<string>)
    requires forall k :: 0 <= k < |vias| ==> vias[k].junctionId in ids
    requires |tls| == |ids| && forall t :: 0 <= t < |tls| ==> tls[t].id == ids[t]
    ensures forall k :: 0 <= k < |vias| ==> HasProgram(tls, vias[k].junctionId)
  {
    forall k | 0 <= k < |vias|
      ensures HasProgram(tls, vias[k].junctionId)
    {
      var t :| 0 <= t < |ids| && ids[t] == vias[k].junctionId;
      assert tls[t].id == vias[k].junctionId;
    }
  }

  /** Some program in `tls` is named `id`. */
  predicate HasProgram(tls: seq<TLLogic>, id: string) {
    exists t :: 0 <= t < |tls| && tls[t].id == id
  }

  /** The junction of a virtual intersection lists, without repetition and in
      first-occurrence order, exactly the lanes of the roads ending there
      (incoming) and of the roads starting there (into). */
  lemma NetworkVirtualJunction(doc: CF.RoadNet, dist: Metric, i: nat)
    requires TranslateNetwork(doc, dist).Ok?
    requires i < |doc.intersections| && doc.intersections[i].virtual
    ensures var n, id := TranslateNetwork(doc, dist).value, doc.intersections[i].id;
            var es := RoadEdges(doc.roads, dist);
            && NoDup(n.junctions[i].incomingLanes)
            && NoDup(n.junctions[i].intoLanes)
            && n.junctions[i].incomingLanes == FirstOccurrences(LanesAt(es, Incoming, id))
            && n.junctions[i].intoLanes == FirstOccurrences(LanesAt(es, Outgoing, id))
            && (forall x :: x in n.junctions[i].incomingLanes <==>
                  exists r, l :: (0 <= r < |doc.roads| && doc.roads[r].endIntersection == id
                                  && 0 <= l < |doc.roads[r].lanes| && x == LaneName(doc.roads[r].id, l)))
            && (forall x :: x in n.junctions[i].intoLanes <==>
                  exists r, l :: (0 <= r < |doc.roads| && doc.roads[r].startIntersection == id
                                  && 0 <= l < |doc.roads[r].lanes| && x == LaneName(doc.roads[r].id, l)))
  {
    var n, ix := TranslateNetwork(doc, dist).value, doc.intersections[i];
    var maps := MapIncomingInto(RoadEdges(doc.roads, dist));
    var j := n.junctions[i];
    assert TranslateVirtualIntersection(ix, maps.0, maps.1).Ok?
           && j == TranslateVirtualIntersection(ix, maps.0, maps.1).value by {
      var ps := Parts(doc.intersections, maps.0, maps.1);
      NetworkAssembly(doc, dist);
      CollectSpec(ps);
      assert ps[i] == IntersectionPart(ix, maps.0, maps.1);
      assert j == ps[i].value.junction;
    }
    VirtualFromRoads(ix, doc.roads, dist);
  }

  /** The same for one virtual intersection against the maps of any road list. */
  lemma VirtualFromRoads(ix: CF.Intersection, roads: seq<CF.Road>, dist: Metric)
    requires ix.virtual
    ensures var es := RoadEdges(roads, dist);
            var maps := MapIncomingInto(es);
            var r := TranslateVirtualIntersection(ix, maps.0, maps.1);
            r.Ok? ==>
              && NoDup(r.value.incomingLanes)
              && NoDup(r.value.intoLanes)
              && r.value.incomingLanes == FirstOccurrences(LanesAt(es, Incoming, ix.id))
              && r.value.intoLanes == FirstOccurrences(LanesAt(es, Outgoing, ix.id))
              && (forall x :: x in r.value.incomingLanes <==>
                    exists r, l :: (0 <= r < |roads| && roads[r].endIntersection == ix.id
                                    && 0 <= l < |roads[r].lanes| && x == LaneName(roads[r].id, l)))
              && (forall x :: x in r.value.intoLanes <==>
                    exists r, l :: (0 <= r < |roads| && roads[r].startIntersection == ix.id
                                    && 0 <= l < |roads[r].lanes| && x == LaneName(roads[r].id, l)))
  {
    var es := RoadEdges(roads, dist);
    var maps := MapIncomingInto(es);
    var res := TranslateVirtualIntersection(ix, maps.0, maps.1);
    if res.Ok? {
      var j := res.value;
      VirtualJunctionLanes(ix, es);
      assert forall x :: x in j.incomingLanes <==> x in LanesAt(es, Incoming, ix.id);
      assert forall x :: x in j.intoLanes <==> x in LanesAt(es, Outgoing, ix.id);
      LanesOfRoads(roads, dist, Incoming, ix.id, j.incomingLanes);
      LanesOfRoads(roads, dist, Outgoing, ix.id, j.intoLanes);
    }
  }

  /** A lane list with the members of `LanesAt` for `id` holds exactly the
      names of the lanes of the roads with `id` at that end. */
  lemma LanesOfRoads(roads: seq<CF.Road>, dist: Metric, side: Side, id: string, lanes: seq<string>)
    requires forall x :: x in lanes <==> x in LanesAt(RoadEdges(roads, dist), side, id)
    ensures forall x :: x in lanes <==>
              exists r, l :: (0 <= r < |roads| && RoadEnd(roads[r], side) == id
                              && 0 <= l < |roads[r].lanes| && x == LaneName(roads[r].id, l))
  {
    forall x
      ensures x in lanes <==>
                exists r, l :: (0 <= r < |roads| && RoadEnd(roads[r], side) == id
                                && 0 <= l < |roads[r].lanes| && x == LaneName(roads[r].id, l))
    {
      RoadLanesAt(roads, dist, side, id, x);
    }
  }

  /** The lane ids collected for junction `id` are the names of the lanes of
      the roads with `id` at that end. */
  lemma RoadLanesAt(roads: seq<CF.Road>, dist: Metric, side: Side, id: string, x: string)
    ensures x in LanesAt(RoadEdges(roads, dist), side, id) <==>
              exists r, l :: (0 <= r < |roads| && RoadEnd(roads[r], side) == id
                              && 0 <= l < |roads[r].lanes| && x == LaneName(roads[r].id, l))
  {
    var es := RoadEdges(roads, dist);
    LanesAtMembers(es, side, id, x);
    if x in LanesAt(es, side, id) {
      var r, l :| 0 <= r < |es| && Endpoint(es[r], side) == id
                  && 0 <= l < |es[r].lanes| && x == es[r].lanes[l].id;
      assert RoadEnd(roads[r], side) == id;
    }
    if exists r, l :: (0 <= r < |roads| && RoadEnd(roads[r], side) == id
                       && 0 <= l < |roads[r].lanes| && x == LaneName(roads[r].id, l)) {
      var r, l :| 0 <= r < |roads| && RoadEnd(roads[r], side) == id
                  && 0 <= l < |roads[r].lanes| && x == LaneName(roads[r].id, l);
      assert Endpoint(es[r], side) == id && x == es[r].lanes[l].id;
    }
  }

  /** The road-side counterpart of `Endpoint`. */
  function RoadEnd(road: CF.Road, side: Side): string {
    match side
    case Incoming => road.endIntersection
    case Outgoing => road.startIntersection
  }

  /** A virtual intersection that no road ends at aborts the translation. */
  lemma DanglingBoundaryFails(doc: CF.RoadNet, dist: Metric, i: nat)
    requires i < |doc.intersections| && doc.intersections[i].virtual
    requires forall r :: 0 <= r < |doc.roads| ==> doc.roads[r].endIntersection != doc.intersections[i].id
    ensures TranslateNetwork(doc, dist).Fail?
  {
    assert !Accepted(doc, doc.intersections[i]);
  }
}
