/** `translate_direction` and `translate_tl_intersection`: a signalised
    CityFlow intersection becomes a `traffic_light` junction, one via
    connection, one internal connection and one single-lane internal edge per
    lane link, and a traffic-light program.

    `AddRoadLinks` / `AddLaneLinks` / `AddLaneLink` follow the source's two
    nested loops step by step; `TablesOf` is a reference description of what
    those loops build, indexed by link index, and `TablesCorrect` proves the
    two agree. The properties of the output are stated about the reference. */
module Signals {
  import opened Outcomes
  import opened Names
  import opened Distinct
  import opened LinkIndex
  import opened Phases
  import CF = CityFlow
  import opened Sumo

  /** The three movement tags the translator knows. */
  const DirectionTags: set<string> := {"go_straight", "turn_left", "turn_right"}

  /** A movement tag to its SUMO direction code; any other tag aborts. */
  function TranslateDirection(tag: string): (r: Result<char>)
    ensures r.Ok? <==> tag in DirectionTags
    ensures r.Ok? ==> r.value in "slr"
    ensures r.Fail? ==> r.error == UnknownDirection(tag)
  {
    if tag == "go_straight" then Ok('s')
    else if tag == "turn_left" then Ok('l')
    else if tag == "turn_right" then Ok('r')
    else Fail(UnknownDirection(tag))
  }

  /** The tag a direction code comes from. */
  function DirectionTag(code: char): string
    requires code in "slr"
  {
    if code == 's' then "go_straight" else if code == 'l' then "turn_left" else "turn_right"
  }

  /** The direction map is a bijection between the three tags and `s`, `l`, `r`. */
  lemma DirectionBijection(tag: string, code: char)
    ensures TranslateDirection(tag) == Ok(code) <==> code in "slr" && DirectionTag(code) == tag
  {
  }

  /** The direction code of a known tag. */
  function Code(tag: string): char
    requires tag in DirectionTags
  {
    TranslateDirection(tag).value
  }

  /** All road links carry known tags. */
  predicate KnownDirections(links: seq<CF.RoadLink>) {
    forall r :: 0 <= r < |links| ==> links[r].kind in DirectionTags
  }

  // ---------------------------------------------------------------------
  // What one lane link produces (the body of the inner loop)
  // ---------------------------------------------------------------------

  /** The via connection of lane link `ll` of `link`, given link index `k`.
      The lane ordinals are copied as they are. */
  function ViaFor(junction: string, link: CF.RoadLink, dir: char, ll: CF.LaneLink, k: int): ViaConnection {
    ViaConnection(link.startRoad, link.endRoad, ll.startLaneIndex, ll.endLaneIndex, dir, k,
                  LaneName(InternalEdgeName(junction, k), 0), junction)
  }

  function InternalFor(junction: string, link: CF.RoadLink, dir: char, ll: CF.LaneLink, k: int): InternalConnection {
    InternalConnection(InternalEdgeName(junction, k), link.endRoad, 0, ll.endLaneIndex, dir)
  }

  function InternalEdgeFor(junction: string, k: int): InternalEdge {
    var name := InternalEdgeName(junction, k);
    InternalEdge(name, [Lane(LaneName(name, 0), 0, InternalLaneSpeed, InternalLaneLength)])
  }

  /** The lists the loops build: via connections, internal connections,
      internal edges, `roadToLaneLinks`, and the key lists of the
      `incoming_lanes` and `into_lanes` dicts. */
  datatype LinkTables = LinkTables(
    vias: seq<ViaConnection>,
    internals: seq<InternalConnection>,
    edges: seq<InternalEdge>,
    groups: seq<seq<int>>,
    incoming: seq<string>,
    into: seq<string>)

  const NoTables: LinkTables := LinkTables([], [], [], [], [], [])

  /** One iteration of the inner loop: the new link index is the number of
      via connections so far. */
  function AddLaneLink(junction: string, link: CF.RoadLink, dir: char, ll: CF.LaneLink, t: LinkTables): LinkTables
    requires 0 < |t.groups|
  {
    var index := |t.vias|;
    var via := ViaFor(junction, link, dir, ll, index);
    var last := |t.groups| - 1;
    LinkTables(
      t.vias + [via],
      t.internals + [InternalFor(junction, link, dir, ll, index)],
      t.edges + [InternalEdgeFor(junction, index)],
      t.groups[last := t.groups[last] + [index]],
      DedupOnto(t.incoming, [LaneName(via.fromEdge, via.fromLane)]),
      DedupOnto(t.into, [LaneName(via.toEdge, via.toLane)]))
  }

  /** The inner loop, from lane link `j` of `link` on. */
  function AddLaneLinks(junction: string, link: CF.RoadLink, dir: char, j: nat, t: LinkTables): LinkTables
    requires j <= |link.laneLinks| && 0 < |t.groups|
    decreases |link.laneLinks| - j
  {
    if j == |link.laneLinks| then t
    else AddLaneLinks(junction, link, dir, j + 1, AddLaneLink(junction, link, dir, link.laneLinks[j], t))
  }

  /** The outer loop, from road link `r` on: translate the tag (aborting on
      an unknown one), open an empty group, run the inner loop. */
  function AddRoadLinks(junction: string, links: seq<CF.RoadLink>, r: nat, t: LinkTables): Result<LinkTables>
    requires r <= |links|
    decreases |links| - r
  {
    if r == |links| then Ok(t)
    else
      var dir :- TranslateDirection(links[r].kind);
      AddRoadLinks(junction, links, r + 1,
                   AddLaneLinks(junction, links[r], dir, 0, t.(groups := t.groups + [[]])))
  }

  /** One iteration of the outer loop on a known tag hands some tables on to
      the next road link. */
  lemma OuterStep(junction: string, links: seq<CF.RoadLink>, r: nat, t: LinkTables) returns (t': LinkTables)
    requires r < |links| && links[r].kind in DirectionTags
    ensures AddRoadLinks(junction, links, r, t) == AddRoadLinks(junction, links, r + 1, t')
  {
    t' := AddLaneLinks(junction, links[r], Code(links[r].kind), 0, t.(groups := t.groups + [[]]));
  }

  /** The outer loop stops with an error at an unknown tag. */
  lemma OuterStop(junction: string, links: seq<CF.RoadLink>, r: nat, t: LinkTables)
    requires r < |links| && links[r].kind !in DirectionTags
    ensures AddRoadLinks(junction, links, r, t) == Fail(UnknownDirection(links[r].kind))
  {
  }

  /** The outer loop succeeds exactly when every remaining tag is known. */
  lemma {:induction false} AddRoadLinksSucceeds(junction: string, links: seq<CF.RoadLink>, r: nat, t: LinkTables)
    requires r <= |links|
    ensures AddRoadLinks(junction, links, r, t).Ok? <==> forall i :: r <= i < |links| ==> links[i].kind in DirectionTags
    decreases |links| - r
  {
    if r < |links| {
      if links[r].kind !in DirectionTags {
        OuterStop(junction, links, r, t);
      } else {
        var t' := OuterStep(junction, links, r, t);
        AddRoadLinksSucceeds(junction, links, r + 1, t');
      }
    }
  }

  /** On failure the outer loop has aborted on the first unknown tag,
      reporting that tag. */
  lemma {:induction false} AddRoadLinksFailure(junction: string, links: seq<CF.RoadLink>, r: nat, t: LinkTables)
    requires r <= |links|
    ensures var res := AddRoadLinks(junction, links, r, t);
            res.Fail? ==>
              exists i :: (r <= i < |links|
                           && links[i].kind !in DirectionTags
                           && res.error == UnknownDirection(links[i].kind)
                           && forall i' :: r <= i' < i ==> links[i'].kind in DirectionTags)
    decreases |links| - r
  {
    if r < |links| {
      if links[r].kind !in DirectionTags {
        OuterStop(junction, links, r, t);
      } else {
        var t' := OuterStep(junction, links, r, t);
        AddRoadLinksFailure(junction, links, r + 1, t');
        var res := AddRoadLinks(junction, links, r + 1, t');
        if res.Fail? {
          var i :| r + 1 <= i < |links|
                   && links[i].kind !in DirectionTags
                   && res.error == UnknownDirection(links[i].kind)
                   && forall i' :: r + 1 <= i' < i ==> links[i'].kind in DirectionTags;
          assert forall i' :: r <= i' < i ==> links[i'].kind in DirectionTags;
        }
      }
    }
  }

  // ---------------------------------------------------------------------
  // Reference description, by link index
  // ---------------------------------------------------------------------

  /** One lane link together with the road link it belongs to. */
  datatype Movement = Movement(link: CF.RoadLink, laneLink: CF.LaneLink)

  function LinkMovements(link: CF.RoadLink): (mv: seq<Movement>)
    ensures |mv| == |link.laneLinks|
  {
    seq(|link.laneLinks|, j requires 0 <= j < |link.laneLinks| => Movement(link, link.laneLinks[j]))
  }

  /** All lane links of all road links, road link by road link. */
  function Movements(links: seq<CF.RoadLink>): (mv: seq<Movement>)
    ensures |mv| == TotalLaneLinks(links)
    decreases |links|
  {
    if |links| == 0 then []
    else Movements(links[..|links| - 1]) + LinkMovements(links[|links| - 1])
  }

  predicate KnownMovements(mv: seq<Movement>) {
    forall k :: 0 <= k < |mv| ==> mv[k].link.kind in DirectionTags
  }

  function ViasOf(junction: string, mv: seq<Movement>): (vias: seq<ViaConnection>)
    requires KnownMovements(mv)
    ensures |vias| == |mv|
  {
    seq(|mv|, k requires 0 <= k < |mv| =>
      ViaFor(junction, mv[k].link, Code(mv[k].link.kind), mv[k].laneLink, k))
  }

  function InternalsOf(junction: string, mv: seq<Movement>): (ics: seq<InternalConnection>)
    requires KnownMovements(mv)
    ensures |ics| == |mv|
  {
    seq(|mv|, k requires 0 <= k < |mv| =>
      InternalFor(junction, mv[k].link, Code(mv[k].link.kind), mv[k].laneLink, k))
  }

  function EdgesOf(junction: string, n: nat): (es: seq<InternalEdge>)
    ensures |es| == n
  {
    seq(n, k requires 0 <= k < n => InternalEdgeFor(junction, k))
  }

  /** The source lane ids of via connections, in link-index order. */
  function FromLanes(vias: seq<ViaConnection>): (ids: seq<string>)
    ensures |ids| == |vias|
  {
    seq(|vias|, k requires 0 <= k < |vias| => LaneName(vias[k].fromEdge, vias[k].fromLane))
  }

  /** The destination lane ids of via connections, in link-index order. */
  function ToLanes(vias: seq<ViaConnection>): (ids: seq<string>)
    ensures |ids| == |vias|
  {
    seq(|vias|, k requires 0 <= k < |vias| => LaneName(vias[k].toEdge, vias[k].toLane))
  }

  function TablesOf(junction: string, mv: seq<Movement>, groups: seq<seq<int>>): LinkTables
    requires KnownMovements(mv)
  {
    var vias := ViasOf(junction, mv);
    LinkTables(vias, InternalsOf(junction, mv), EdgesOf(junction, |mv|), groups,
               Dedup(FromLanes(vias)), Dedup(ToLanes(vias)))
  }

  // ---------------------------------------------------------------------
  // The loops build the reference tables
  // ---------------------------------------------------------------------

  lemma ViasSnoc(junction: string, mv: seq<Movement>, m: Movement)
    requires KnownMovements(mv) && m.link.kind in DirectionTags
    ensures KnownMovements(mv + [m])
    ensures ViasOf(junction, mv + [m])
              == ViasOf(junction, mv) + [ViaFor(junction, m.link, Code(m.link.kind), m.laneLink, |mv|)]
  {
    var a := ViasOf(junction, mv + [m]);
    var b := ViasOf(junction, mv) + [ViaFor(junction, m.link, Code(m.link.kind), m.laneLink, |mv|)];
    forall k | 0 <= k < |a|
      ensures a[k] == b[k]
    {
      if k < |mv| {
        assert (mv + [m])[k] == mv[k];
      }
    }
  }

  lemma InternalsSnoc(junction: string, mv: seq<Movement>, m: Movement)
    requires KnownMovements(mv) && m.link.kind in DirectionTags
    ensures KnownMovements(mv + [m])
    ensures InternalsOf(junction, mv + [m])
              == InternalsOf(junction, mv) + [InternalFor(junction, m.link, Code(m.link.kind), m.laneLink, |mv|)]
  {
    var a := InternalsOf(junction, mv + [m]);
    var b := InternalsOf(junction, mv) + [InternalFor(junction, m.link, Code(m.link.kind), m.laneLink, |mv|)];
    forall k | 0 <= k < |a|
      ensures a[k] == b[k]
    {
      if k < |mv| {
        assert (mv + [m])[k] == mv[k];
      }
    }
  }

  lemma EdgesSnoc(junction: string, n: nat)
    ensures EdgesOf(junction, n + 1) == EdgesOf(junction, n) + [InternalEdgeFor(junction, n)]
  {
    var a, b := EdgesOf(junction, n + 1), EdgesOf(junction, n) + [InternalEdgeFor(junction, n)];
    assert forall k :: 0 <= k < |a| ==> a[k] == b[k];
  }

  lemma LaneListsSnoc(vias: seq<ViaConnection>, via: ViaConnection)
    ensures FromLanes(vias + [via]) == FromLanes(vias) + [LaneName(via.fromEdge, via.fromLane)]
    ensures ToLanes(vias + [via]) == ToLanes(vias) + [LaneName(via.toEdge, via.toLane)]
  {
    var vs := vias + [via];
    var a, b := FromLanes(vs), FromLanes(vias) + [LaneName(via.fromEdge, via.fromLane)];
    var c, d := ToLanes(vs), ToLanes(vias) + [LaneName(via.toEdge, via.toLane)];
    forall k | 0 <= k < |vs|
      ensures a[k] == b[k] && c[k] == d[k]
    {
      if k < |vias| {
        assert vs[k] == vias[k];
      }
    }
  }

  /** The reference tables of one more movement, field by field. */
  lemma TablesSnoc(junction: string, mv: seq<Movement>, m: Movement, groups: seq<seq<int>>)
    requires KnownMovements(mv) && m.link.kind in DirectionTags
    ensures KnownMovements(mv + [m])
    ensures var vias := ViasOf(junction, mv);
            var via := ViaFor(junction, m.link, Code(m.link.kind), m.laneLink, |mv|);
            TablesOf(junction, mv + [m], groups)
              == LinkTables(
                   vias + [via],
                   InternalsOf(junction, mv) + [InternalFor(junction, m.link, Code(m.link.kind), m.laneLink, |mv|)],
                   EdgesOf(junction, |mv|) + [InternalEdgeFor(junction, |mv|)],
                   groups,
                   DedupOnto(Dedup(FromLanes(vias)), [LaneName(via.fromEdge, via.fromLane)]),
                   DedupOnto(Dedup(ToLanes(vias)), [LaneName(via.toEdge, via.toLane)]))
  {
    var vias := ViasOf(junction, mv);
    var via := ViaFor(junction, m.link, Code(m.link.kind), m.laneLink, |mv|);
    ViasSnoc(junction, mv, m);
    InternalsSnoc(junction, mv, m);
    EdgesSnoc(junction, |mv|);
    LaneListsSnoc(vias, via);
    DedupOntoConcat([], FromLanes(vias), [LaneName(via.fromEdge, via.fromLane)]);
    DedupOntoConcat([], ToLanes(vias), [LaneName(via.toEdge, via.toLane)]);
  }

  /** One inner-loop iteration on tables with a non-empty last group. */
  lemma AddLaneLinkShape(junction: string, link: CF.RoadLink, dir: char, ll: CF.LaneLink,
                         vias: seq<ViaConnection>, ics: seq<InternalConnection>, es: seq<InternalEdge>,
                         gs: seq<seq<int>>, g: seq<int>, incoming: seq<string>, into: seq<string>)
    ensures var via := ViaFor(junction, link, dir, ll, |vias|);
            AddLaneLink(junction, link, dir, ll, LinkTables(vias, ics, es, gs + [g], incoming, into))
              == LinkTables(
                   vias + [via],
                   ics + [InternalFor(junction, link, dir, ll, |vias|)],
                   es + [InternalEdgeFor(junction, |vias|)],
                   gs + [g + [|vias|]],
                   DedupOnto(incoming, [LaneName(via.fromEdge, via.fromLane)]),
                   DedupOnto(into, [LaneName(via.toEdge, via.toLane)]))
  {
    assert (gs + [g])[|gs| := g + [|vias|]] == gs + [g + [|vias|]];
  }

  /** One inner-loop iteration appends one movement to the reference tables. */
  lemma AddLaneLinkSnoc(junction: string, mv: seq<Movement>, m: Movement, gs: seq<seq<int>>, g: seq<int>)
    requires KnownMovements(mv) && m.link.kind in DirectionTags
    ensures KnownMovements(mv + [m])
    ensures AddLaneLink(junction, m.link, Code(m.link.kind), m.laneLink, TablesOf(junction, mv, gs + [g]))
              == TablesOf(junction, mv + [m], gs + [g + [|mv|]])
  {
    TablesSnoc(junction, mv, m, gs + [g + [|mv|]]);
    var vias := ViasOf(junction, mv);
    AddLaneLinkShape(junction, m.link, Code(m.link.kind), m.laneLink,
                     vias, InternalsOf(junction, mv), EdgesOf(junction, |mv|), gs, g,
                     Dedup(FromLanes(vias)), Dedup(ToLanes(vias)));
  }

  lemma AppendNext<T>(a: seq<T>, b: seq<T>, j: nat)
    requires j < |b|
    ensures a + b[..j] + [b[j]] == a + b[..j + 1]
  {
    assert b[..j + 1] == b[..j] + [b[j]];
  }

  /** The inner loop appends the movements of one road link and fills its
      group with consecutive link indices. */
  lemma {:induction false} AddLaneLinksSpec(junction: string, link: CF.RoadLink, j: nat, mv: seq<Movement>, gs: seq<seq<int>>)
    requires link.kind in DirectionTags && KnownMovements(mv)
    requires j <= |link.laneLinks|
    ensures KnownMovements(mv + LinkMovements(link)[..j])
    ensures KnownMovements(mv + LinkMovements(link))
    ensures AddLaneLinks(junction, link, Code(link.kind), j,
                         TablesOf(junction, mv + LinkMovements(link)[..j], gs + [Block(|mv|, j)]))
              == TablesOf(junction, mv + LinkMovements(link), gs + [Block(|mv|, |link.laneLinks|)])
    decreases |link.laneLinks| - j
  {
    var lm := LinkMovements(link);
    if j == |link.laneLinks| {
      assert lm[..j] == lm;
    } else {
      var m := Movement(link, link.laneLinks[j]);
      var pre := mv + lm[..j];
      var g := Block(|mv|, j);
      var mvNext, gNext := pre + [m], g + [|pre|];
      assert |pre| == |mv| + j;
      BlockSnoc(|mv|, j);
      assert gNext == Block(|mv|, j + 1);
      assert lm[j] == m;
      AppendNext(mv, lm, j);
      assert mvNext == mv + lm[..j + 1];
      assert KnownMovements(pre);
      var t := TablesOf(junction, pre, gs + [g]);
      AddLaneLinkSnoc(junction, pre, m, gs, g);
      var t1 := AddLaneLink(junction, link, Code(link.kind), link.laneLinks[j], t);
      assert t1 == TablesOf(junction, mvNext, gs + [gNext]);
      assert AddLaneLinks(junction, link, Code(link.kind), j, t)
               == AddLaneLinks(junction, link, Code(link.kind), j + 1, t1);
      AddLaneLinksSpec(junction, link, j + 1, mv, gs);
    }
  }

  lemma MovementsSnoc(links: seq<CF.RoadLink>, r: nat)
    requires r < |links|
    ensures Movements(links[..r + 1]) == Movements(links[..r]) + LinkMovements(links[r])
  {
    assert links[..r + 1][..r] == links[..r];
  }

  lemma KnownMovementsOf(links: seq<CF.RoadLink>)
    requires KnownDirections(links)
    ensures KnownMovements(Movements(links))
    decreases |links|
  {
    if |links| > 0 {
      KnownMovementsOf(links[..|links| - 1]);
    }
  }

  /** The outer loop, from road link `r` on, completes the reference tables. */
  lemma {:induction false} AddRoadLinksSpec(junction: string, links: seq<CF.RoadLink>, r: nat)
    requires r <= |links| && KnownDirections(links)
    ensures KnownMovements(Movements(links[..r]))
    ensures KnownMovements(Movements(links))
    ensures AddRoadLinks(junction, links, r, TablesOf(junction, Movements(links[..r]), Groups(links[..r])))
              == Ok(TablesOf(junction, Movements(links), Groups(links)))
    decreases |links| - r
  {
    KnownMovementsOf(links);
    KnownMovementsOf(links[..r]);
    if r == |links| {
      assert links[..r] == links;
    } else {
      var mv, gs := Movements(links[..r]), Groups(links[..r]);
      var link := links[r];
      var mvNext, gsNext := mv + LinkMovements(link), gs + [Block(|mv|, |link.laneLinks|)];
      MovementsSnoc(links, r);
      GroupsSnoc(links[..r + 1]);
      assert links[..r + 1][..r] == links[..r];
      assert Groups(links[..r + 1]) == gsNext;
      assert LinkMovements(link)[..0] == [] && mv + [] == mv;
      assert Block(|mv|, 0) == [];
      var t := TablesOf(junction, mv, gs);
      assert t.(groups := gs + [[]])
               == TablesOf(junction, mv + LinkMovements(link)[..0], gs + [Block(|mv|, 0)]);
      AddLaneLinksSpec(junction, link, 0, mv, gs);
      var t1 := AddLaneLinks(junction, link, Code(link.kind), 0, t.(groups := gs + [[]]));
      assert t1 == TablesOf(junction, mvNext, gsNext);
      assert AddRoadLinks(junction, links, r, t) == AddRoadLinks(junction, links, r + 1, t1);
      KnownDirectionsPrefix(links, r + 1);
      AddRoadLinksSpec(junction, links, r + 1);
    }
  }

  lemma KnownDirectionsPrefix(links: seq<CF.RoadLink>, m: nat)
    requires m <= |links| && KnownDirections(links)
    ensures KnownDirections(links[..m])
  {
  }

  /** The loops of `translate_tl_intersection` build exactly the reference
      tables, and abort exactly when some tag is unknown. */
  lemma TablesCorrect(junction: string, links: seq<CF.RoadLink>)
    ensures AddRoadLinks(junction, links, 0, NoTables).Ok? <==> KnownDirections(links)
    ensures KnownDirections(links) ==> KnownMovements(Movements(links))
    ensures KnownDirections(links) ==>
              AddRoadLinks(junction, links, 0, NoTables) == Ok(TablesOf(junction, Movements(links), Groups(links)))
  {
    AddRoadLinksSucceeds(junction, links, 0, NoTables);
    if KnownDirections(links) {
      AddRoadLinksSpec(junction, links, 0);
      assert links[..0] == [];
      assert TablesOf(junction, [], []) == NoTables;
    }
  }

  lemma {:induction false} MovementAt(links: seq<CF.RoadLink>, r: nat, j: nat)
    requires r < |links| && j < |links[r].laneLinks|
    ensures Offset(links, r) + j < TotalLaneLinks(links)
    ensures Movements(links)[Offset(links, r) + j] == Movement(links[r], links[r].laneLinks[j])
    decreases |links|
  {
    var last := |links| - 1;
    var init := links[..last];
    OffsetStep(links, r);
    OffsetEnds(links);
    if r < last {
      OffsetMonotone(links, r + 1, |links|);
      MovementAt(init, r, j);
      OffsetOfPrefix(links, last, r);
    } else {
      assert Offset(links, last) == TotalLaneLinks(init);
    }
  }

  // ---------------------------------------------------------------------
  // translate_tl_intersection
  // ---------------------------------------------------------------------

  /** What `translate_tl_intersection` returns. */
  datatype SignalisedJunction = SignalisedJunction(
    junction: Junction,
    vias: seq<ViaConnection>,
    internals: seq<InternalConnection>,
    edges: seq<InternalEdge>,
    tllogic: TLLogic)

  /** Every light phase names only road links the intersection has. */
  predicate PhasesInRange(ix: CF.Intersection) {
    forall p :: 0 <= p < |ix.trafficLight.lightphases| ==>
      InRange(ix.trafficLight.lightphases[p].availableRoadLinks, |ix.roadLinks|)
  }

  /** A signalised intersection; it aborts on the first unknown movement tag,
      and otherwise on the first light phase naming a road link it lacks. */
  function TranslateTlIntersection(ix: CF.Intersection): (r: Result<SignalisedJunction>)
    ensures r.Ok? <==> KnownDirections(ix.roadLinks) && PhasesInRange(ix)
    ensures !KnownDirections(ix.roadLinks) ==>
              exists i :: (0 <= i < |ix.roadLinks|
                           && ix.roadLinks[i].kind !in DirectionTags
                           && r == Fail(UnknownDirection(ix.roadLinks[i].kind))
                           && KnownDirections(ix.roadLinks[..i]))
    ensures KnownDirections(ix.roadLinks) && !PhasesInRange(ix) ==>
              && r.Fail? && r.error.UnknownRoadLink? && r.error.junction == ix.id
              && PhasesRejectedWith(ix.id, ix.trafficLight.lightphases, |ix.roadLinks|, r.error)
    ensures r.Ok? ==>
              && r.value.junction.id == ix.id
              && r.value.junction.kind == TrafficLight
              && r.value.junction.point == ix.point
              && r.value.junction.requests == []
              && r.value.tllogic.id == ix.id
              && |r.value.tllogic.phases| == |ix.trafficLight.lightphases|
              && |r.value.vias| == TotalLaneLinks(ix.roadLinks)
              && |r.value.internals| == |r.value.vias|
              && |r.value.edges| == |r.value.vias|
  {
    AddRoadLinksFailure(ix.id, ix.roadLinks, 0, NoTables);
    var t :- AddRoadLinks(ix.id, ix.roadLinks, 0, NoTables);
    TablesCorrect(ix.id, ix.roadLinks);
    GroupsBelowTotal(ix.roadLinks);
    var phases :- TranslatePhases(ix.id, |t.vias|, t.groups, ix.trafficLight.lightphases);
    var junction := Junction(ix.id, TrafficLight, ix.point, t.incoming, t.into, []);
    Ok(SignalisedJunction(junction, t.vias, t.internals, t.edges, TLLogic(ix.id, phases)))
  }

  /** The reference description of a successful translation `s` of `ix`:
      the tables are those of the movements in link-index order, the lane
      lists their de-duplicated lane ids, and the phases the phase
      translation over the road-link groups. */
  predicate TlResult(ix: CF.Intersection, s: SignalisedJunction) {
    TlTables(ix, s) && TlLanes(s) && TlPhases(ix, s)
  }

  /** The connection and internal-edge part of `TlResult`. */
  predicate TlTables(ix: CF.Intersection, s: SignalisedJunction) {
    && KnownDirections(ix.roadLinks)
    && KnownMovements(Movements(ix.roadLinks))
    && var mv := Movements(ix.roadLinks);
       && s.vias == ViasOf(ix.id, mv)
       && s.internals == InternalsOf(ix.id, mv)
       && s.edges == EdgesOf(ix.id, |mv|)
  }

  /** The lane-list part of `TlResult`. */
  predicate TlLanes(s: SignalisedJunction) {
    && s.junction.incomingLanes == Dedup(FromLanes(s.vias))
    && s.junction.intoLanes == Dedup(ToLanes(s.vias))
  }

  /** The phase part of `TlResult`. */
  predicate TlPhases(ix: CF.Intersection, s: SignalisedJunction) {
    var n := TotalLaneLinks(ix.roadLinks);
    && GroupsBelow(Groups(ix.roadLinks), n)
    && TranslatePhases(ix.id, n, Groups(ix.roadLinks), ix.trafficLight.lightphases) == Ok(s.tllogic.phases)
  }

  /** The output in terms of the reference tables. */
  lemma TlReference(ix: CF.Intersection)
    requires TranslateTlIntersection(ix).Ok?
    ensures TlResult(ix, TranslateTlIntersection(ix).value)
  {
    TablesCorrect(ix.id, ix.roadLinks);
    GroupsBelowTotal(ix.roadLinks);
  }

  /** Lane link `j` of road link `r` gets link index `Offset(r) + j`; its via
      connection copies the road link's roads, the raw lane ordinals and the
      mapped direction, and goes through lane 0 of internal edge
      `<junction>_<k>`, whose internal connection leads to the same
      destination lane. */
  lemma TlLinkIndexing(ix: CF.Intersection, r: nat, j: nat)
    requires TranslateTlIntersection(ix).Ok?
    requires r < |ix.roadLinks| && j < |ix.roadLinks[r].laneLinks|
    ensures ix.roadLinks[r].kind in DirectionTags
    ensures var s, k := TranslateTlIntersection(ix).value, Offset(ix.roadLinks, r) + j;
            var link, ll := ix.roadLinks[r], ix.roadLinks[r].laneLinks[j];
            var edge := InternalEdgeName(ix.id, k);
            && k < |s.vias|
            && OwnerOf(ix.roadLinks, k) == r
            && s.vias[k] == ViaConnection(link.startRoad, link.endRoad, ll.startLaneIndex, ll.endLaneIndex,
                                          Code(link.kind), k, LaneName(edge, 0), ix.id)
            && s.internals[k] == InternalConnection(edge, link.endRoad, 0, ll.endLaneIndex, Code(link.kind))
            && s.edges[k] == InternalEdge(edge, [Lane(LaneName(edge, 0), 0, InternalLaneSpeed, InternalLaneLength)])
  {
    TlReference(ix);
    LinkIndexing(ix, TranslateTlIntersection(ix).value, r, j);
  }

  /** `TlLinkIndexing` for any result matching the reference description. */
  lemma LinkIndexing(ix: CF.Intersection, s: SignalisedJunction, r: nat, j: nat)
    requires TlTables(ix, s)
    requires r < |ix.roadLinks| && j < |ix.roadLinks[r].laneLinks|
    ensures ix.roadLinks[r].kind in DirectionTags
    ensures var k := Offset(ix.roadLinks, r) + j;
            var link, ll := ix.roadLinks[r], ix.roadLinks[r].laneLinks[j];
            var edge := InternalEdgeName(ix.id, k);
            && k < |s.vias|
            && OwnerOf(ix.roadLinks, k) == r
            && s.vias[k] == ViaConnection(link.startRoad, link.endRoad, ll.startLaneIndex, ll.endLaneIndex,
                                          Code(link.kind), k, LaneName(edge, 0), ix.id)
            && s.internals[k] == InternalConnection(edge, link.endRoad, 0, ll.endLaneIndex, Code(link.kind))
            && s.edges[k] == InternalEdge(edge, [Lane(LaneName(edge, 0), 0, InternalLaneSpeed, InternalLaneLength)])
  {
    var links := ix.roadLinks;
    var link, ll := links[r], links[r].laneLinks[j];
    var k := Offset(links, r) + j;
    var mv := Movements(links);
    assert KnownMovements(mv) && s.vias == ViasOf(ix.id, mv);
    MovementAt(links, r, j);
    OwnerUnique(links, k, r);
    ReferenceAt(ix.id, mv, k, link, ll);
  }

  /** Entry `k` of the reference tables, in terms of movement `k`. */
  lemma ReferenceAt(junction: string, mv: seq<Movement>, k: nat, link: CF.RoadLink, ll: CF.LaneLink)
    requires KnownMovements(mv) && k < |mv| && mv[k] == Movement(link, ll)
    ensures link.kind in DirectionTags
    ensures var edge := InternalEdgeName(junction, k);
            && ViasOf(junction, mv)[k]
                 == ViaConnection(link.startRoad, link.endRoad, ll.startLaneIndex, ll.endLaneIndex,
                                  Code(link.kind), k, LaneName(edge, 0), junction)
            && InternalsOf(junction, mv)[k] == InternalConnection(edge, link.endRoad, 0, ll.endLaneIndex, Code(link.kind))
            && EdgesOf(junction, |mv|)[k]
                 == InternalEdge(edge, [Lane(LaneName(edge, 0), 0, InternalLaneSpeed, InternalLaneLength)])
  {
  }

  /** For every link index `k`: the via connection has index `k`; internal
      edge `k` has exactly one lane, lane 0, whose id is the via lane; the
      internal connection leaves that edge on lane 0 for the via connection's
      destination with the same direction, which is the owning road link's
      mapped tag; and the internal edge ids are pairwise distinct. */
  lemma TlConnectionsAgree(ix: CF.Intersection)
    requires TranslateTlIntersection(ix).Ok?
    ensures KnownDirections(ix.roadLinks)
    ensures var s := TranslateTlIntersection(ix).value;
            forall k :: 0 <= k < |s.vias| ==>
              && s.vias[k].index == k
              && s.vias[k].junctionId == ix.id
              && s.vias[k].direction == Code(ix.roadLinks[OwnerOf(ix.roadLinks, k)].kind)
              && s.edges[k].id == InternalEdgeName(ix.id, k)
              && |s.edges[k].lanes| == 1
              && s.edges[k].lanes[0].index == 0
              && s.edges[k].lanes[0].id == LaneName(s.edges[k].id, 0) == s.vias[k].viaLane
              && s.internals[k].fromEdge == s.edges[k].id
              && s.internals[k].fromLane == 0
              && s.internals[k].toEdge == s.vias[k].toEdge
              && s.internals[k].toLane == s.vias[k].toLane
              && s.internals[k].direction == s.vias[k].direction
    ensures var s := TranslateTlIntersection(ix).value;
            forall k1, k2 :: 0 <= k1 < k2 < |s.edges| ==> s.edges[k1].id != s.edges[k2].id
  {
    TlReference(ix);
    ConnectionsAgree(ix, TranslateTlIntersection(ix).value);
  }

  /** `TlConnectionsAgree` for any result matching the reference description. */
  lemma ConnectionsAgree(ix: CF.Intersection, s: SignalisedJunction)
    requires TlTables(ix, s)
    ensures forall k :: 0 <= k < |s.vias| ==>
              && s.vias[k].index == k
              && s.vias[k].junctionId == ix.id
              && s.vias[k].direction == Code(ix.roadLinks[OwnerOf(ix.roadLinks, k)].kind)
              && s.edges[k].id == InternalEdgeName(ix.id, k)
              && |s.edges[k].lanes| == 1
              && s.edges[k].lanes[0].index == 0
              && s.edges[k].lanes[0].id == LaneName(s.edges[k].id, 0) == s.vias[k].viaLane
              && s.internals[k].fromEdge == s.edges[k].id
              && s.internals[k].fromLane == 0
              && s.internals[k].toEdge == s.vias[k].toEdge
              && s.internals[k].toLane == s.vias[k].toLane
              && s.internals[k].direction == s.vias[k].direction
    ensures forall k1, k2 :: 0 <= k1 < k2 < |s.edges| ==> s.edges[k1].id != s.edges[k2].id
  {
    var links := ix.roadLinks;
    forall k | 0 <= k < |s.vias|
      ensures && s.vias[k].index == k
              && s.vias[k].junctionId == ix.id
              && s.vias[k].direction == Code(links[OwnerOf(links, k)].kind)
              && s.edges[k].id == InternalEdgeName(ix.id, k)
              && |s.edges[k].lanes| == 1
              && s.edges[k].lanes[0].index == 0
              && s.edges[k].lanes[0].id == LaneName(s.edges[k].id, 0) == s.vias[k].viaLane
              && s.internals[k].fromEdge == s.edges[k].id
              && s.internals[k].fromLane == 0
              && s.internals[k].toEdge == s.vias[k].toEdge
              && s.internals[k].toLane == s.vias[k].toLane
              && s.internals[k].direction == s.vias[k].direction
    {
      var r := OwnerOf(links, k);
      LinkIndexing(ix, s, r, k - Offset(links, r));
    }
    forall k1, k2 | 0 <= k1 < k2 < |s.edges|
      ensures s.edges[k1].id != s.edges[k2].id
    {
      assert s.edges[k1].id == InternalEdgeName(ix.id, k1);
      assert s.edges[k2].id == InternalEdgeName(ix.id, k2);
      if s.edges[k1].id == s.edges[k2].id {
        QualifiedInjective(ix.id, k1, ix.id, k2);
      }
    }
  }

  /** Light phase `p` becomes phase `p`: same duration, one character per
      link index, `G` exactly for the link indices whose road link is listed
      in that light phase, `r` for all others. */
  lemma TlPhaseStates(ix: CF.Intersection, p: nat)
    requires TranslateTlIntersection(ix).Ok?
    requires p < |ix.trafficLight.lightphases|
    ensures var s, lp := TranslateTlIntersection(ix).value, ix.trafficLight.lightphases[p];
            && s.tllogic.phases[p].duration == lp.time
            && |s.tllogic.phases[p].state| == |s.vias|
            && forall k :: 0 <= k < |s.vias| ==>
                 s.tllogic.phases[p].state[k]
                   == (if OwnerOf(ix.roadLinks, k) in lp.availableRoadLinks then 'G' else 'r')
  {
    TlReference(ix);
    PhaseStates(ix, TranslateTlIntersection(ix).value, p);
  }

  /** `TlPhaseStates` for any result matching the reference description. */
  lemma PhaseStates(ix: CF.Intersection, s: SignalisedJunction, p: nat)
    requires TlTables(ix, s) && TlPhases(ix, s)
    requires p < |ix.trafficLight.lightphases|
    ensures var lp := ix.trafficLight.lightphases[p];
            && s.tllogic.phases[p].duration == lp.time
            && |s.tllogic.phases[p].state| == |s.vias|
            && forall k :: 0 <= k < |s.vias| ==>
                 s.tllogic.phases[p].state[k]
                   == (if OwnerOf(ix.roadLinks, k) in lp.availableRoadLinks then 'G' else 'r')
  {
    var lp := ix.trafficLight.lightphases[p];
    var links := ix.roadLinks;
    var groups := Groups(links);
    assert TranslatePhase(ix.id, |s.vias|, groups, lp) == Ok(s.tllogic.phases[p]);
    forall k | 0 <= k < |s.vias|
      ensures Granted(groups, lp.availableRoadLinks, k) <==> OwnerOf(links, k) in lp.availableRoadLinks
    {
      var avail := lp.availableRoadLinks;
      if Granted(groups, avail, k) {
        var i :| 0 <= i < |avail| && 0 <= avail[i] < |groups| && k in groups[avail[i]];
        GroupMembership(links, avail[i], k);
      }
      if OwnerOf(links, k) in avail {
        var i :| 0 <= i < |avail| && avail[i] == OwnerOf(links, k);
        GroupMembership(links, avail[i], k);
      }
    }
  }

  /** The junction's incoming lanes are the distinct source lanes of its via
      connections, and its into lanes the distinct destination lanes, each
      in first-occurrence order. */
  lemma TlJunctionLanes(ix: CF.Intersection)
    requires TranslateTlIntersection(ix).Ok?
    ensures var s := TranslateTlIntersection(ix).value;
            && NoDup(s.junction.incomingLanes)
            && NoDup(s.junction.intoLanes)
            && (forall x :: x in s.junction.incomingLanes <==>
                  exists k :: 0 <= k < |s.vias| && x == LaneName(s.vias[k].fromEdge, s.vias[k].fromLane))
            && (forall x :: x in s.junction.intoLanes <==>
                  exists k :: 0 <= k < |s.vias| && x == LaneName(s.vias[k].toEdge, s.vias[k].toLane))
            && s.junction.incomingLanes == FirstOccurrences(FromLanes(s.vias))
            && s.junction.intoLanes == FirstOccurrences(ToLanes(s.vias))
  {
    TlReference(ix);
    JunctionLanes(TranslateTlIntersection(ix).value);
  }

  /** `TlJunctionLanes` for any result matching the reference description. */
  lemma JunctionLanes(s: SignalisedJunction)
    requires TlLanes(s)
    ensures && NoDup(s.junction.incomingLanes)
            && NoDup(s.junction.intoLanes)
            && (forall x :: x in s.junction.incomingLanes <==>
                  exists k :: 0 <= k < |s.vias| && x == LaneName(s.vias[k].fromEdge, s.vias[k].fromLane))
            && (forall x :: x in s.junction.intoLanes <==>
                  exists k :: 0 <= k < |s.vias| && x == LaneName(s.vias[k].toEdge, s.vias[k].toLane))
            && s.junction.incomingLanes == FirstOccurrences(FromLanes(s.vias))
            && s.junction.intoLanes == FirstOccurrences(ToLanes(s.vias))
  {
    var from, to := FromLanes(s.vias), ToLanes(s.vias);
    assert s.junction.incomingLanes == Dedup(from);
    assert s.junction.intoLanes == Dedup(to);
    DedupIsFirstOccurrences(from);
    DedupIsFirstOccurrences(to);
    LaneListMembers(s.vias);
    var inc, into := s.junction.incomingLanes, s.junction.intoLanes;
    forall x
      ensures x in inc <==> exists k :: 0 <= k < |s.vias| && x == LaneName(s.vias[k].fromEdge, s.vias[k].fromLane)
    {
      assert x in inc <==> x in from;
    }
    forall x
      ensures x in into <==> exists k :: 0 <= k < |s.vias| && x == LaneName(s.vias[k].toEdge, s.vias[k].toLane)
    {
      assert x in into <==> x in to;
    }
  }

  lemma LaneListMembers(vias: seq<ViaConnection>)
    ensures forall x :: x in FromLanes(vias) <==>
              exists k :: 0 <= k < |vias| && x == LaneName(vias[k].fromEdge, vias[k].fromLane)
    ensures forall x :: x in ToLanes(vias) <==>
              exists k :: 0 <= k < |vias| && x == LaneName(vias[k].toEdge, vias[k].toLane)
  {
    forall x
      ensures x in FromLanes(vias) <==>
                exists k :: 0 <= k < |vias| && x == LaneName(vias[k].fromEdge, vias[k].fromLane)
      ensures x in ToLanes(vias) <==>
                exists k :: 0 <= k < |vias| && x == LaneName(vias[k].toEdge, vias[k].toLane)
    {
      var from, to := FromLanes(vias), ToLanes(vias);
      if x in from {
        var k :| 0 <= k < |vias| && from[k] == x;
      }
      if exists k :: 0 <= k < |vias| && x == LaneName(vias[k].fromEdge, vias[k].fromLane) {
        var k :| 0 <= k < |vias| && x == LaneName(vias[k].fromEdge, vias[k].fromLane);
        assert from[k] == x;
      }
      if x in to {
        var k :| 0 <= k < |vias| && to[k] == x;
      }
      if exists k :: 0 <= k < |vias| && x == LaneName(vias[k].toEdge, vias[k].toLane) {
        var k :| 0 <= k < |vias| && x == LaneName(vias[k].toEdge, vias[k].toLane);
        assert to[k] == x;
      }
    }
  }
}
