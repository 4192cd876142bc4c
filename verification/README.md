# cityflow2sumo network translator, modelled in Dafny

This project models the CityFlow-to-SUMO network translator. The translator
takes a parsed CityFlow road-network document (roads and intersections) and
builds SUMO network objects from it:

- one edge per road;
- a `dead_end` junction for every virtual (boundary) intersection;
- for every signalised intersection: a `traffic_light` junction, one via
  connection, one internal connection and one single-lane internal edge per
  lane link, and a traffic-light program with one state character per link
  index.

The model is functional. The document and the SUMO objects are immutable
datatypes, and every translation step is a pure function. A Python
`KeyError` becomes the `Fail` case of a `Result`, propagated with `:-`
exactly as the exception would propagate.

Modules, one per file:

| module | file | contents |
|---|---|---|
| `Outcomes` | outcomes.dfy | `Error` and `Result` |
| `Names` | names.dfy | `Lane.name` / `InternalEdge.name` (`"%s_%s"`), decimal rendering, injectivity |
| `Geometry` | geometry.dfy | points and polyline length over a distance parameter |
| `Distinct` | distinct.dfy | dict-key de-duplication in first-occurrence order |
| `CityFlow` | cityflow.dfy | the input document |
| `Sumo` | sumo.dfy | the output records |
| `Roads` | roads.dfy | `translate_road` |
| `LinkIndex` | linkindex.dfy | the link-index numbering (`roadToLaneLinks`) as offsets and blocks |
| `Phases` | phases.dfy | light phase to phase state |
| `Signals` | signals.dfy | `translate_direction`, `translate_tl_intersection` |
| `Boundary` | boundary.dfy | `map_incoming_into_junction_edges`, `translate_virtual_intersection` |
| `Translate` | network.dfy | `translate_network` |

The loops of `translate_tl_intersection` are modelled step by step:
`AddRoadLinks`, `AddLaneLinks` and `AddLaneLink` mirror the outer loop, the
inner loop and one inner iteration. They are then proved equal
(`Signals.TablesCorrect`) to a reference description indexed by link index
(`TablesOf`, built on `LinkIndex.Offset`). Every property of the output is
stated in terms of that reference. Likewise `Boundary.GroupLanes` mirrors the
loop over edges, and `Boundary.GroupLanesSpec` relates it to a reference that
concatenates lane ids per junction.

Behaviour of the code that is easy to get wrong:

- The via connection carries the raw `startLaneIndex` / `endLaneIndex`. No
  lane ordinal is inverted.
- Phase states use only `G` and `r`. There is no `g`, and a state does not
  depend on the previous phase.
- A virtual intersection that no road ends at, or that no road starts at,
  aborts the translation (`KeyError` in the map lookup).

## Model

| member | source | states |
|---|---|---|
| Names.QualifiedInjective | tools/cityflow2sumo/__main__.py:54-55 | two `"%s_%s"` names are equal only when both the prefixes and the ordinals are equal; so the lanes of one road have distinct ids, and so have the internal edges of one junction (a lane id and an internal edge id can still coincide, e.g. road `J` lane 0 and junction `J` link 0) |
| Names.DecimalRoundTrip | tools/cityflow2sumo/__main__.py:54-55 | reading back the decimal rendering of a natural number gives the number |
| Geometry.PolylineLength | tools/cityflow2sumo/__main__.py:274 | a shape of fewer than two points has length 0; a two-point shape has the length of its one segment; a nonnegative distance gives a nonnegative length |
| Geometry.PolylineFirstSegment | tools/cityflow2sumo/__main__.py:274 | a shape's length is its first segment plus the length of the shape without its first point |
| Geometry.PolylineSplit | tools/cityflow2sumo/__main__.py:274 | cutting a shape at any point splits its summed length into the lengths of the two parts |
| Roads.TranslateRoad | tools/cityflow2sumo/__main__.py:272-290 | one lane per road lane, in order; lane `i` has index `i`, id `<road>_<i>`, the road lane's max speed, and the whole shape's length; id, end junctions and shape are copied |
| Roads.LaneIdIdentifiesLane | tools/cityflow2sumo/__main__.py:54-55 | two translated lanes share an id only if they are the same ordinal of the same road id |
| Roads.RoadLaneIdsDistinct | tools/cityflow2sumo/__main__.py:275-283 | the lane ids of one edge are pairwise distinct |
| Distinct.DedupOntoSpec | tools/cityflow2sumo/__main__.py:381-386 | inserting a sequence into a dict's key list keeps the existing keys as a prefix, adds exactly the new elements, and never repeats a key |
| Distinct.DedupIsFirstOccurrences | tools/cityflow2sumo/__main__.py:349-350 | the key list of a dict filled from a sequence is that sequence with each element kept only at its first occurrence |
| Distinct.DedupOfNoDup | tools/cityflow2sumo/__main__.py:349-350 | a list with no repetitions is its own key list |
| Signals.TranslateDirection | tools/cityflow2sumo/__main__.py:292-298 | succeeds exactly on `go_straight`, `turn_left`, `turn_right`, giving one of `s`, `l`, `r`; any other tag fails with that tag |
| Signals.DirectionBijection | tools/cityflow2sumo/__main__.py:292-298 | the tag maps to a code exactly when the code is one of `s`, `l`, `r` and the tag is `go_straight`, `turn_left`, `turn_right` respectively |
| Signals.AddRoadLinksSucceeds | tools/cityflow2sumo/__main__.py:309-313 | the outer loop succeeds exactly when every remaining road link's tag is known |
| Signals.AddRoadLinksFailure | tools/cityflow2sumo/__main__.py:309-313 | a failed outer loop stopped at the first unknown tag and reports that tag |
| Signals.TablesCorrect | tools/cityflow2sumo/__main__.py:309-331 | the two nested loops succeed exactly when every tag is known, and then build exactly the reference tables indexed by link index |
| Signals.TranslateTlIntersection | tools/cityflow2sumo/__main__.py:300-354 | succeeds exactly when all tags are known and all phases name existing road links; an unknown tag fails at the first one; as many via connections as lane links; equal list lengths; `traffic_light` kind, empty requests, program named after the junction, one phase per light phase; with known tags, an invalid phase list fails at the first entry outside the road links of the first light phase that has one |
| Signals.TlLinkIndexing | tools/cityflow2sumo/__main__.py:313-324 | lane link `j` of road link `r` gets link index `Offset(r) + j`; its via connection, internal connection and internal edge carry the road link's roads, the raw lane ordinals, the mapped direction, and internal edge `<junction>_<k>` with lane `<junction>_<k>_0` |
| Signals.TlConnectionsAgree | tools/cityflow2sumo/__main__.py:317-324 | via connection `k` has index `k` and the owning road link's direction; internal edge `k` has exactly one lane, lane 0, which is the via lane; internal connection `k` leaves that edge on lane 0 for the via's destination lane with the same direction; internal edge ids are pairwise distinct |
| Signals.TlPhaseStates | tools/cityflow2sumo/__main__.py:334-343 | phase `p` copies the duration; its state has one character per link index, `G` exactly when the link index's road link is listed in that light phase, otherwise `r` |
| Signals.TlJunctionLanes | tools/cityflow2sumo/__main__.py:327-328 | incoming and into lanes have no repetitions, hold exactly the source (destination) lane names of the via connections, and keep first-occurrence order |
| Signals.TlReference | tools/cityflow2sumo/__main__.py:300-354 | a successful translation equals the reference tables, and its phases are the phase translation over the reference groups |
| LinkIndex.OwnerOf | tools/cityflow2sumo/__main__.py:313-326 | every link index lies in the block of one road link |
| LinkIndex.OwnerUnique | tools/cityflow2sumo/__main__.py:313-326 | the blocks of different road links are disjoint |
| LinkIndex.GroupMembership | tools/cityflow2sumo/__main__.py:313-326 | index `k` is in road link `r`'s group exactly when `k` is a link index owned by `r`; since the group has one entry per lane link, a road link without lane links owns no index |
| LinkIndex.GroupsCoverInOrder | tools/cityflow2sumo/__main__.py:313-326 | the groups, concatenated in road-link order, are `0, 1, …, n-1` |
| LinkIndex.OffsetMonotone | tools/cityflow2sumo/__main__.py:317 | a road link's block ends at or before the start of any later road link's block |
| Phases.Paint | tools/cityflow2sumo/__main__.py:338-339 | painting keeps the length, and sets exactly the listed indices to `G` |
| Phases.GrantRoadLinks | tools/cityflow2sumo/__main__.py:337-339 | succeeds exactly when every listed road link exists; then each link index of a listed road link is `G` and every other character is unchanged |
| Phases.GrantRoadLinksFailure | tools/cityflow2sumo/__main__.py:337-339 | a failed painting loop stopped at the first listed entry that is not a road link, and reports that entry and the junction |
| Phases.TranslatePhase | tools/cityflow2sumo/__main__.py:335-342 | duration copied; state of length `n`; `G` exactly at the granted link indices, `r` elsewhere; fails exactly on an unknown road link, reporting the first listed entry that is not a road link |
| Phases.TranslatePhases | tools/cityflow2sumo/__main__.py:334-343 | one phase per light phase, in order, each the translation of that light phase; fails exactly when some light phase names an unknown road link, and then reports the first such entry of the first such light phase |
| Boundary.AddEdge | tools/cityflow2sumo/__main__.py:375-382 | one edge adds its junction's key, leaves every other entry unchanged, and that entry then holds its old lanes plus the edge's lanes |
| Boundary.GroupLanesSpec | tools/cityflow2sumo/__main__.py:372-388 | the keys are exactly the junctions some edge ends (starts) at, including edges without lanes; each value is the de-duplicated concatenation of those edges' lane ids |
| Boundary.MapIncomingInto | tools/cityflow2sumo/__main__.py:372-388 | the two maps' keys are the edges' end and start junctions, and each value lists the reference lane ids in first-occurrence order |
| Boundary.LanesAtMembers | tools/cityflow2sumo/__main__.py:381-383 | a lane id is collected for a junction exactly when it is the id of a lane of an edge at that junction |
| Boundary.MapsContents | tools/cityflow2sumo/__main__.py:372-388 | every lane of every edge is listed under the edge's end junction (incoming) and start junction (into); no list repeats an id |
| Boundary.TranslateVirtualIntersection | tools/cityflow2sumo/__main__.py:356-370 | succeeds exactly when both maps have the id, yielding a `dead_end` junction with those lists and no requests; otherwise fails naming the junction |
| Boundary.VirtualJunctionLanes | tools/cityflow2sumo/__main__.py:356-388 | with maps built from the edges, a virtual intersection translates exactly when some edge ends there and some edge starts there; its lists then have no repetitions and hold exactly those edges' lane ids |
| Translate.IntersectionPart | tools/cityflow2sumo/__main__.py:403-412 | a virtual intersection contributes its `dead_end` junction and nothing else, and fails exactly when a map lacks its id; a signalised one contributes exactly the junction, connection lists, internal edges and program of its translation, and fails exactly as its translation does |
| Translate.CollectSpec | tools/cityflow2sumo/__main__.py:397-412 | the intersection loop succeeds exactly when every intersection's part does; otherwise it fails with the error of the first failing one; it yields one junction per intersection, in order |
| Translate.CollectShape | tools/cityflow2sumo/__main__.py:397-412 | the loop's three connection lists have equal lengths; every via connection names a signalised intersection; the programs are named after the signalised intersections, one each, in document order |
| Translate.CollectJoined | tools/cityflow2sumo/__main__.py:402-412 | when every part contributes its translation, the loop's via connections, internal connections, internal edges and programs are those of the signalised translations, concatenated in order |
| Translate.AcceptedIffOk | tools/cityflow2sumo/__main__.py:394-412 | an intersection's part is computed without failure exactly when the document satisfies `Accepted` for it |
| Translate.RoadEnds | tools/cityflow2sumo/__main__.py:376-380 | the incoming (into) map has a key exactly for the junctions that some road ends (starts) at |
| Translate.TranslateNetwork | tools/cityflow2sumo/__main__.py:390-414 | succeeds exactly when every virtual intersection has a road ending and a road starting there and every signalised one has known tags and valid phases; one edge per road; one junction per intersection with the same id and point, `dead_end` exactly for virtual ones, no requests; equal counts of via connections, internal connections and internal edges |
| Translate.NetworkFailure | tools/cityflow2sumo/__main__.py:402-412 | a failed translation reports the error of the first intersection the document does not satisfy: the missing junction for a virtual one, the signalised translation's own error otherwise |
| Translate.NetworkLists | tools/cityflow2sumo/__main__.py:397-414 | every signalised intersection translates, and the network's via connections, internal connections, internal edges and programs are those of their translations, each list concatenated in document order |
| Translate.NetworkJunctions | tools/cityflow2sumo/__main__.py:402-408 | junction `i` of the network is exactly the junction intersection `i` translates to: the virtual translation against the road edges' maps, or the signalised translation's junction |
| Translate.NetworkTllogics | tools/cityflow2sumo/__main__.py:390-414 | the network's programs are, one per signalised intersection and in document order, exactly the programs of their translations, each named after its intersection |
| Translate.NetworkVias | tools/cityflow2sumo/__main__.py:390-414 | every via connection of the network names a signalised intersection, which has a traffic-light program in the network |
| Translate.NetworkVirtualJunction | tools/cityflow2sumo/__main__.py:394-405 | a virtual intersection's junction lists, without repetition and in first-occurrence order, exactly the lanes of the roads ending (starting) there |
| Translate.VirtualFromRoads | tools/cityflow2sumo/__main__.py:356-388 | with the maps built from a road list, a translated virtual intersection lists, without repetition and in first-occurrence order, exactly the lanes of the roads ending (starting) there |
| Translate.RoadLanesAt | tools/cityflow2sumo/__main__.py:381-383 | the lane ids collected for a junction are exactly the names `<road>_<l>` of the lanes of the roads at that end |
| Translate.DanglingBoundaryFails | tools/cityflow2sumo/__main__.py:357 | a virtual intersection that no road ends at makes the translation fail |

## Left out

- File loading (`load_network_json`, `load_routes_json`) and the `__main__` block are file I/O and JSON parsing. The parsed document is the input datatype `CityFlow.RoadNet`. It holds only the keys the translator reads; the road link key `type` is the field `kind`.
- XML emission (`to_xml`, `__repr__`, `indentation`, `Network.to_xml`) is text serialisation with Python float formatting.
- `Point.distance` computes a floating-point square root. It is the parameter `dist: Metric`, and a road's length is stated as the left-to-right sum of `dist` values over consecutive points. Floating-point rounding is not modelled.
- Geometry.PolylineLength: states the length only in terms of `dist`, because Dafny's reals have no square root.
- The internal-lane speed 3.93 and length 2.19 are carried as the fixed constants `Sumo.InternalLaneSpeed` and `Sumo.InternalLaneLength`, without units or meaning.
- `Request` exists as a datatype, but the translator never creates one, so every junction's request list is empty.
- Lane ordinals and ids: `"%s_%s"` on an integer renders it in decimal. Non-integer JSON values (for example a float lane index) are not modelled; ordinals are Dafny `int`.
- Python's other exceptions (a missing JSON key, a wrongly typed value) are excluded by the input datatype. Only the three `KeyError` paths that well-formed input can reach are modelled.
- `utils.py` (configuration, directories, pickling, building the external RL environment), `main.py` (the training loop) and `plot.py` (plotting) are not part of this model.
- This module has no route (flow) translator, so none is modelled.
- Translate.TranslateNetwork: its own postcondition states the success condition, the edges, the junctions' ids, points and kinds, and the list lengths; the contents of the connection lists, internal edges, programs and junctions are stated by `NetworkLists` and `NetworkJunctions`, which keep the translation's postcondition small.
