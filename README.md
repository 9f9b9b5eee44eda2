# warzone-osm-mapmaker core, modelled in Dafny

This project models five parts of the map maker that turns OpenStreetMap
boundaries into a game map:

- **The segment-crossing sweep** (Shamos-Hoey). An event queue holds one LEFT
  and one RIGHT event per segment. A sweep line keeps the open segments in an
  ordered set, normalised so that the left endpoint comes first. The driver pops
  events in point order, inserts or erases segments, and runs the crossing test
  on neighbours in the set. The model proves what the code guarantees: the
  answer is exactly the outcome of replaying the popped events through those
  neighbour tests, stopping at the first that passes; the answer "crossing" is
  sound with respect to the crossing test on two distinct input segments;
  events pop in non-decreasing point order, and none left unpopped precedes a
  popped one; and the set and map invariants hold throughout. The ordered set
  is keyed by (left endpoint, right endpoint), not by height at the sweep
  position, so the model does not claim that every crossing is found.
- **The graph base**: a vertex set and an edge set with insert, contains,
  remove, size and empty.
- **The undirected graph**: every edge is stored as both ordered pairs. The
  vertex count is a "largest id + 1" counter. Degree and adjacents are range
  queries over the ordered pair set. The class invariant is symmetry of the
  pair set plus all ids below the counter.
- **The army calculator**: for each bonus (a group of territories) it collects
  the children, the union of their neighbours, and the outer neighbours. It
  computes a score and a clamped army value, and writes the value into the
  bonus in place.
- **OSM id interning**: `create_node` and `create_way` map sparse external ids
  to dense ids 0..N-1 and append to buffers. `complete_relation` keeps only the
  way members with role "outer" or "inner", and appends one relation.

Coordinates are integers; the crossing test is evaluated exactly. The score is
a Dafny `real`. Files: `geometry.dfy` (points and their order), `shamos_hoey.dfy`,
`graph.dfy`, `undirected_graph.dfy`, `calculator.dfy`, `convert_handler.dfy`, and
two helper modules (`options.dfy`, `cardinality.dfy`).

The point order `compare_lt`/`compare_gt` lives in a file that is not part of
this model. It is taken to be the strict lexicographic order on (x, y)
(`Geometry.CompareLt`).

`distance` is modelled with its formula exactly as written: its last factor
subtracts `p.y` from `s1.x`, where the cross product would use `s1.y`. The
crossing test and every lemma here are stated about that formula, not about a
geometric orientation.

The undirected graph does not compile as written: it uses the base's vertex set
as an integer, and it returns a vector of adjacents where the base declares a
set. The model follows the derived class's intent: `UndirectedGraph` is its own
class with a `nat` vertex counter, and `Adjacents` returns a sequence.

The army calculator's territory share is a `size_t` integer division
(calculator.hpp line 101), so it is 0 unless a bonus holds at least as many
territories as the map has; the model keeps that division.

## Model

| member | source | states |
|---|---|---|
| ShamosHoey.Distance | src/main/functions/detail/shamos_hoey.hpp:33-37 | the three-point distance, formula as written; it is 0 when p is the second point, or when all three share one x |
| ShamosHoey.SegmentDistance | src/main/functions/detail/shamos_hoey.hpp:49-53 | the segment form equals the three-point form on the segment's first and last point |
| ShamosHoey.Intersect | src/main/functions/detail/shamos_hoey.hpp:160-189 | false whenever the two segments share any endpoint; true only if both sign tests give a product of at most 0 |
| ShamosHoey.IntersectSymmetric | src/main/functions/detail/shamos_hoey.hpp:160-189 | the crossing test gives the same answer with its arguments swapped |
| ShamosHoey.IntersectIrreflexive | src/main/functions/detail/shamos_hoey.hpp:163-167 | two segments with the same endpoints never cross |
| ShamosHoey.Convert | src/main/functions/detail/shamos_hoey.hpp:242-249 | keeps the index and the endpoint pair (in either order); left is never after right; left is strictly before right for a segment of non-zero length |
| ShamosHoey.SLOrder | src/main/functions/detail/shamos_hoey.hpp:200-210 | the sweep-line comparator is a strict order (asymmetric, transitive) whose equivalence is "same endpoints" |
| ShamosHoey.SLLess | src/main/functions/detail/shamos_hoey.hpp:200-210 | the sweep-line comparator is the lexicographic order on (left endpoint, right endpoint) under the point order; the index plays no part |
| ShamosHoey.SortedKeysDistinct | src/main/functions/detail/shamos_hoey.hpp:221 | the ordered set never holds two comparator-equal segments |
| ShamosHoey.LowerBound | src/main/functions/detail/shamos_hoey.hpp:261-272 | the search position of the ordered set: everything before it is less than the key, and nothing at or after it is (for a sorted set) |
| ShamosHoey.LowerBoundFindsKey | src/main/functions/detail/shamos_hoey.hpp:268-272 | a segment with the key is in the set exactly when the search position holds one |
| ShamosHoey.EraseAt | src/main/functions/detail/shamos_hoey.hpp:274-279 | removing the position that holds the key keeps the set sorted, shortens it by one, and removes exactly the segments with that key |
| ShamosHoey.SegmentEvents | src/main/functions/detail/shamos_hoey.hpp:118-137 | the two events built for a segment are at its first and last point, and are exactly its LEFT event (at the normalised left endpoint) and its RIGHT event |
| ShamosHoey.EventComparator | src/main/functions/detail/shamos_hoey.hpp:88-93 | the priority queue's "less" is the reverse of the point order: e1 ranks below e2 exactly when e2's point is before e1's, so the event with the least point is on top |
| ShamosHoey.EventsUpToStep | src/main/functions/detail/shamos_hoey.hpp:138-140 | pushing the two events of segment i extends the events of the first i segments to the first i+1 |
| ShamosHoey.EventsUpToSize | src/main/functions/detail/shamos_hoey.hpp:115-142 | the queue is built with exactly 2·n events |
| ShamosHoey.EventsUpToMembers | src/main/functions/detail/shamos_hoey.hpp:115-142 | every queued event is the LEFT or RIGHT event of an input index |
| ShamosHoey.EventsUpToOnce | src/main/functions/detail/shamos_hoey.hpp:115-142 | every input index has exactly one LEFT and exactly one RIGHT event in the queue |
| ShamosHoey.EventQueue.constructor | src/main/functions/detail/shamos_hoey.hpp:115-142 | the queue holds exactly the LEFT and RIGHT events of every segment |
| ShamosHoey.EventQueue.IsEmpty | src/main/functions/detail/shamos_hoey.hpp:321 | empty exactly when no event is queued |
| ShamosHoey.EventQueue.Push | src/main/functions/detail/shamos_hoey.hpp:139-140 | push adds one copy of the event |
| ShamosHoey.EventQueue.Pop | src/main/functions/detail/shamos_hoey.hpp:324-325 | top then pop removes one copy of a queued event that no queued event precedes under the comparator |
| ShamosHoey.LeastEventExists | src/main/functions/detail/shamos_hoey.hpp:88-93 | a non-empty queue has an event with a least point, so top is defined |
| ShamosHoey.SweepLine.constructor | src/main/functions/detail/shamos_hoey.hpp:236 | a fresh sweep line has an empty map and an empty set |
| ShamosHoey.SweepLine.Get | src/main/functions/detail/shamos_hoey.hpp:251-255 | the normalised stored segment of a known index; None exactly where the map lookup would throw |
| ShamosHoey.SweepLine.Insert | src/main/functions/detail/shamos_hoey.hpp:261-266 | stores the raw segment; inserts the normalised one at its sorted position exactly when no comparator-equal one is present; the returned position is the set's search position for the key and holds a segment with that key; the set stays sorted |
| ShamosHoey.SweepLine.Find | src/main/functions/detail/shamos_hoey.hpp:268-272 | None exactly for an unknown index; otherwise the search position of the index's key when the set holds it, or the end when absent |
| ShamosHoey.SweepLine.Erase | src/main/functions/detail/shamos_hoey.hpp:274-279 | for a known index: removes it from the map and its key from the set, returning 1 or 0 elements erased; the new set is the old one with the key's search position removed, or unchanged when the key is absent; unknown index: nothing changes |
| ShamosHoey.SweepLine.Size | src/main/functions/detail/shamos_hoey.hpp:308-311 | the number of segments in the ordered set |
| ShamosHoey.CrossingFromTree | src/main/functions/detail/shamos_hoey.hpp:333-347 | two set positions that pass the crossing test come from two distinct input segments |
| ShamosHoey.KeyAbsentBeforeInsert | src/main/functions/detail/shamos_hoey.hpp:331 | on well-formed input, a segment's LEFT event finds no comparator-equal segment in the set |
| ShamosHoey.TreeAfterInsert | src/main/functions/detail/shamos_hoey.hpp:331 | after the insert, the set holds exactly the normalised open segments |
| ShamosHoey.TreeAfterErase | src/main/functions/detail/shamos_hoey.hpp:368 | after the erase, the set holds exactly the normalised segments still open |
| ShamosHoey.OpenAfterLeft | src/main/functions/detail/shamos_hoey.hpp:326-331 | popping a LEFT event opens a segment that was not open |
| ShamosHoey.OpenAtRight | src/main/functions/detail/shamos_hoey.hpp:350-355 | a popped RIGHT event belongs to an open segment, because its LEFT event has a strictly smaller point |
| ShamosHoey.OpenAfterRight | src/main/functions/detail/shamos_hoey.hpp:366-368 | popping a RIGHT event closes its segment |
| ShamosHoey.PopInOrder | src/main/functions/detail/shamos_hoey.hpp:324-325 | popping a least event keeps the popped sequence in non-decreasing point order, with no queued event before it |
| ShamosHoey.PoppedEvent | src/main/functions/detail/shamos_hoey.hpp:324-326 | a popped event is a LEFT or RIGHT event of an input segment, and no copy of it stays queued |
| ShamosHoey.ReplayStep | src/main/functions/detail/shamos_hoey.hpp:321-370 | replaying one more popped event applies that event's step to the set, and reports once the earlier events did or that event's neighbour test passes |
| ShamosHoey.LeftEventHit | src/main/functions/detail/shamos_hoey.hpp:331-348 | a LEFT event whose key is absent goes in at the search position p, and its neighbour test is the crossing test of its segment against the elements at p - 1 and p + 1 of the set after the insert |
| ShamosHoey.RightEventStep | src/main/functions/detail/shamos_hoey.hpp:355-368 | a RIGHT event whose key sits at the search position p tests t[p - 1] against t[p + 1], and erases position p |
| ShamosHoey.SweepLeft | src/main/functions/detail/shamos_hoey.hpp:326-349 | the LEFT branch: inserts the segment at its search position; returns true exactly when the crossing test holds between it and the segment before it or the segment after it; a true answer comes from two distinct input segments; keeps the set equal to the open segments |
| ShamosHoey.EraseOpen | src/main/functions/detail/shamos_hoey.hpp:366-368 | the erase of the RIGHT branch: the set loses exactly the key's search position and still holds exactly the open segments; the segment leaves the map |
| ShamosHoey.SweepRight | src/main/functions/detail/shamos_hoey.hpp:350-369 | the RIGHT branch: returns true exactly when the segment has neighbours on both sides and the crossing test holds between them; a true answer comes from two distinct input segments; otherwise erases the segment's position and keeps the set equal to the open segments |
| ShamosHoey.SweepEvent | src/main/functions/detail/shamos_hoey.hpp:321-370 | one loop iteration: pops a least event; the answer equals that event's neighbour test on the set as it was; without a report the set takes the event's step and the sweep state is kept |
| ShamosHoey.HandleEvent | src/main/functions/detail/shamos_hoey.hpp:326-369 | a popped LEFT event takes the LEFT branch and a RIGHT event the RIGHT branch; the answer equals the event's neighbour test, and without a report the open segments are those left after the event |
| ShamosHoey.InitialSweepState | src/main/functions/detail/shamos_hoey.hpp:318-319 | with every event queued, an empty map and an empty set, the sweep invariants hold before the first pop |
| ShamosHoey.ShamosHoey | src/main/functions/detail/shamos_hoey.hpp:315-374 | the answer equals replaying the popped events from an empty set until a neighbour test passes, and the sweep stops at the first one; true only if two distinct input segments pass the crossing test; false for zero or one segment; the popped events are in non-decreasing point order, no event left unpopped has a point before a popped one (so the trace is the queue's pop order, up to ties between equal points), and the popped events are all events when the answer is false |
| Graph.Graph.constructor | src/main/model/graph/graph.hpp:47 | a fresh graph is empty |
| Graph.Graph.VertexCount | src/main/model/graph/graph.hpp:92-95 | the number of vertices; 0 exactly when there are none |
| Graph.Graph.EdgeCount | src/main/model/graph/graph.hpp:133-136 | the number of edges; 0 exactly when there are none |
| Graph.Graph.Size | src/main/model/graph/graph.hpp:57-60 | the vertex count paired with the edge count |
| Graph.Graph.Empty | src/main/model/graph/graph.hpp:66-69 | empty exactly when both counts are 0 |
| Graph.Graph.ContainsVertex | src/main/model/graph/graph.hpp:113-116 | a contained vertex makes the graph non-empty |
| Graph.Graph.InsertVertex | src/main/model/graph/graph.hpp:102-105 | the vertex is contained afterwards; the count grows by one only for a new vertex; inserting again changes nothing; edges unchanged |
| Graph.Graph.RemoveVertex | src/main/model/graph/graph.hpp:123-126 | the vertex is absent afterwards; every other vertex and every edge is unchanged |
| Undirected.SymmetricPairCount | src/main/model/graph/undirected_graph.hpp:72-75 | a symmetric pair set holds each non-loop edge twice and each self-loop once |
| Undirected.ReversedSize | src/main/model/graph/undirected_graph.hpp:72-75 | in a symmetric pair set the pairs with source above target are as many as those with source below target |
| Undirected.UndirectedGraph.constructor | src/main/model/graph/undirected_graph.hpp:27 | a fresh graph is valid, with counter 0 and no pairs |
| Undirected.UndirectedGraph.Reverse | src/main/model/graph/undirected_graph.hpp:46-49 | swaps source and target; fixes exactly the self-loops |
| Undirected.UndirectedGraph.VertexCount | src/main/model/graph/undirected_graph.hpp:35-38 | in a valid graph, the counter exceeds every stored id |
| Undirected.UndirectedGraph.EdgeCount | src/main/model/graph/undirected_graph.hpp:60-63 | half the number of stored pairs, rounded down |
| Undirected.UndirectedGraph.Size | src/main/model/graph/undirected_graph.hpp:35-38 | the vertex counter paired with the edge count |
| Undirected.UndirectedGraph.ContainsEdge | src/main/model/graph/undirected_graph.hpp:88-91 | a pair is contained exactly when it is among the pairs with its source |
| Undirected.UndirectedGraph.InsertEdge | src/main/model/graph/undirected_graph.hpp:72-78 | both directions are contained afterwards; no other pair is added; symmetry is kept; the counter never decreases and covers both ends |
| Undirected.UndirectedGraph.FromLowerEdgeBound | src/main/model/graph/undirected_graph.hpp:103-108 | the pairs from lower_edge_bound on are stored pairs |
| Undirected.UndirectedGraph.FromUpperEdgeBound | src/main/model/graph/undirected_graph.hpp:118-123 | the pairs from upper_edge_bound on lie within those from lower_edge_bound on |
| Undirected.UndirectedGraph.EdgeRange | src/main/model/graph/undirected_graph.hpp:103-123 | the range between the two bounds is exactly the pairs with source v, and it is contiguous in pair order |
| Undirected.UndirectedGraph.Degree | src/main/model/graph/undirected_graph.hpp:136-149 | the number of stored pairs with source v; 0 exactly when v has no neighbour |
| Undirected.UndirectedGraph.Adjacents | src/main/model/graph/undirected_graph.hpp:160-175 | the targets of the pairs with source v, strictly increasing, exactly v's neighbours, as many as the degree |
| Undirected.Targets | src/main/model/graph/undirected_graph.hpp:166-173 | the walk over a range of pairs with one source yields their targets, strictly increasing, one per pair |
| Undirected.FirstPair | src/main/model/graph/undirected_graph.hpp:169-172 | the next pair of the range walk: the one with the least target |
| Undirected.NeighboursSymmetric | src/main/model/graph/undirected_graph.hpp:72-78 | in a valid graph, u is adjacent to v exactly when v is adjacent to u |
| Undirected.EdgeCountIsPairCount | src/main/model/graph/undirected_graph.hpp:60-63 | the edge count is the number of distinct non-loop edges plus half the self-loops; without self-loops it is the number of edges |
| Calculator.MinReal | src/main/mapmaker/calculator.hpp:102 | std::min: at most both arguments, and one of them |
| Calculator.Truncate | src/main/mapmaker/calculator.hpp:141 | conversion to int drops the fraction toward zero |
| Calculator.RoundHalfAway | src/main/mapmaker/calculator.hpp:141 | rounds to within one half, halfway cases away from zero |
| Calculator.ArmiesAsWritten | src/main/mapmaker/calculator.hpp:141 | the army value as written: at least the minimum and at least the truncated scaled score, and equal to the truncated scaled score when above the minimum |
| Calculator.Armies | src/main/mapmaker/calculator.hpp:141 | the army value as intended: at least the minimum and at least score × max rounded half away from zero, and equal to that rounded value when above the minimum |
| Calculator.ArmiesNearScaledScore | src/main/mapmaker/calculator.hpp:141 | above the minimum, the army value is within one half of score × max |
| Calculator.ArmiesBounds | src/main/mapmaker/calculator.hpp:141 | for a score in [0, 1] and max ≥ 0, min ≤ armies ≤ max(max, min) |
| Calculator.ArmiesAsWrittenBounds | src/main/mapmaker/calculator.hpp:141 | the same bounds hold for the value as written |
| Calculator.RoundingDiscrepancy | src/main/mapmaker/calculator.hpp:141 | score 0.25 with max 10: the code as written gives 2, round half away from zero gives 3 |
| Calculator.ChildSet | src/main/mapmaker/calculator.hpp:117-120 | the set of a bonus's child ids |
| Calculator.ChildSetSize | src/main/mapmaker/calculator.hpp:138 | a bonus of territories with ids below n has at most n distinct children |
| Calculator.OuterAdjacentsMembers | src/main/mapmaker/calculator.hpp:129-136 | an outer adjacent is a neighbour of some child that is not itself a child |
| Calculator.AdjacentStep | src/main/mapmaker/calculator.hpp:121-125 | one child adds exactly its neighbours to the adjacents |
| Calculator.ChildStep | src/main/mapmaker/calculator.hpp:120 | one child adds exactly itself to the children |
| Calculator.ArmyCalculator.constructor | src/main/mapmaker/calculator.hpp:90-95 | keeps the territory count, the bonus list and the neighbour graph |
| Calculator.ArmyCalculator.GetScore | src/main/mapmaker/calculator.hpp:99-103 | get_score: the score is ≥ 0; ≤ 1 when the bonus has at most all territories; ≤ 0.5 (territory term 0) when it has fewer |
| Calculator.ArmyCalculator.ScoreSaturates | src/main/mapmaker/calculator.hpp:102 | the connection term is capped: from two outer neighbours per territory on, more do not raise the score |
| Calculator.ArmyCalculator.ScoreMonotone | src/main/mapmaker/calculator.hpp:102 | the score is non-decreasing in the number of outer neighbours |
| Calculator.ArmyCalculator.IsolatedScoresLower | src/main/mapmaker/calculator.hpp:99-103 | a bonus with no outer neighbours scores strictly lower than one of the same size with some |
| Calculator.ArmyCalculator.BonusArmies | src/main/mapmaker/calculator.hpp:138-141 | the army value assigned to a bonus is at least the minimum |
| Calculator.ArmyCalculator.BonusArmiesBounds | src/main/mapmaker/calculator.hpp:138-141 | a bonus of map territories gets min ≤ armies ≤ max(max, min) |
| Calculator.ArmyCalculator.FiveTerritoryScenario | src/main/mapmaker/calculator.hpp:113-142 | ring 0-1-2-3-4-0 with chord 0-2, bonus {0, 1}, 5 territories: outer adjacents {2, 4}, score 0.25, 3 armies (2 as written) |
| Calculator.ArmyCalculator.TwoOfFiveScore | src/main/mapmaker/calculator.hpp:99-103 | two territories of five with two outer neighbours score 0.25, because the territory share 2 / 5 is 0 in integer division |
| Calculator.RingWithChordOuter | src/main/mapmaker/calculator.hpp:117-136 | in the ring 0-1-2-3-4-0 with chord 0-2, the bonus {0, 1} has outer adjacents {2, 4} |
| Calculator.ArmyCalculator.Exposure | src/main/mapmaker/calculator.hpp:117-136 | the children loop yields the child set and the neighbours of the children that are not children |
| Calculator.ArmyCalculator.CalculateArmies | src/main/mapmaker/calculator.hpp:110-146 | every bonus gets the army value of its score, in place; nothing else about a bonus changes |
| Handler.DenseOnto | src/main/io/handler/convert_handler.hpp:68-76 | a dense id table maps its keys onto exactly 0..N-1 |
| Handler.DenseExtend | src/main/io/handler/convert_handler.hpp:136-137 | giving a new key the next id keeps a table dense and grows it by one |
| Handler.InternNodeKeepsTable | src/main/io/handler/convert_handler.hpp:129-140 | create_node keeps buffer and table consistent, keeps every known id and node, and maps the ref |
| Handler.InternNodesKeepsTable | src/main/io/handler/convert_handler.hpp:169-173 | the same for the node loop of create_way, and every ref of the way is mapped |
| Handler.NodeIds | src/main/io/handler/convert_handler.hpp:169-173 | the dense ids of a way's nodes, one per node, each the id its ref has in the node table |
| Handler.NodeIdsSnoc | src/main/io/handler/convert_handler.hpp:169-173 | one more node appends its dense id, and the ids of the earlier nodes stay as the node table grows |
| Handler.InternMemberWaysSnoc | src/main/io/handler/convert_handler.hpp:220-230 | one more member: its way is interned by create_way after those of the earlier members, when it has a way ref |
| Handler.KeptMembers | src/main/io/handler/convert_handler.hpp:220-240 | the kept members, in order: never more than the input members; every one is a way member with role "outer" or "inner" |
| Handler.KeptMembersExactly | src/main/io/handler/convert_handler.hpp:222-237 | a member is kept exactly when it is a way member with a non-zero ref, a role, and role "outer" or "inner" |
| Handler.KeptMembersStable | src/main/io/handler/convert_handler.hpp:228-236 | converting more ways does not change the dense ids of members already converted |
| Handler.KeptMembersInRange | src/main/io/handler/convert_handler.hpp:228-236 | every kept member refers to a way id below the way table's size |
| Handler.KeptMembersSnoc | src/main/io/handler/convert_handler.hpp:234-237 | one more member adds its conversion to the kept members when its role qualifies, and nothing otherwise |
| Handler.TagValue | src/main/io/handler/convert_handler.hpp:216-218 | a tag's value, or "" when it is missing |
| Handler.RelationTags | src/main/io/handler/convert_handler.hpp:216-218 | the relation gets the tags name, type and admin_level, in that order, each with its value or "" |
| Handler.ConvertHandler.IdsAreBufferIndices | src/main/io/handler/convert_handler.hpp:68-76 | the node and way id maps are injective onto the buffer indices 0..N-1 |
| Handler.ConvertHandler.constructor | src/main/io/handler/convert_handler.hpp:82-93 | a fresh handler has empty buffers and tables |
| Handler.ConvertHandler.CreateNode | src/main/io/handler/convert_handler.hpp:126-141 | a known ref returns its node and changes nothing; a new ref gets id = previous table size, and one node with that id is appended; ways and relations untouched |
| Handler.ConvertHandler.CreateWay | src/main/io/handler/convert_handler.hpp:153-176 | a known id changes neither buffer nor map; a new way gets the next id and is appended with the dense ids of its nodes, in order; the node and way tables and buffers become exactly those of InternWay |
| Handler.ConvertHandler.AddWayNodes | src/main/io/handler/convert_handler.hpp:168-173 | the node loop: the nodes are interned in order, and the way's node list becomes the dense ids of the refs, in order; other ways unchanged |
| Handler.ConvertHandler.AddWayNode | src/main/io/handler/convert_handler.hpp:171-172 | one node converted and its id appended to the way |
| Handler.ConvertHandler.CompleteRelation | src/main/io/handler/convert_handler.hpp:207-242 | the relation gets the next relation id; exactly one relation is appended, with its three tags and exactly the kept members; the node and way tables and buffers become those of create_way applied to each member way in order; converted ways keep their ids |
| Handler.ConvertHandler.ConvertMembers | src/main/io/handler/convert_handler.hpp:220-240 | the member loop: the node and way tables and buffers become those of create_way applied to the way of every member with a way ref, in order; yields exactly the kept members, in order, each referring into the way buffer |
| Handler.ConvertHandler.ConvertNext | src/main/io/handler/convert_handler.hpp:221-239 | one loop iteration: applies create_way to member k's way when it has a way ref (tables and buffers exactly as InternWay gives them), and extends the kept members of the first k members to those of the first k + 1 |
| Handler.ConvertHandler.ConvertMember | src/main/io/handler/convert_handler.hpp:222-239 | for a member with a non-zero ref and a role, the tables and buffers become exactly InternWay of its way (otherwise nothing changes); keeps the member only for role "outer" or "inner" |

## Left out

- Floating point: the `float` truncation of the two distances in `intersect` is dropped; coordinates are unbounded integers and the products are exact.
- Integer widths: `size_t` indices and counters, `object_id_type` and the army type are unbounded integers; overflow and the conversion of an out-of-range double to `int` are not modelled.
- The score uses exact `real` arithmetic, not `double`. The lemmas that quantify over all inputs (GetScore's bounds, ScoreSaturates, ScoreMonotone, IsolatedScoresLower, ArmiesBounds) are about exact `real` arithmetic; only the values of the example lemmas (0.5, 0.25 and 2.5) are exact in binary, so those agree with `double`.
- `distance`'s doc-comment claim about the sign (point left or right of the segment) is not proved; with the formula as written it does not hold in general.
- ShamosHoey.ShamosHoey: does not claim that every crossing is found. The ordered set is keyed by endpoints, not by height at the sweep position, so completeness is not something the code guarantees.
- ShamosHoey.ShamosHoey: inputs that can reach an exception or undefined behaviour are excluded by a precondition: a zero-length segment (whose RIGHT event may pop before its LEFT event, since equal points tie), and two segments that normalise to the same endpoint pair (whose second RIGHT event finds the key gone while the set is non-empty). The precondition is stronger than needed: it also excludes some such inputs that the code answers without error, for example two copies of one segment and nothing else, where the second RIGHT event meets an empty set and the answer is false.
- Equal points in the event queue pop in an order the heap does not specify; the model lets Pop return any event with a least point. The heap's array layout is not modelled; the queue is a multiset.
- The iterators of the ordered set are positions in a sorted sequence; `cbegin`, `cend`, `crbegin`, `crend` and `empty` of the sweep line are not modelled separately.
- The base graph's `insert_edge`, `contains_edge`, `remove_edge`, `degree` and `adjacents` are pure virtual and have no body; the undirected graph defines no `remove_edge`. None is modelled on the base class.
- The `vertices()` and `edges()` accessors return the containers themselves; the model reads the fields directly.
- Calculator.ArmyCalculator.Exposure: the outer adjacents are a set, not the sorted vector `std::set_difference` fills; only their number is read by the score, so their order and the vector itself are not modelled.
- Calculator.ArmyCalculator.CalculateArmies: a bonus with no children and an empty territory list divide by zero, so both are excluded by a precondition.
- Calculator.ArmyCalculator.CalculateArmies: uses the corrected rounding (see Findings), not the rounding as written.
- The territories themselves are not modelled; the calculator reads only their number.
- `CenterCalculator` calls a centre-point routine that is not part of this model; `ColorCalculator` is empty; the super-bonus scoring is an unimplemented TODO.
- The label-placement search (polylabel) and the circle helper are floating-point code and are not part of this model.
- OSM plumbing: `new_relation` (tag filter matching), `after_way` (an unfinished TODO), the constructor's admin-level filter, the accessors, and the relations-manager base class are not modelled.
- Handler.ConvertHandler.CompleteRelation: `get_member_way` is a lookup in the relations manager's buffer; it is a parameter, a map from member ref to way, that must hold the way of every member with a way ref.
- Handler.ConvertHandler.CompleteRelation: does not guard against the same relation id completing twice (the relations manager delivers each relation once); the relation id table is therefore not stated to be dense.
- `create_node` and `create_way` return references into the buffers; the model returns the node or way value. The caller reads only the id, which is the same.
- Node coordinates are copied unchanged and modelled as `real`.

## Findings

| source | as written | input that shows it | evidently intended | confidence | as-written member | corrected member |
|---|---|---|---|---|---|---|
| src/main/mapmaker/calculator.hpp:141 | the explicit template argument `<int>` selects `std::round`'s integral overload, so score × max is converted to `int` (fraction dropped) before it is rounded | 2 children, 2 outer neighbours, 5 territories, min 1, max 10: score 0.25, scaled 2.5, army value 2 | round half away from zero: army value 3 | medium, not executed | Calculator.ArmiesAsWritten (shown by Calculator.RoundingDiscrepancy) | Calculator.Armies (proved by Calculator.ArmiesNearScaledScore and Calculator.ArmiesBounds, used by Calculator.ArmyCalculator.CalculateArmies) |
