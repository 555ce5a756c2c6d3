# Verification of the geographic core

This project models the parts of the program that keep OpenStreetMap data of Sweden in its own mutable indexes and
compute with them, and proves properties of the model with Dafny. `dafny verify dfyconfig.toml` checks all of it.

What is modelled, file by file:

- **Regions of relations.** `RingAssembly.dfy` glues ways end to end and merges polygons, `MergeLoss.dfy` says when this
  loses edges, `CancelledLosses.dfy` has losses that make up for each other, `Regions.dfy` runs the whole construction
  for a relation and keeps the finished regions, `RegionMembers.dfy` says which members, nodes and ends decide it,
  `LostEdge.dfy` has relations that lose an edge, `RegionTest.dfy` answers whether a point is inside with a box and an
  integer ray cast, `ExactCrossing.dfy` ties this to points of edges in the plane, `RegionParity.dfy` says when this is
  the even-odd answer of the ways, and `HoleRegion.dfy` has relations for which it is not. `Coordinates.dfy` has the
  division toward zero and the arithmetic this needs, `EdgeSums.dfy` sums over edges.
- **Way simplification.** `SegmentDistance.dfy` has the distance with its rounded foot point, `WaySimplification.dfy`
  the loop with the explicit stack, `InnerCorridor.dfy` the nearest point and which nodes are dropped, `WayStore.dfy`
  whole runs in which counters persist from way to way, and `SimplificationQueue.dfy` the two threads around the queue.
- **The tree over ids.** `Ids.dfy` takes ids apart with masks and shifts (`Division.dfy` has the quotients).
  `IdTree.dfy` has the nodes in memory, the recorded path of leading zeros, the cache and the counters.
  `IdTreeFormat.dfy` and `Payloads.dfy` are the file format, `FileBytes.dfy` and `FileLayout.dfy` say where everything
  lies in the files, and `FileErrors.dfy` what is not accepted; `IdTreeFiles.dfy` says which reachable trees can be read
  again from their files, and `IdTreeLoading.dfy` brings them back into memory.
- **The tree over texts.** `SwedishText.dfy` encodes names and lists their runs of words, `TextTree.dfy` is the tree,
  `TextTreeFormat.dfy` and `TextTreeFiles.dfy` are its file, and `TextTreeLoading.dfy` brings it back into memory.
- **Road tables.** `RoadTables.dfy` inserts ways and moves those of unknown county, `SparseFormat.dfy`,
  `SwedenFormat.dfy` and `SwedenFile.dfy` are the file.
- **Results.** `ResultPruning.dfy` drops results close to better ones, `ElementCenter.dfy` computes the center of an
  element, and `CenterSamples.dfy` says from which nodes.

Places where the code does something else than its comments or names suggest are stated as they are, with the exact
condition under which the expected property holds:

- merging polygons compares with the ends recorded before the first merge (`MergeLoss.SearchKeepsEdgesIff`,
  `LostEdge.EdgeIsLost`);
- a point in a hole of a region is inside (`RegionParity.RegionAnswerIff`, `HoleRegion.AskForHole`), and rounding can
  move a point over an edge (`RegionTest.RoundingOfRing`);
- a name of which some run of words has no code is stored in part (`TextTrees.FoundAreMatches`,
  `TextTrees.CodedTextsFoundIff`);
- the mean of negative coordinates is exact only for some counts (`ElementCenter.MeanExactIff`);
- the file of a tree over ways or relations cannot be read again unless it holds an id below 2^36
  (`IdTreeFiles.WaysLoadable`), and a file without national roads cannot be read at all (`SwedenFile.RoundTrip`);
- the maximum recorded for the queue may fall (`SimplificationQueue.MaximumCanFall`), and ways of some European roads
  come back under another number (`SwedenFormat.SharedSlots`);
- a use counter that overflows lets a junction be dropped (`WayStore.KeptIff`, `WayStore.OverflowReached`).

Where the program stops with a fatal error, the model has a precondition (a duplicate or zero id, a counter of an
unknown id) or, for reading files, the outcome `Fatal`.

## Model

| member | source | states |
|---|---|---|
| RegionTest.CrossingWithinEdge | sweden.cpp:540 | dividing toward zero, the intermediate x stays between the x values of a straddling edge |
| RegionTest.ShortcutHarmless | sweden.cpp:539-541 | the test on the x values before the division never changes whether an edge toggles |
| RegionTest.RoundingOfEdge | sweden.cpp:540-541 | compared with exact rational arithmetic, rounding can only lose an edge, and does so exactly for the misrounded ones |
| RegionTest.StartVertexIrrelevant | sweden.cpp:535-544 | the count of toggles of a ring does not depend on the vertex the ring starts with |
| RegionTest.StraddlingEdgesEven | sweden.cpp:538-539 | a cyclic list of vertices straddles any horizontal line an even number of times |
| RegionTest.RoundingOfRing | sweden.cpp:532-550 | the answer for a ring is the exact even-odd answer if and only if the number of misrounded edges is even |
| RegionTest.ExactWithoutNearMiss | sweden.cpp:538-541 | with no edge crossing strictly within the last unit left of the point the answer is the exact even-odd answer |
| RegionTest.RoundingCanFlipAnswer | sweden.cpp:540-541 | a triangle and a point that lies outside for exact arithmetic and inside for the code |
| RegionTest.ExactBackwards | sweden.cpp:538-544 | walking a ring backwards changes nothing for exact arithmetic |
| RegionTest.DirectionMatters | sweden.cpp:538-544 | for the code it changes nothing if and only if the misrounded edges of both directions add up to an even number |
| RegionTest.BoxRejectionHarmless | sweden.cpp:529-550 | for a box that holds all vertices and a point outside of it the ray cast says outside as well |
| RegionTest.PassEdge | sweden.cpp:539-542 | the two tests and the division flip the answer exactly for an edge that the program counts |
| RegionTest.CastRay | sweden.cpp:532-544 | the loop over a polygon computes the parity of its toggling edges |
| ExactCrossing.ExactIsGeometric | sweden.cpp:538-541 | an edge counts for exact arithmetic if and only if it has a point, above its lower end, on the horizontal line through the asked point and left of that: some real fraction of the edge between 0 and 1 |
| ExactCrossing.CrossingTruncates | sweden.cpp:540 | the computed x value is less than one from that point of the edge, and between it and the vertex the computation starts from |
| ExactCrossing.CodedIsGeometric | sweden.cpp:539-541 | the program counts an edge if and only if that point, rounded toward the x value of this vertex, is left of the asked point |
| ExactCrossing.ExactCountsEdges | sweden.cpp:535-544 | the exact count of a ring is the number of vertices whose edge from the vertex before has such a point, the last vertex being before the first |
| ExactCrossing.InsideCountsEdges | sweden.cpp:532-550 | a ring has the asked point inside if and only if the number of those whose rounded point is left of it is odd |
| RegionTest.InsideRegion | sweden.cpp:527-552 | with the box rejection first and stopping at the first hit, the answer is whether some polygon has the point inside |
| RegionTest.NoOverflow | sweden.cpp:540 | every intermediate value of the ray cast fits 32 bits where the coordinates, the extents of the edge and the product of these do |
| RingAssembly.GluingKeeps | sweden.cpp:326-373 | gluing a way to a polygon, at either end and in either direction, keeps all edges with their multiplicity and uses the two joined ends up |
| RingAssembly.AddWayToPolygon | sweden.cpp:304-377 | a way is added if and only if the polygon is empty or an end of the way that has coordinates matches an end; the result is that of the first matching case of four, and it is the way, or both glued end to end |
| RingAssembly.PrependForward | sweden.cpp:326-335 | all but the first node of the way, as far as known, end up in front of the polygon in reverse order |
| RingAssembly.AppendForward | sweden.cpp:336-345 | all but the first node end up behind the polygon in order |
| RingAssembly.PrependBackward | sweden.cpp:354-363 | all but the last node end up in front of the polygon in order |
| RingAssembly.AppendBackward | sweden.cpp:364-373 | all but the last node end up behind the polygon in reverse order |
| RingAssembly.LiveMergeKeeps | sweden.cpp:457-486 | merging at an end that still is an end keeps all edges and uses the shared end up, in each of the four cases |
| RingAssembly.MergeKeepsEdgesIff | sweden.cpp:457-486 | a merge keeps all edges if and only if the second polygon is a single vertex or the end recorded before still is an end of the first |
| RingAssembly.ThreePathsAtOneEnd | sweden.cpp:458-488 | two merges into one polygon whose recorded end is no longer an end at the second: an edge is lost |
| RingAssembly.LiveMergeAccounts | sweden.cpp:462-488 | merging two polygons of a list keeps the edges, vertices and the parity of ends of the whole list |
| RingAssembly.MergeInto | sweden.cpp:463-487 | the four-way comparison decides and performs the merge |
| RingAssembly.AbsorbPartners | sweden.cpp:457-488 | going through the later polygons computes the search, which compares with the ends recorded at its beginning, and a match is reported exactly when the list got shorter |
| RingAssembly.MergePolygons | sweden.cpp:451-491 | the loop ends and computes the merging of the list, which leaves no open polygon with a partner and keeps the vertices and the number of edges, and all edges when no coordinate ends more than two polygons |
| RingAssembly.MergingKeepsExtent | sweden.cpp:451-491 | whatever the ends, merging keeps the set of vertices and the number of edges |
| RingAssembly.MergingAccounts | sweden.cpp:451-491 | when no coordinate ends more than two polygons, merging keeps every edge with its multiplicity, and ends vanish in pairs only |
| RingAssembly.MergingEnds | sweden.cpp:452-491 | when the passes stop, no open polygon shares an end with a later one |
| MergeLoss.SearchKeepsEdgesIff | sweden.cpp:455-489 | the search for partners of one polygon keeps all edges if and only if no later polygon of two or more vertices is found at an end at which an open polygon before it was found |
| MergeLoss.LosslessKeepsEdges | sweden.cpp:451-491 | the whole merging keeps all edges if none of its searches loses one |
| CancelledLosses.KeptThoughNotLossless | sweden.cpp:451-491 | it may keep every edge although searches lose some: for six different coordinates in certain polygons two searches lose an edge each and each gains that of the other |
| CancelledLosses.SixCoordinates | sweden.cpp:451-491 | there are six such coordinates |
| MergeLoss.TwoEndsLossless | sweden.cpp:451-491 | none does when no coordinate ends more than two polygons |
| LostEdge.EdgeIsLost | sweden.cpp:396-517 | for every relation of six ways of which three end in one coordinate, listed in a certain order, the recorded region lacks an edge of a way although all ways are known |
| LostEdge.SuchARelation | sweden.cpp:379-521 | there is such a relation, none of whose ids is the zero that trees over ids refuse |
| LostEdge.BuildLosesEdge | sweden.cpp:379-521 | building the region of such a relation in an empty index records it, and an edge of a boundary way is not on its rings |
| Regions.BoundaryCount | sweden.cpp:389-393 | the expected number of outer or inner ways is the number of ways found plus the missing ones, so both agree exactly when none is missing |
| Regions.ClosedIffPaired | sweden.cpp:451-491 | where no coordinate ends more than two ways: after merging, all polygons are closed if and only if every coordinate that ends a way ends exactly two, a closed way counting twice |
| Regions.RingsAreWaysIff | sweden.cpp:499-510 | where no coordinate ends more than two ways: after dropping repeated vertices, the rings have exactly the edges of the ways, each as often, if and only if the ends of the ways are paired |
| Regions.BoxHoldsVertices | sweden.cpp:429-439 | the recorded box holds every coordinate of every attached way |
| Regions.BoxTight | sweden.cpp:429-439 | each side of the box is touched by some coordinate within its initial bounds |
| Regions.WidenBox | sweden.cpp:429-439 | the loop over the nodes of a way widens the box by exactly their coordinates |
| Regions.AttachWay | sweden.cpp:408-423 | the way is in the first polygon that takes it, or in a new one, and in no other |
| Regions.PlacedAt | sweden.cpp:408-423 | if no polygon before number k takes the way and that one does, it alone is extended; if none does, the way is a new last polygon |
| RegionMembers.OtherMembersIgnored | sweden.cpp:393-403 | a member that is no way, or has neither the bit for outer nor that for inner, changes neither the boundary nor whether it is complete nor the region that is built |
| RegionMembers.OuterAndInnerCount | sweden.cpp:389-407 | a way with one of the bits adds its path to the boundary at its own place if it is known, and otherwise leaves the boundary incomplete |
| RegionMembers.PlacedInOrder | sweden.cpp:399-423 | such a way is placed among the polygons made of the members before it |
| RegionMembers.PathOfKnownNodes | sweden.cpp:304-316 | the path of a way all of whose nodes have positions consists of these, one by one |
| RegionMembers.UnknownNodeIgnored | sweden.cpp:304-316 | a node without a position is passed over |
| RegionMembers.FirstMatchIsTaken | sweden.cpp:320-377 | a way is glued with its first vertex where that is an end of the polygon and else with its last, in front where both ends match and else behind, and is refused exactly when neither is an end |
| RegionMembers.UnknownEndsRefused | sweden.cpp:320-351 | a way whose first node has no position is refused, and without a position of its last node only the first one counts |
| Regions.Sweep | sweden.cpp:400-445 | one pass over the members places every boundary way of the database that was not placed before, in order, or stops when the expected number is reached |
| Regions.AttachWays | sweden.cpp:396-449 | the polygons are those of placing each boundary way of the database once, in the order of the members, and success is reported if and only if none is missing |
| Regions.CloseRings | sweden.cpp:499-510 | closed polygons lose their last vertex, open ones stay |
| Regions.MergedRegionOutlines | sweden.cpp:451-517 | a finished region has the box of its ways, which holds its rings; where no coordinate ends more than two ways, it has the edges of the ways if and only if their ends are paired |
| Regions.RegionIndex.BuildPolygonForRelation | sweden.cpp:379-521 | a region is recorded exactly for relations all of whose boundary ways are known; it is what placing, merging and closing make of them; recorded regions are never changed |
| Regions.RegionIndex.NodeInsideRelationRegion | sweden.cpp:523-553 | the answer is the ray cast over the rings of the recorded region, and no answer where looking the region up fails |
| EdgeSums.SameEdgesSameSum | sweden.cpp:396-510 | paths with the same edges have the same sum of any quantity over their edges, however these are strung together |
| RegionParity.CrossingsDecidedByWays | sweden.cpp:451-552 | when rings have the edges of the ways, the ray crosses all rings together as often as the ways, by exact arithmetic |
| RegionParity.AnswerOfWaysIff | sweden.cpp:532-552 | when rings have the edges of the ways: the answer, which is whether some ring has the point inside, is the exact even-odd answer of the ways if and only if the number of such rings and that of the misrounded edges are both as they should be |
| RegionParity.RegionAnswerIff | sweden.cpp:379-552 | for a region whose ways end in pairs, at most two at a coordinate, and an even number of misrounded edges on each ring, the answer is the even-odd answer of the ways if and only if the number of rings with the point inside is zero or odd |
| RegionParity.RecordedRegionAnswers | sweden.cpp:379-552 | so it is for every recorded region and every point that at most one ring has inside |
| HoleRegion.HoleOfRelation | sweden.cpp:379-552 | for every relation of an outer and an inner closed way and every point inside of both, the region answers inside, where even-odd counting of the ways says outside |
| HoleRegion.SuchAHole | sweden.cpp:379-552 | there is such a relation with such a point |
| HoleRegion.AskForHole | sweden.cpp:379-552 | building the region of such a relation in an empty index and asking it for the point gives inside |
| SegmentDistance.RoundedPart | osmpbfreader.cpp:101-102 | the rounded foot point stays in the box of the segment, off by less than 1.5 per axis, by at most 0.5 where the axis does not decrease |
| SegmentDistance.CloseIsInCorridor | osmpbfreader.cpp:76-109 | a node whose computed squared distance is at most 400 has an exact squared distance of at most 490 from the segment |
| InnerCorridor.NearestIsNearest | osmpbfreader.cpp:90-104 | no point of the segment is nearer than that at the fraction of the perpendicular foot, cut off at 0 and 1 |
| InnerCorridor.MeasuredToNearest | osmpbfreader.cpp:81-106 | the distance is measured to a grid point at most 1.5 from that nearest point on each axis |
| InnerCorridor.FootIsRounded | osmpbfreader.cpp:101-102 | each axis of the foot, as an extent from the first node, is rounded to the nearest integer, but from -0.5 downwards to the one after that |
| InnerCorridor.EndsMeasuredExactly | osmpbfreader.cpp:84-99 | beyond the ends of the segment, and where it has no length, the distance is exact |
| InnerCorridor.InnerCorridorIsClose | osmpbfreader.cpp:76-109 | a node with an exact squared distance of at most 319 from some point of the segment has a computed one of at most 400 |
| InnerCorridor.CorridorWidth | osmpbfreader.cpp:132-133 | a squared distance of 400 is within the corridor, one of 401 is not |
| SegmentDistance.NoOverflow | osmpbfreader.cpp:81-106 | nodes within 32767 decimeters of each other are measured without leaving 32 bits: every product, every sum, the foot point and the result |
| WaySimplification.FindFarthest | osmpbfreader.cpp:121-130 | the first node of the greatest distance in the stretch, zeroed entries skipped |
| WaySimplification.FarthestMeaning | osmpbfreader.cpp:119-130 | its distance is the greatest in the stretch, and all nodes before it have a smaller one |
| WaySimplification.RemoveUnneeded | osmpbfreader.cpp:137-141 | exactly the inner nodes with counter zero are zeroed |
| WaySimplification.ProcessTop | osmpbfreader.cpp:116-142 | one turn of the loop keeps the relation between stack, array and recursive specification, and decreases the measure |
| WaySimplification.Compact | osmpbfreader.cpp:144-150 | the remaining nodes move to the front in order |
| WaySimplification.ApplyRamerDouglasPeucker | osmpbfreader.cpp:111-151 | the loop with its explicit stack ends and computes the recursive specification |
| WaySimplification.EndsRemain | osmpbfreader.cpp:111-151 | the output has at least two nodes and begins and ends with those of the way |
| WaySimplification.IndicesOfKept | osmpbfreader.cpp:144-150 | the output is the subsequence of the kept nodes |
| WaySimplification.NeededKept | osmpbfreader.cpp:137-141 | a node with a nonzero counter is kept |
| WaySimplification.RemovedWasClose | osmpbfreader.cpp:132-141 | a removed node was within 400 of the segment between two kept nodes around it, and had counter zero |
| WaySimplification.CorridorOfWay | osmpbfreader.cpp:76-151 | each removed node lies in the exact corridor around a segment between two nodes of the output |
| InnerCorridor.KeptWasFarOrNeeded | osmpbfreader.cpp:111-151 | an inner node that is kept although its counter is zero lies outside the inner corridor of a segment between two nodes kept on both sides of it |
| InnerCorridor.StraightStretch | osmpbfreader.cpp:119-142 | of a stretch whose nodes lie in the inner corridor of its ends exactly the nodes with nonzero counters survive |
| InnerCorridor.StraightWay | osmpbfreader.cpp:111-151 | of a way whose nodes lie in the inner corridor of its ends exactly the ends and the nodes with nonzero counters are kept |
| WayStore.CounterIsUseCount | osmpbfreader.cpp:173-176 | over any run a counter is the number of uses of its node modulo 65536 |
| WayStore.UsedIff | osmpbfreader.cpp:173-176 | a node counts as used exactly when an earlier event named it or kept it in a stored way |
| WayStore.UsedByEvent | osmpbfreader.cpp:153-177 | an event uses a node if and only if it names it, or stores a way in which the node is afterwards |
| WayStore.UsesOfEvent | osmpbfreader.cpp:170-176 | naming counts one use, storing as many as the node occurs in what was stored, and a way of fewer than two nodes none |
| WayStore.OthersStay | osmpbfreader.cpp:153-177 | no event changes a position or another way, and only storing adds a way |
| WayStore.KeptIff | osmpbfreader.cpp:132-141 | at any moment of a run an inner node is kept if and only if it is a split point or its uses are not a multiple of 65536 |
| WayStore.JunctionsStick | osmpbfreader.cpp:153-177 | a node named, or kept in a stored way, is kept in every later stored way through it, as long as its counter has not overflowed |
| WayStore.CountersGrow | osmpbfreader.cpp:173-176 | without overflow counters never decrease |
| WayStore.StoredWayHasEnds | osmpbfreader.cpp:166-170 | a way of two or more nodes is stored with its first and last node, so the branch for fewer than two nodes is never taken |
| WayStore.OverflowForgets | osmpbfreader.cpp:137-141 | naming a node once more can make its counter zero, and the node is dropped from a straight way that kept it before |
| WayStore.OverflowReached | osmpbfreader.cpp:137-176 | a run from fresh counters reaches this: after 65535 stored ways that end in a node a straight way through it keeps it, after one more it does not |
| WayStore.KeptAfterPairs | osmpbfreader.cpp:137-176 | at every moment of such a run the node is kept if and only if the number of ways stored is not a multiple of 65536 |
| WayStore.WaySimplifier.NameNode | osmpbfreader.cpp:232-235 | naming a node counts one use |
| WayStore.WaySimplifier.SimplifyWay | osmpbfreader.cpp:153-177 | simplifying, counting and storing a way is one step of the run |
| SimplificationQueue.AlwaysInvariant | osmpbfreader.cpp:181-208 | in every interleaving: handled, held, queued and remaining ways are all ways in order, and the counter is the unbounded tally modulo 2 to the power of 64 |
| SimplificationQueue.FirstInFirstOut | osmpbfreader.cpp:181-208 | in every interleaving the simplified ways are a prefix of the pushed ones |
| SimplificationQueue.JoinCompletes | osmpbfreader.cpp:930-932 | when the join completes each way has been simplified exactly once in order, the queue is empty and the counter zero |
| SimplificationQueue.CounterWhenRead | osmpbfreader.cpp:770-777 | whenever the reading thread looks at the counter it has not wrapped and is the queue length or one more |
| SimplificationQueue.CounterWraps | osmpbfreader.cpp:70-74 | the counter has wrapped exactly while a way is pushed, popped and its pop counted before its push |
| SimplificationQueue.CounterCanWrap | osmpbfreader.cpp:188-190 | four turns after which it has |
| SimplificationQueue.MaximumCanFall | osmpbfreader.cpp:773 | the recorded maximum may become smaller, as the counter is read again after the comparison: sixteen turns after which it is zero although it was one |
| SimplificationQueue.ProducerEnds | osmpbfreader.cpp:765-777 | the reading thread is never blocked: it ends after a bounded number of its turns |
| SimplificationQueue.ConsumerEnds | osmpbfreader.cpp:196-201 | once the end is told the other thread ends after a bounded number of its turns |
| SimplificationQueue.EveryFairScheduleJoins | osmpbfreader.cpp:181-208 | however turns are interleaved, enough turns of each thread complete the join with all ways simplified in order |
| Ids.DigitsInjective | idtree_impl.h:258-271 | different 64-bit ids have different sequences of sixteen digits, hence different leaves |
| Ids.MasksCover | idtree_impl.h:191-201 | mask number s - 1 of the table consists of the bits of the first s digits |
| Ids.MaskedDigitsZero | idtree_impl.h:191-204 | if the mask of s digits meets only zeros, the first s digits are zero |
| Ids.ZeroDigitsMasked | idtree_impl.h:191-204 | and if the first s digits are zero, the mask meets only zeros |
| Ids.IdIsItsDigits | idtree_impl.h:258-271 | the sixteen digits taken with mask and shift, read as a number in base 16, are the id |
| Ids.FirstDigits | idtree_impl.h:258-271 | the first k of them are the id divided by 16 to the power of 16 - k |
| Ids.DigitIsBase16 | idtree_impl.h:258-271 | digit k from the left is the base-16 digit of the id at place 15 - k |
| Ids.TakeDigit | idtree_impl.h:258-271 | one turn of the loop gives this digit of the id and leaves the working id for the next turn |
| Ids.ShiftedOnce | idtree_impl.h:202-213 | shifting once by s digits leaves the working id that s turns leave |
| IdTrees.IdTree.constructor | idtree_impl.h:319-331 | an empty tree with its recorded path satisfies the invariant |
| IdTrees.IdTree.BuildZeroPath | idtree_impl.h:218-236 | entry k of the recorded path is reached from the root by child 0 k times |
| IdTrees.IdTree.Insert | idtree_impl.h:355-403 | the tree as a map gains the id, with counter zero; all other ids, counters and cache lines stay right; the recorded size is the number of ids |
| IdTrees.IdTree.SkipAheadOnZeroPath | idtree_impl.h:190-215 | the start found with the masks, and the recorded nodes, are those of the plain descent |
| IdTrees.IdTree.FindNodeForId | idtree_impl.h:241-298 | the shortcut gives the same node and the same path as sixteen steps from the root, or none where there is no leaf |
| IdTrees.IdTree.LeafOf | idtree_impl.h:241-298 | an id has a leaf exactly when it was inserted, so the comparison of ids never fails |
| IdTrees.IdTree.Retrieve | idtree_impl.h:406-428 | the stored value or nothing, from the cache or from the tree, and used cache lines stay right |
| IdTrees.IdTree.Counter | idtree_impl.h:472-478 | the number of increases of this id modulo 65536 |
| IdTrees.IdTree.IncreaseCounter | idtree_impl.h:481-488 | only the counter of the id changes, by one modulo 65536 |
| IdTrees.IdTree.ComputeSize | idtree_impl.h:300-313 | the leaves at depth sixteen below a node are as many as inserted ids that lead through it |
| IdTrees.IdTree.Size | idtree_impl.h:464-469 | the recorded size, or, where that is zero, the number of inserted ids |
| Payloads.WayRoundTrip | idtree.h:66-102 | a way is read back from its bytes and nothing else is consumed |
| Payloads.RelationRoundTrip | idtree.h:157-209 | a relation with its flags is read back and nothing else is consumed |
| Payloads.TextRoundTrip | idtree.h:233-272 | a string is read back and nothing else is consumed |
| Payloads.PositionRoundTrip | idtree.h:322-351 | a position with negative or positive 32-bit coordinates is read back and nothing else is consumed |
| FileBytes.ByteIs | idtree.h:66-102 | byte i of a number is its digit in base 256 at place i |
| FileBytes.EncodedHolds | idtree.h:66-102 | a number lies in a file lowest byte first |
| FileBytes.WayBytes | idtree.h:90-102 | the bytes of a way: four for the count, from byte 4 on eight for each node |
| FileBytes.RelationBytes | idtree.h:191-209 | the bytes of a relation: four for the count, sixteen for id, type and real-world type of each member, and behind all members two for the flags of each |
| FileBytes.TextBytes | idtree.h:260-272 | the bytes of a name: eight for the length, and the characters |
| FileBytes.PositionBytes | idtree.h:343-351 | the bytes of a position: four for x and four for y, each modulo two to the power of 32 |
| IdTreeFormat.RoundTrip | idtree_impl.h:35-107 | reading what was written for any node gives the node and leaves exactly what followed, unless a childless node holds a payload that cannot be assigned: then the program stops |
| IdTreeFormat.SelfDelimiting | idtree_impl.h:35-107 | equal bytes, each with something following, come from equal trees with equal followers |
| IdTreeFormat.TreeRoundTrip | idtree_impl.h:334-345 | a tree with its size is read back exactly when the size is the number of leaves and all payloads can be assigned |
| IdTreeFormat.ReadNode | idtree_impl.h:35-66 | the constructor that reads a node computes the reading function, including where it stops |
| IdTreeFormat.ReadSlots | idtree_impl.h:54-63 | the slots are read from the last to the first |
| FileLayout.LeafBytes | idtree_impl.h:78-90 | the bytes of a node without children: eight for the id, N, two for the counter, the data |
| FileLayout.TwoChildrenBytes | idtree_impl.h:91-107 | the bytes of a node with two children: the id, C, and for each slot from the last to the first 0, or 1 and the child |
| FileLayout.TreeBytes | idtree_impl.h:491-497 | the bytes of a tree: eight for the number of leaves, and the root |
| FileErrors.UnknownNodeMark | idtree_impl.h:43-66 | any other mark of a node or a slot stops the program |
| IdTreeFiles.WriteNode | idtree_impl.h:78-107 | the nodes in memory are written as the bytes of the value they represent |
| IdTreeFiles.Save | idtree_impl.h:491-496 | a reachable tree is written as its number of ids and its nodes |
| IdTreeFiles.ImageSize | idtree_impl.h:300-313 | the leaves counted after reading are as many as the inserted ids, so the size check passes |
| IdTreeFiles.EndHasChild | idtree_impl.h:218-236 | the last node of the recorded path has a child exactly when an id below 2 to the power of 36 was inserted |
| IdTreeFiles.RootAssignable | idtree_impl.h:35-66 | no payload of a reachable tree stops the reading exactly when all data can be assigned, and blank data can too unless such a small id was inserted |
| IdTreeFiles.SavedTreeLoads | idtree_impl.h:334-345 | for every reachable tree: what is read from its file is a value of the same size in which exactly the inserted ids are found, with data and counters, or the program stops, exactly when not all can be assigned |
| IdTreeFiles.ImageLookup | idtree_impl.h:241-298 | descending in what was read finds exactly the inserted ids |
| IdTreeFiles.WaysLoadable | idtree.h:47-64 | files of ways and of relations can be read again if and only if an id below 2 to the power of 36 was inserted |
| IdTreeFiles.SavedWaysLoad | idtree_impl.h:334-345 | the file of every reachable tree over ways is read back if some id below 2 to the power of 36 was inserted, and stops the program otherwise |
| IdTreeFiles.SavedRelationsLoad | idtree_impl.h:334-345 | the same for the tree over relations |
| IdTreeFiles.SavedPositionsLoad | idtree_impl.h:334-345 | the file of every reachable tree over positions is read back |
| IdTreeFiles.SavedNamesLoad | idtree_impl.h:334-345 | so is that of every reachable tree over names |
| IdTreeLoading.MakeNode | idtree_impl.h:35-66 | the nodes made for what was read show it, each at its place |
| IdTreeLoading.RecordPath | idtree_impl.h:341-344 | recording the path of leading zeros of a loaded tree completes its invariant |
| IdTreeLoading.Load | idtree_impl.h:334-345 | loading the file of a reachable tree stops the program or gives a tree in memory with the whole invariant and the same ids, data and counters; exactly what follows the tree is left |
| SwedishText.ToCodeWord | swedishtexttree.cpp:263-285 | the loop computes the code word: lead bytes are skipped, and a control character ends it |
| SwedishText.WordRoundTrip | swedishtexttree.cpp:263-322 | over the supported letters, digits, accented letters, hyphen and space the code word can be decoded, and the code for unknown characters does not occur |
| SwedishText.EncodingInjective | swedishtexttree.cpp:263-322 | different words over the supported alphabet have different code words |
| SwedishText.CodeOfSymbol | swedishtexttree.cpp:287-322 | letters, digits and accented letters have the codes from 1 to 42, the hyphen 45 and the space 46 |
| SwedishText.OtherBytesUnknown | swedishtexttree.cpp:287-322 | a byte has the code 47 if and only if it belongs to no supported character |
| SwedishText.CodesAt | swedishtexttree.cpp:263-285 | wherever a text is taken apart, each byte has the code that it has after the byte before, lead bytes have none, and a control character ends the codes |
| SwedishText.RunsAre | swedishtexttree.cpp:146-162 | the inserted texts are exactly the contiguous runs of all words, one less and two less |
| SwedishText.LongestRunsFirst | swedishtexttree.cpp:146 | the runs of all words come first, then those of one word less, then those of two words less |
| SwedishText.RunsFromLeftToRight | swedishtexttree.cpp:147-158 | those of one length come from left to right, one for each place |
| SwedishText.JoinedSplit | swedishtexttree.cpp:148-158 | between any two parts of a run there is a single space |
| SwedishText.RunNoLonger | swedishtexttree.cpp:144-158 | no run is longer than the whole name, so a name that fits the buffer fits in all runs |
| SwedishText.FillBuffer | swedishtexttree.cpp:144-158 | copying word by word with padding leaves a terminated text that is the joined run, whatever was in the buffer, for names of at most 1021 bytes |
| TextTrees.PlaceInjective | swedishtexttree.cpp:173-193 | different code words lead to different nodes |
| TextTrees.SwedishTextTree.InternalInsert | swedishtexttree.cpp:168-200 | an element is appended under the code word of a text, unless the text has no code at all |
| TextTrees.SwedishTextTree.Insert | swedishtexttree.cpp:136-166 | an element is stored under the long runs of its name, longest first and from left to right, up to the first run without codes, and the result tells whether there was none |
| TextTrees.SwedishTextTree.Retrieve | swedishtexttree.cpp:202-241 | exactly the elements stored under the code word of the text, in order |
| TextTrees.BucketInOrder | swedishtexttree.cpp:168-241 | the elements stored at a place are those of exactly the entries for this place, in the order of insertion |
| TextTrees.BucketsAreFound | swedishtexttree.cpp:136-241 | after any sequence of names, what is found for a text is, name by name, the element once per long run with the same code word, of the runs before the first that has no code |
| TextTrees.FoundAreMatches | swedishtexttree.cpp:136-241 | these are all the matching runs, for every text, if and only if every long run of every name has a code |
| TextTrees.UncodableName | swedishtexttree.cpp:136-171 | a name that begins with a control character: nothing is stored for it, though one of its words has a code |
| TextTrees.CodedTextsFoundIff | swedishtexttree.cpp:136-241 | for all texts that have a code they are the matching runs if and only if in no name a run with a code comes after a run without one |
| TextTrees.FoundWhenStored | swedishtexttree.cpp:136-241 | an element is found if and only if one of its names has a long run with the same code word, and no run before it is without a code |
| TextTrees.SwedishTextTree.ComputeSize | swedishtexttree.cpp:243-254 | the elements below a node are as many as were stored at or below its place |
| TextTrees.SwedishTextTree.Size | swedishtexttree.cpp:256-261 | the recorded size, or, where that is zero, the number of stored elements |
| TextTreeFormat.RoundTrip | swedishtexttree.cpp:32-114 | reading what was written for any node gives the node and leaves exactly what followed |
| TextTreeFormat.SelfDelimiting | swedishtexttree.cpp:32-114 | equal bytes, each with something following, come from equal trees with equal followers |
| TextTreeFormat.ReadNode | swedishtexttree.cpp:32-69 | the constructor that reads a node computes the reading function |
| Payloads.ListRoundTrip | swedishtexttree.cpp:55-69 | the elements of a node, or the mark that there are none, are read back |
| FileBytes.ElementsBytes | swedishtexttree.cpp:101-114 | the bytes of the elements: n for none, or i, eight for their number, and sixteen for each |
| FileLayout.TextLeafBytes | swedishtexttree.cpp:81-84 | the bytes of a node without children: N and the elements |
| FileLayout.TextChildrenBytes | swedishtexttree.cpp:85-99 | the bytes of a node with two children: C, for each of 48 slots from the first to the last 0, or 1 and the child, and the elements |
| FileErrors.UnknownTextMark | swedishtexttree.cpp:35-69 | any other mark of a node, a slot or a list stops the program |
| TextTreeFiles.WriteNode | swedishtexttree.cpp:79-114 | the nodes in memory are written as the bytes of the value they represent |
| TextTreeFiles.SavedTreeLoads | swedishtexttree.cpp:122-134 | for every reachable tree, what is read from its file finds for every text the same elements |
| TextTreeLoading.MakeNode | swedishtexttree.cpp:32-69 | the nodes made in memory represent the value read, at every place |
| TextTreeLoading.Load | swedishtexttree.cpp:32-130 | a tree saved to its file comes back in memory with the whole invariant, the same elements at the same places in the same order, and what follows in the file is left |
| TextTreeFiles.SavedElementsLoad | swedishtexttree.cpp:122-134 | so it does for the tree of the program, over names and elements |
| SparseFormat.SparseRoundTrip | sweden.cpp:777-910 | rows of optional entries are read back at their own places; the terminator is never taken for an index; the program stops exactly when an entry is not accepted |
| SparseFormat.WriteSparse | sweden.cpp:883-910 | the loop writes index and entry of what is there, and the terminator |
| SparseFormat.ReadSparse | sweden.cpp:777-822 | the loop reads up to the terminator, with the range check of every index |
| FileLayout.TwoEntriesBytes | sweden.cpp:885-910 | the bytes of a table of two entries: eight for each index, the entry, and the terminator 0xcafebabe in eight |
| FileErrors.IndexBeyondRows | sweden.cpp:766-817 | an index beyond the rows that is not the terminator stops the program |
| FileErrors.TerminatorEnds | sweden.cpp:769-820 | the terminator ends the rows, whatever they are |
| SparseFormat.EntryRoundTrip | sweden.cpp:769-820 | an entry read later at the same index replaces the earlier one |
| SwedenFormat.AreasRoundTrip | sweden.cpp:710-737 | the ordered map from area codes to relations is read back |
| SwedenFormat.WithAreaIs | sweden.cpp:715-722 | inserting keeps the map in order and what is in it, and adds the area unless its code was there |
| SwedenFormat.SlotsDiffer | sweden.cpp:276-290 | the fourteen known European roads have different slots |
| SwedenFormat.KnownSlots | sweden.cpp:276-290 | their slots are 4, 6, 10, 12, 14, 16, 18, 20, 22, 5, 7, 15, 25 and 1 |
| SwedenFormat.SharedSlots | sweden.cpp:276-290 | a number has the slot of a known road of another number exactly for fifteen numbers, such as 44 with E4, and larger numbers without a slot share slot 0 |
| SwedenFormat.EuropeanRoundTrip | sweden.cpp:739-753 | the slots of the known European roads are read back, the others are empty |
| SwedenFormat.NationalRoundTrip | sweden.cpp:755-775 | the table of national roads is read back exactly when it is not empty and no count is too large; otherwise the program stops |
| SwedenFormat.RegionalChecked | sweden.cpp:777-822 | the nested table of counties, of upper and of lower parts of road numbers is read back with every list, empty or absent |
| SwedenFormat.RegionsRoundTrip | sweden.cpp:136-177 | administrative regions are read back in order, names up to their first zero |
| FileErrors.NameInFile | sweden.cpp:143-152 | a name in the file ends at its first zero, and one longer than 8191 bytes is not accepted |
| FileBytes.RegionBytes | sweden.cpp:166-174 | the bytes of a region: eight for the relation, four for the level, eight for the length of the name, and the name up to its first zero |
| FileBytes.AreasBytes | sweden.cpp:839-857 | the bytes of areas: eight for the count, and four for the code and eight for the relation of each |
| FileBytes.IdsBytes | sweden.cpp:861-866 | the bytes of the ways of a road: eight for the count and eight for each way |
| FileErrors.ListsReadBack | sweden.cpp:744-746 | a list of ways is read back if and only if it has at most 4194303 ways |
| FileErrors.TooManyWays | sweden.cpp:744-746 | any larger count stops the program |
| SwedenFormat.TruncatedIsSame | sweden.cpp:149-173 | a name comes back whole if and only if it holds no zero |
| SwedenFormat.WriteNational | sweden.cpp:869-881 | the loop writes the roads that have ways, and the terminator |
| FileLayout.TwoRoadsBytes | sweden.cpp:869-881 | the bytes of two national roads: two for each number, the ways, and the terminator 0xfefe in two |
| FileErrors.FirstNationalNumber | sweden.cpp:756-774 | a first number beyond the table, the terminator included, stops the program; a later terminator ends the roads |
| SwedenFormat.RoadRoundTrip | sweden.cpp:761-774 | the ways of a road that are read come behind those it has already |
| SwedenFormat.ReadNational | sweden.cpp:755-775 | the loop reads up to the terminator, and checks the range of the first number before anything else |
| SwedenFormat.WriteEuropean | sweden.cpp:858-867 | the loop writes the slots of the known roads in the order of the list |
| FileLayout.EuropeanBytes | sweden.cpp:858-867 | European roads lie in the file by increasing number, each from its own slot |
| SwedenFormat.ReadEuropean | sweden.cpp:739-753 | the loop appends what it reads to the slots of the known roads |
| SwedenFile.RoundTrip | sweden.cpp:707-920 | the whole file is read back with nothing more consumed exactly when some national road has ways and no list is too long; otherwise the program stops |
| SwedenFile.RestoredExactly | sweden.cpp:707-920 | all tables come back unchanged if and only if only known European roads have ways and no name holds a zero |
| SwedenFile.Write | sweden.cpp:839-920 | the sections are written one after another |
| FileLayout.SectionsInOrder | sweden.cpp:839-920 | the sections with their markers S, n, E, R, L, A and _ in this order |
| FileErrors.UnknownSectionMark | sweden.cpp:707-724 | at another marker than S the areas stay empty, and reading goes on behind the one byte |
| SwedenFile.Load | sweden.cpp:707-832 | the sections are read one after another; a wrong marker passes over a section, but not over the administrative regions |
| RoadTables.CountiesDiffer | sweden.cpp:956-983 | different known county codes have different road types |
| RoadTables.CountyLetters | sweden.cpp:956-983 | each of the 21 county codes has the road type of its letters, from AB for 1 to BD for 25, and other codes have the unknown one |
| RoadTables.MunicipalityInCounty | sweden.cpp:957 | the code of a municipality has the road type of its county |
| RoadTables.Roads.InsertWayAsRoad | sweden.cpp:1476-1525 | a way is appended to exactly the list of its road, or to none where way, number or type is not accepted |
| RoadTables.FixingConserves | sweden.cpp:1785-1844 | for each road number every way is listed as often over all counties as before |
| RoadTables.FixingPlaces | sweden.cpp:1793-1819 | each way with a county lies in the list of that county, and exactly those that cannot be placed stay behind |
| RoadTables.WayFollowsMiddleNode | sweden.cpp:1793-1819 | a way leaves if and only if its middle node, the later one of two, lies in a county, and then it is in the list of that county for the same road number |
| RoadTables.WayWithoutNodesStays | sweden.cpp:1794-1819 | a way without nodes, or not in the database, stays |
| RoadTables.FixingKeepsOrder | sweden.cpp:1793-1819 | the ways that a county had come first, then the moved ones in their order; the others stay in their order |
| RoadTables.NoEmptyListMade | sweden.cpp:1798-1825 | a list that becomes empty is dropped, and no list is made that nothing is put in |
| RoadTables.Roads.FixWay | sweden.cpp:1793-1819 | one turn of the loop moves a way to its county or leaves it |
| RoadTables.Roads.FixCell | sweden.cpp:1791-1825 | one list is taken apart in place, order is kept in all lists, and an emptied list is dropped |
| RoadTables.Roads.FixUnlabeledRegionalRoads | sweden.cpp:1785-1844 | every list of the table becomes what the moved ways require, all ways are conserved, and of the part for unknown counties nothing empty remains |
| ResultPruning.GridDistanceSymmetric | idtree.h:391-396 | the squared distance in rounded meters is the same in both directions |
| ResultPruning.SquaresOfMeters | idtree.h:391-396 | it is the sum of two squares, of meters that are at most half a meter from the difference along each axis |
| ResultPruning.CloseIsNear | resultgenerator.cpp:343-347 | results are close if their exact distance is less than the proximity by 0.8 meters or more, and not close if it is greater by as much |
| ResultPruning.FarAlongAxis | resultgenerator.cpp:343-347 | results that differ by the proximity along one axis are not close |
| ResultPruning.SameIff | resultgenerator.cpp:29-31 | results count as equal if and only if they differ at most in which elements they have, not in how many |
| ResultPruning.SurvivorsFarApart | resultgenerator.cpp:332-354 | for any order of the list, any two results left are at least the proximity apart |
| ResultPruning.SurvivorsWereListed | resultgenerator.cpp:332-354 | the results left are among those listed |
| ResultPruning.EveryResultLeadsToSurvivor | resultgenerator.cpp:336-352 | every result leads, over close results of no lower quality, to one that is left, so the best quality is left |
| ResultPruning.OrderDecidesForSome | resultgenerator.cpp:335-352 | there are three such results in a row |
| ResultPruning.OrderDecides | resultgenerator.cpp:335-352 | of three results in a row one or two are left depending on the order, and a dropped one may be far from all that are left |
| ResultPruning.Collect | resultgenerator.cpp:335 | one of several equal results is kept, in any order |
| ResultPruning.RemoveClose | resultgenerator.cpp:336-352 | the nested loops compute the pruning of the list |
| ResultPruning.SortByQuality | resultgenerator.cpp:355-358 | the same results, best first |
| ResultPruning.Clean | resultgenerator.cpp:332-358 | no new results, none two closer than the proximity, for each input one at least as good, best first; without a proximity only sorted |
| ElementCenter.SamplesInRange | helper.cpp:57-82 | every sampled index lies in the way |
| ElementCenter.SamplesSpread | helper.cpp:65-81 | of a way of more than twelve nodes nine different nodes are sampled, at most an eighth of the way and one node apart |
| CenterSamples.SamplesAre | helper.cpp:57-82 | for every length the samples are the ends and, from 4, 7 and 13 nodes on, the middle, the quarters and the eighths: one, two, three, five or nine increasing places |
| CenterSamples.CollectedOfNode | helper.cpp:53-54 | of a node itself is collected, and of an element of unknown type nothing |
| CenterSamples.CollectedOfWay | helper.cpp:55-82 | of a way the nodes at the samples are collected, and of an unknown way nothing |
| CenterSamples.CollectedOfRelation | helper.cpp:83-90 | of a relation exactly that is collected which is collected of one of its members |
| CenterSamples.CenterOfNode | helper.cpp:46-113 | the center of a node is its own position, negative or not, if it has one |
| ElementCenter.RunsEmptyIff | helper.cpp:52-92 | the queue runs empty if and only if the element does not unfold to a relation that contains itself |
| ElementCenter.OneElement | helper.cpp:53-90 | each turn of the loop leaves one element less to do and the same nodes to collect |
| ElementCenter.CollectNodes | helper.cpp:49-92 | the loop ends, and collects the nodes of the unfolding |
| ElementCenter.CollectedIff | helper.cpp:49-92 | a node is collected if and only if it is a sample of an element that is met |
| ElementCenter.SumWithout | helper.cpp:96-105 | the sum over a set does not depend on the order |
| ElementCenter.CenterOf | helper.cpp:46-113 | the mean of the collected nodes that have a position, if there are any |
| ElementCenter.MeanWithin | helper.cpp:107-110 | for positions that are not negative the unsigned division is the exact mean rounded down, between the bounds |
| ElementCenter.CenterInBox | helper.cpp:94-112 | the center lies in the bounding box of the positions it is taken from |
| ElementCenter.MeanExactIff | helper.cpp:107-110 | the mean computed with the unsigned division is the exact mean rounded down if and only if the sum is not negative or the count divides two to the power of 64 |
| ElementCenter.NegativeMean | helper.cpp:107-110 | the mean of three times -1 is a large positive number |

## Left out

- Machine integers: coordinates, sums and distances are unbounded; `RegionTest.NoOverflow` and `SegmentDistance.NoOverflow` give extents within which no intermediate value leaves 32 bits. Use counters, the queue's size counter, file fields and the division in `ElementCenter` wrap around as in the program.
- Floating point: the position of the foot point and the quality of results are real numbers.
- `RingAssembly.AddWayToPolygon` expects a way with nodes, as no other can be stored.
- `Regions.RegionIndex.BuildPolygonForRelation` expects of every boundary way at least one node with a position; without any, the program looks at the front of an empty list.
- `Regions.RegionIndex.NodeInsideRelationRegion` models the region test for a coordinate; looking up a node's coordinate first is left out, and an exception for a missing region is the outcome None.
- The maps that the region, simplification and center models consult stand for trees over ids, of which `IdTree.dfy` shows that they behave like maps.
- `WaySimplification.ApplyRamerDouglasPeucker` takes the distance as a parameter of the node table; the corridor is proved for the program's own distance.
- `SimplificationQueue.JoinCompletes` treats each queue operation, each counter operation and the simplification of a way as one atomic step; memory ordering and a failing allocation are left out.
- `IdTrees.IdTree.Insert` has the children of a node as a sequence in the node instead of a C array, and counts neither cache hits nor misses; `remove` is left out, as nothing calls it.
- `IdTreeFormat.ReadNode` treats running past the end of the input as a fatal outcome; the program goes on with stale bytes there.
- `IdTreeFormat.RoundTrip` and `TextTreeFormat.RoundTrip` read into values, of which `IdTreeLoading.Load` and `TextTreeLoading.Load` make nodes once all was read; the program makes each node while it is read.
- `MergeLoss.LosslessKeepsEdges` goes one way only, since one search may gain the very edge that another loses (`CancelledLosses.KeptThoughNotLossless`); for each single search `MergeLoss.SearchKeepsEdgesIff` is exact.
- `TextTrees.SwedishTextTree.Insert` takes the words that the tokenizer gives, without zeros and at most 1021 bytes with their spaces; a longer name leaves the buffer without terminator.
- `TextTrees.SwedishTextTree.Size` reports only new elements if a tree was read from a file and inserted into before its size was asked for; that is stated, not repaired.
- `SwedenFormat.RegionsRoundTrip` takes the administrative regions in the order in which sorting left them; normalizing, sorting and looking up their names are left out.
- `SwedenFormat.ReadNational` treats an index beyond the fixed table as fatal, and `SwedenFormat.RegionsRoundTrip` a name beyond the fixed buffer, where the program would write past the end.
- `RoadTables.Roads.InsertWayAsRoad` takes the list of unwanted ways as a parameter; recognising road numbers in text, and European numbers from 30 to 39, for which the table has no slot, are left out.
- `RoadTables.Roads.FixUnlabeledRegionalRoads` takes the county around a node as a parameter, and expects every county code to be a known one; with an unknown one the program would append to the list it is going through.
- `ResultPruning.Collect` models a hash table as a list in any order; which of several equal results stays is left open.
- `ResultPruning.SortByQuality` is one of the sorts the library may use.
- `ElementCenter.CenterOf` expects an element that is not circular, as the program does not end otherwise; multiplying a node count by seven is not bounded.
- Tokenizing, folding of characters, quality heuristics, tile and latitude formulas, protobuf and stream handling, the HTTP server, drawing, logging, timers and memory management are not part of this model.
