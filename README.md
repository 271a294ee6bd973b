# Benzenoids on the hexagonal lattice, modelled in Dafny

This project models the core of WebOfBenzenoids:

- **The incidence structure of a benzenoid** (`nino/benzenoids.py`).
  - Hexagons (faces), edges and vertices are named by integer labels. A face is `(xi, eta)`, and an edge or vertex is `(xi, eta, nu)`.
  - Canonical labels fold the six local indices of a hexagon onto one representative.
  - Adding a hexagon creates its vertices and edges, or reuses existing ones. It then refreshes every neighbour list that the new face can change.
- **The boundary tracer on top of that structure.**
  - The bottom-left hexagon.
  - The perimeter: a search over adjacent boundary edges, starting at edge 4 of the bottom-left hexagon.
  - Its vertex cycle.
  - The holes: the remaining components of boundary edges.
  - Connectivity, simple connectivity, the empty face slots and convexity.
  - The boundary-edges code: the largest rotation or reversal of the run code of perimeter degrees.
- **The decoder of boundary-edges codes** (`lib/importer.py`). It is a walk on lattice vertices that records row crossings, followed by sorting and pairing the crossings of every row.
- **The breadth-first and depth-first searches** (`lib/algorithms.py`) that the tracer uses.

Files and modules:

| File | Module | Contents |
|---|---|---|
| `wrappers.dfy` | `Wrappers` | Option and Result |
| `labels.dfy` | `Labels` | Labels, canonical labels, the neighbour tables of the `update_*_list` methods, and their incidence lemmas |
| `incidence.dfy` | `Incidence` | See below |
| `traversal.dfy` | `Traversal` | BFS and DFS over a graph given as `map<T, seq<T>>`; paths, reachability, closure |
| `boundary.dfy` | `Boundary` | Bottom-left hexagon, perimeter, holes, vertex cycles, face graph, empty slots |
| `bec.dfy` | `Bec` | The boundary-edges code from a string of perimeter degrees |
| `benzenoid.dfy` | `Benzenoids` | The class `Benzenoid` |
| `importer.dfy` | `Importer` | `bec_to_hex_list` |

`incidence.dfy` holds:
- the lists that `update_*_list` recomputes from the current key sets;
- the arena invariant, under which every stored list equals its recomputation;
- the frame lemmas of the refresh cascade.

The class `Benzenoid` keeps three label-indexed maps of records, a memo datatype with one optional slot per memoised property, and methods that update them in place.

Objects that point to each other become labels. A record `Lists(vertices, edges, faces)` holds the labels of an entity's neighbours, in the order its `update_*_list` method would list them.

## Model

| member | source | states |
|---|---|---|
| Labels.CanonicalEdgeLabel | nino/benzenoids.py:151-164 | Succeeds exactly when nu is in 0..5; otherwise it is an error, for the ValueError. The result has nu in 0..2. A label that is already canonical is returned unchanged. |
| Labels.CanonicalVertexLabel | nino/benzenoids.py:289-302 | Succeeds exactly when nu is in 0..5; otherwise it is an error. The result has nu in 0..1. A canonical label is returned unchanged. |
| Labels.CanonicalLabelsIdempotent | nino/benzenoids.py:151-164 | Canonicalising an edge or vertex label twice gives the same result as once. |
| Labels.FaceVertex | nino/benzenoids.py:35-36 | The vertex at local index nu of a face is a canonical vertex label. |
| Labels.FaceEdge | nino/benzenoids.py:45-46 | The edge at local index nu of a face is a canonical edge label. |
| Labels.FaceNeighbours | nino/benzenoids.py:85-86 | A face has six neighbour candidates, none of them itself. |
| Labels.EdgeVertices | nino/benzenoids.py:184-190 | An edge has two distinct endpoints. |
| Labels.EdgeNeighbours | nino/benzenoids.py:198-204 | An edge has four adjacent-edge candidates, none of them itself. |
| Labels.EdgeFaces | nino/benzenoids.py:222-232 | An edge has two distinct incident-face candidates. |
| Labels.VertexNeighbours | nino/benzenoids.py:324-330 | A vertex has three neighbour candidates, none of them itself. |
| Labels.VertexEdges | nino/benzenoids.py:338-342 | A vertex has three incident-edge candidates. |
| Labels.VertexFaces | nino/benzenoids.py:350-354 | A vertex has three incident-face candidates. |
| Labels.FaceEdgeEndpoints | nino/benzenoids.py:33-51 | The edge at local index nu of a face joins the face's vertices at (nu+5) mod 6 and nu. Both endpoints are among the face's vertices. |
| Labels.FaceLabelsDistinct | nino/benzenoids.py:33-51 | The six vertices of a face are distinct, and so are its six edges. |
| Labels.EdgeFacesIffFaceEdge | nino/benzenoids.py:208-220 | A face is an incident-face candidate of an edge iff the edge is one of the face's six edges. |
| Labels.VertexFacesIffFaceVertex | nino/benzenoids.py:346-356 | A face is an incident-face candidate of a vertex iff the vertex is one of the face's six vertices. |
| Labels.VertexEdgesIffEndpoint | nino/benzenoids.py:334-344 | An edge is an incident-edge candidate of a vertex iff the vertex is one of its endpoints. |
| Labels.VertexNeighbourAcrossEdge | nino/benzenoids.py:318-332 | In the paired tables of update_vertex_list, the i-th neighbour is the other endpoint of the i-th incident edge, so the two tables agree. |
| Labels.EdgeNeighboursSymmetric | nino/benzenoids.py:194-206 | Edge adjacency is symmetric. |
| Labels.EdgeNeighboursShareEndpoint | nino/benzenoids.py:194-206 | The adjacent-edge candidates are exactly the other edges that share an endpoint with the edge. |
| Labels.EdgeFacesAdjacent | nino/benzenoids.py:212-218 | The two faces on either side of an edge are neighbour faces. |
| Labels.FaceVertexEdgeIndices | nino/benzenoids.py:338-342 | Vertex nu of a face meets the face's edges nu and nu+1 among its three incident edges. |
| Labels.FaceNeighboursSymmetric | nino/benzenoids.py:81-88 | Face adjacency is symmetric. |
| Incidence.Present | nino/benzenoids.py:87-88 | The lookup filter keeps exactly the candidates that are present. It never lengthens the list, and keeps every candidate when all are present. |
| Incidence.PresentPairs | nino/benzenoids.py:331-332 | A vertex neighbour is kept exactly when it and its connecting edge are both present: every kept neighbour is present and sits at a position whose edge is present, and every such neighbour is kept. |
| Incidence.PresentPairsCount | nino/benzenoids.py:331-332 | When every present edge brings its neighbour, the paired filter keeps exactly as many neighbours as there are present edges. |
| Incidence.DegreeIsPresentEdges | nino/benzenoids.py:318-333 | In a valid arena a vertex has as many stored neighbours as stored edges, namely its present incident edges. |
| Incidence.VertexKeysCanonical | nino/benzenoids.py:35-38 | Every vertex key is a canonical vertex label, so there is one entity per label. |
| Incidence.EdgeKeysCanonical | nino/benzenoids.py:45-48 | Every edge key is a canonical edge label. |
| Incidence.EdgeEndpointsAreKeys | nino/benzenoids.py:184-192 | Both endpoints of every present edge are present vertices. |
| Incidence.KeysGrow | nino/benzenoids.py:33-51 | Adding a face adds exactly its six vertex labels and six edge labels to the key sets. |
| Incidence.VertexFrame | nino/benzenoids.py:61-63 | A vertex outside the new face keeps all three of its lists. |
| Incidence.EdgeFrame | nino/benzenoids.py:69-77 | An edge outside the new face keeps its vertex and face lists. Outside the edge layer it also keeps its edge list. |
| Incidence.EdgeFrameVertices | nino/benzenoids.py:69-77 | The new face does not change the vertex list of an existing edge. |
| Incidence.EdgeFrameFaces | nino/benzenoids.py:69-77 | The new face does not change the face list of an edge outside it. |
| Incidence.EdgeFrameEdges | nino/benzenoids.py:69-77 | The new face does not change the edge list of an edge outside it and outside its edge layer. |
| Incidence.FaceFrame | nino/benzenoids.py:65-67 | A face that is not a neighbour of the new face keeps its face list. |
| Incidence.ArenaDetermined | nino/benzenoids.py:517-528 | Two valid arenas with the same hexagons are equal. The structure does not depend on insertion order or on repeated insertion. |
| Incidence.RecordsAgree | nino/benzenoids.py:931-935 | Valid arenas with the same key sets hold equal records. |
| Incidence.EdgeFaceCount | nino/benzenoids.py:263-269 | A present edge has one or two incident faces. It is a boundary edge iff exactly one of its two face candidates is present. |
| Incidence.EdgeHasFace | nino/benzenoids.py:43-51 | Every present edge lies on at least one present face. |
| Incidence.VertexDegreeBound | nino/benzenoids.py:432-433 | A present vertex has at most three neighbours, at most three edges, and one to three faces. |
| Incidence.VertexDegreeAtLeastTwo | nino/benzenoids.py:318-333 | A present vertex has at least two neighbours. |
| Incidence.TwoEdgesAtVertex | nino/benzenoids.py:318-333 | At least two neighbours of every present vertex survive the filter in update_vertex_list. |
| Incidence.NeighbourPresent | nino/benzenoids.py:326-332 | If the i-th incident edge of a vertex is present, so is the i-th neighbour. |
| Incidence.EdgeHasTwoVertices | nino/benzenoids.py:180-192 | The stored vertex list of a present edge is exactly its two endpoints, and both are present. |
| Incidence.SingleHexagon | nino/benzenoids.py:480-496 | One hexagon has one face, six vertices and six edges, and all six edges are boundary edges. |
| Incidence.LoneFaceEdge | nino/benzenoids.py:263-269 | Every edge of a single hexagon is a boundary edge. |
| Incidence.EmptyArena | nino/benzenoids.py:456-458 | The empty dictionaries form a valid arena. |
| Incidence.AtLeastOneHexagon | nino/benzenoids.py:486-496 | A nonempty benzenoid has at least six vertices and six edges. |
| Incidence.KeysOfOneFace | nino/benzenoids.py:33-51 | One face contributes exactly six vertex labels and six edge labels. |
| Incidence.FreshIsValid | nino/benzenoids.py:53-79 | Once no list is stale, the arena invariant holds. |
| Incidence.InsertFace | nino/benzenoids.py:29-56 | After the new face's labels are inserted, the only stale lists are those of the new face's vertices and edges, the edge layer, and the new face and its neighbours. |
| Incidence.InsertKeys | nino/benzenoids.py:33-51 | The key sets after insertion are those determined by the enlarged face set. |
| Incidence.EdgesStaleWiden | nino/benzenoids.py:69-77 | Widening the set of edges allowed to be stale keeps the freshness predicate. |
| Incidence.FacesStaleNarrow | nino/benzenoids.py:65-67 | Once the new face is fresh, only the faces on its refreshed face list can be stale. |
| Traversal.PushNeighbours | lib/algorithms.py:18-22 | Marks and enqueues every unseen neighbour of a node. This keeps the seen/queue/done partition and the path witnesses, and every neighbour ends up seen. |
| Traversal.Visit | lib/algorithms.py:19-22 | One neighbour: it ends up seen, it is enqueued only when it was unseen, and the partition and the path witnesses are kept. |
| Traversal.Bfs | lib/algorithms.py:8-23 | The component starts with start, has no duplicates, contains every neighbour of its nodes, and every node in it is reachable from start. |
| Traversal.Dfs | lib/algorithms.py:26-41 | The same four properties as Bfs, with the worklist taken from the back. |
| Traversal.TraversalIsReachableSet | lib/algorithms.py:12-23 | A traversal holds exactly the nodes reachable from start. |
| Traversal.TraversalsAgree | lib/algorithms.py:8-41 | Any two traversals from the same start, for example bfs and dfs, hold the same nodes and have the same length. |
| Traversal.DistinctSameElementsSameLength | lib/algorithms.py:8-41 | Duplicate-free sequences with the same elements have the same length. |
| Traversal.DistinctCardinality | lib/algorithms.py:12-23 | A duplicate-free sequence has as many elements as its set. |
| Traversal.ClosedHoldsReachable | lib/algorithms.py:18-22 | Everything reachable from a node of a closed set is in the set. |
| Traversal.ReachableSymmetric | lib/algorithms.py:18-22 | In a symmetric graph, reachability is symmetric. |
| Traversal.ReachableTransitive | lib/algorithms.py:18-22 | Reachability is transitive. |
| Traversal.TraversalsDisjoint | lib/algorithms.py:26-41 | In a symmetric graph, a search started outside an earlier component shares no node with it. |
| Traversal.ComponentIsAll | lib/algorithms.py:8-23 | For a search inside a closed node set of a symmetric graph, the component has as many nodes as the set iff all pairs of nodes are mutually reachable. |
| Bec.Decimal | nino/benzenoids.py:809 | str(n) is a nonempty digit string, and it is one character long exactly when n < 10. |
| Bec.DecimalRoundTrip | nino/benzenoids.py:809 | Reading back str(n) gives n. |
| Bec.CountConcat | nino/benzenoids.py:809 | Occurrences of a character in a concatenation add up. |
| Bec.CountZero | nino/benzenoids.py:804 | A character occurs zero times iff it is not in the string. |
| Bec.Split | nino/benzenoids.py:809 | str.split gives one more piece than there are separators, and no piece contains the separator. |
| Bec.SplitJoin | nino/benzenoids.py:809 | Joining the pieces of a split with the separator restores the string. |
| Bec.RunCode | nino/benzenoids.py:809 | The run code has at least one character per piece. |
| Bec.RawCode | nino/benzenoids.py:809 | The raw code is nonempty. |
| Bec.Reverse | nino/benzenoids.py:811 | code[::-1] has the same length, with the characters in reverse order. |
| Bec.Forms | nino/benzenoids.py:810-812 | There are 2·len(code) forms, and they are exactly the rotations of the code and of its reversal. |
| Bec.LexLeqReflexive | nino/benzenoids.py:813 | Python string order is reflexive. |
| Bec.LexLeqTotal | nino/benzenoids.py:813 | Python string order is total. |
| Bec.LexLeqAntisymmetric | nino/benzenoids.py:813 | Python string order is antisymmetric. |
| Bec.LexLeqTransitive | nino/benzenoids.py:813 | Python string order is transitive. |
| Bec.Largest | nino/benzenoids.py:813-814 | The last element after sorting is one of the forms, and it is at least every form. |
| Bec.LargestOfSameMembers | nino/benzenoids.py:813-814 | Lists with the same members have the same largest element. |
| Bec.FirstIndex | nino/benzenoids.py:806-808 | The while loop stops at the first '3'. |
| Bec.AfterFirstThree | nino/benzenoids.py:809 | Rotating to just after the first '3' and dropping it loses exactly one character. |
| Bec.CodeOfDegrees | nino/benzenoids.py:794-814 | The imperative scan and sort compute the boundary-edges code of the degree string. |
| Bec.FirstIsFirst | nino/benzenoids.py:806-808 | An index that holds c, with no c before it, is the first index of c. |
| Bec.RotateIndex | nino/benzenoids.py:810 | Character j of a rotation by k is character k+j, taken modulo the length, of the original. |
| Bec.RotateRotate | nino/benzenoids.py:810 | A rotation of a rotation is a rotation. |
| Bec.ReverseRotate | nino/benzenoids.py:810-812 | The reversal of a rotation is a rotation of the reversal. |
| Bec.ReverseReverse | nino/benzenoids.py:811 | Reversing twice restores the code. |
| Bec.FormsOfRotation | nino/benzenoids.py:810-812 | A rotated code has the same forms as the code. |
| Bec.FormOfRotationIsForm | nino/benzenoids.py:810-812 | Every form of a rotated code is a form of the code. |
| Bec.FormsOfReversal | nino/benzenoids.py:810-812 | A reversed code has the same forms as the code. |
| Bec.CanonRotationInvariant | nino/benzenoids.py:810-814 | The canonical code is unchanged by rotating the raw code. |
| Bec.CanonReversalInvariant | nino/benzenoids.py:810-814 | The canonical code is unchanged by reversing the raw code. |
| Bec.CanonCharacters | nino/benzenoids.py:810-814 | The canonical code has the length of the raw code and the same characters. |
| Bec.RotationCharacters | nino/benzenoids.py:810 | A rotation of the code has the code's length and characters. |
| Bec.ReverseCharacters | nino/benzenoids.py:811 | The reversed code has the code's characters. |
| Bec.RawCodePieces | nino/benzenoids.py:809 | There is one run per degree-3 vertex. When no run exceeds 8, the raw code has one character per degree-3 vertex. |
| Bec.ShortRuns | nino/benzenoids.py:809 | Runs of at most 8 each give exactly one digit. |
| Bec.CodeSixIffNoDegreeThree | nino/benzenoids.py:804-805 | The code is "6" iff no perimeter vertex has degree 3 (outside the single-3 case listed under Left out). |
| Bec.ConvexIffNoOneInRawCode | nino/benzenoids.py:809-814 | The canonical code contains '1' iff the raw code does. |
| Bec.AdjacentDegreeThreeGivesOne | nino/benzenoids.py:806-809 | Two degree-3 perimeter vertices in a row leave an empty segment, which the raw code writes as '1'. |
| Bec.AdjacentDegreeThreeNotConvex | nino/benzenoids.py:809 | Two degree-3 vertices at positions i and i + 1 of the degree string put a '1' in the code. |
| Bec.WrapDegreeThreeNotConvex | nino/benzenoids.py:806-809 | The degree string is read as a cycle (the split starts after the first '3' and wraps to the front): degree-3 vertices at the last and the first position put a '1' in the code too. |
| Bec.LastPieceEmpty | nino/benzenoids.py:806-809 | A string ending with '3' has an empty last piece, which the raw code writes as '1'. |
| Bec.EmptyPieceBetween | nino/benzenoids.py:809 | Two consecutive '3's leave an empty piece in the split. |
| Bec.EmptyPieceGivesOne | nino/benzenoids.py:809 | An empty piece contributes the digit '1'. |
| Boundary.NextBottomLeft | nino/benzenoids.py:498-510 | The new bottom-left candidate is either the new hexagon or the old one, and it is below-left of both. |
| Boundary.BottomLeftStep | nino/benzenoids.py:498-510 | The incremental update keeps the memoised hexagon minimal by (eta, then xi) over all added hexagons. |
| Boundary.BottomLeftUnique | nino/benzenoids.py:498-510 | There is only one bottom-left hexagon. |
| Boundary.BottomLeftEdgeIsBoundary | nino/benzenoids.py:576 | Edge 4 of the bottom-left hexagon is present and is a boundary edge. |
| Boundary.BottomLeftEdgeSides | nino/benzenoids.py:576 | Below edge 4 of the bottom-left hexagon there is no hexagon. |
| Boundary.FaceEdgeIsKey | nino/benzenoids.py:141-145 | Every edge of a present face is a present edge. |
| Boundary.BoundaryOnly | nino/benzenoids.py:577-578 | The neighbour filter of the perimeter search keeps exactly the boundary edges. |
| Boundary.BoundaryGraphClosed | nino/benzenoids.py:577-578 | The boundary-edge graph never leaves the boundary edges. |
| Boundary.PerimeterIsBoundary | nino/benzenoids.py:568-581 | Every perimeter edge is a boundary edge. The perimeter holds exactly the edges reachable from the start edge. |
| Boundary.HoleOnly | nino/benzenoids.py:538-539 | The hole-graph filter keeps exactly the boundary edges outside the perimeter. |
| Boundary.HoleGraphSymmetric | nino/benzenoids.py:538-539 | The hole graph is symmetric. |
| Boundary.EdgeAdjacencySymmetric | nino/benzenoids.py:194-206 | Stored edge adjacency is symmetric in a valid arena. |
| Boundary.HoleGraphClosed | nino/benzenoids.py:538-539 | The hole graph never leaves its nodes. |
| Boundary.NoHolesIff | nino/benzenoids.py:607-611 | There are no holes iff every boundary edge is a perimeter edge. |
| Boundary.HolesStep | nino/benzenoids.py:541-546 | A search started at an undiscovered hole edge is a new hole, disjoint from the earlier ones. |
| Boundary.Holes | nino/benzenoids.py:530-548 | The holes are nonempty searches of the hole graph. They are pairwise disjoint, hold only boundary edges outside the perimeter, and cover every such edge. |
| Boundary.HolesOfGraph | nino/benzenoids.py:530-548 | Components covering the hole graph satisfy the hole specification. |
| Boundary.Components | nino/benzenoids.py:540-546 | The discovered-set loop produces disjoint components that cover the graph. |
| Boundary.DiscoveredStep | nino/benzenoids.py:546 | The discovered set stays the union of the holes found so far. |
| Boundary.Succ | nino/benzenoids.py:594 | (i+1) % n for i < n. |
| Boundary.StepChoice | nino/benzenoids.py:593-594 | The chosen vertex is the endpoint that the edge shares with the next edge, or otherwise the other endpoint. |
| Boundary.CycleVertices | nino/benzenoids.py:589-596 | One vertex per edge, chosen at each position by the rule of perimeter_vertices. The result has the perimeter's length. |
| Boundary.CyclesVertices | nino/benzenoids.py:556-566 | One vertex cycle per hole, each following the same rule. |
| Boundary.CycleVerticesPresent | nino/benzenoids.py:589-596 | Every vertex of such a cycle is present. |
| Boundary.EdgesHaveEndpoints | nino/benzenoids.py:593 | The stored vertex list of each edge of a cycle is its pair of endpoints, so the unpacking `u, v` succeeds. |
| Boundary.IncidentEdgeListed | nino/benzenoids.py:141-145 | Edge nu of a present face is present, is on the face's edge list, and has the face on its face list. |
| Boundary.FaceEdgeBack | nino/benzenoids.py:141-145 | Edge nu of a face is one of its edges, and its face candidates include the face. |
| Boundary.DegreeStringDigits | nino/benzenoids.py:794 | The degree string has one digit per perimeter vertex, namely the vertex's degree. |
| Boundary.FaceGraphSymmetric | nino/benzenoids.py:604 | The face adjacency graph is symmetric. |
| Boundary.FaceGraphClosed | nino/benzenoids.py:604 | Face adjacency stays within the present faces. |
| Boundary.EmptySlotsAlong | nino/benzenoids.py:941-944 | A face is collected iff it is absent and is an incident-face candidate of an edge in the list. |
| Boundary.OtherSideIsEmptySlot | nino/benzenoids.py:937-944 | The absent side of a boundary edge is adjacent to a present face. |
| Boundary.OtherSideOfEmptySlot | nino/benzenoids.py:937-944 | The same fact, over the face set. |
| Benzenoids.Erase | nino/benzenoids.py:526-528 | Deleting a memo key removes exactly that key and keeps the bottom-left slot. |
| Benzenoids.LayerCovers | nino/benzenoids.py:69-75 | The collected edge layer contains every edge whose edge list the new face can change, and both layers contain only present labels. |
| Benzenoids.EdgeLayerCovered | nino/benzenoids.py:69-75 | Every edge whose edge list the new face can change is in the collected edge layer. |
| Benzenoids.EdgeLayerPresent | nino/benzenoids.py:69-75 | The collected edge layer holds only present edges. |
| Benzenoids.VertexLayerPresent | nino/benzenoids.py:69-75 | The collected vertex layer holds only present vertices. |
| Benzenoids.FreshVertex | nino/benzenoids.py:71-73 | A fresh vertex's edge list is its present incident edges, and all its stored neighbours are present. |
| Benzenoids.EdgeLayerStep | nino/benzenoids.py:76-77 | Refreshing one layer edge removes it from the stale set. |
| Benzenoids.VertexLayerStep | nino/benzenoids.py:78-79 | Refreshing one layer vertex keeps every vertex fresh. |
| Benzenoids.OwnFaceFresh | nino/benzenoids.py:54-55 | After update_face_list of the new face, only its neighbours can be stale. |
| Benzenoids.EdgeRefreshStep | nino/benzenoids.py:57-59 | update_every_list on the first stale edge leaves only the rest stale. |
| Benzenoids.VertexRefreshStep | nino/benzenoids.py:61-63 | update_every_list on the first stale vertex leaves only the rest stale. |
| Benzenoids.FaceRefreshStep | nino/benzenoids.py:65-67 | update_face_list on the first stale face leaves only the rest stale. |
| Benzenoids.FaceRefreshAt | nino/benzenoids.py:65-67 | After update_face_list on one face, that face holds its recomputed neighbours and every other face keeps its record. |
| Benzenoids.EdgeUpdatesCompose | nino/benzenoids.py:234-240 | The three update methods of an edge, in the order update_every_list calls them, recompute its whole record. |
| Benzenoids.VertexUpdatesCompose | nino/benzenoids.py:358-364 | The three update methods of a vertex, in the order update_every_list calls them, recompute its whole record. |
| Benzenoids.ConvexityOfDegrees | nino/benzenoids.py:946-950 | For vertices of a valid arena: two degree-3 vertices that are adjacent on the cycle (positions i and i + 1, or the last and the first) put a '1' in the code, and all degree-2 vertices give the code "6". |
| Benzenoids.SetToSeq | nino/benzenoids.py:929 | Lists a set without duplicates, as iterating over face_dict.keys() does. |
| Benzenoids.EdgesNeedFaces | nino/benzenoids.py:538-539 | A benzenoid with any edge has a face. |
| Benzenoids.PerimeterSearch | nino/benzenoids.py:576-578 | The DFS from edge 4 of the bottom-left hexagon is a perimeter. It holds only boundary edges, and exactly the reachable ones. |
| Benzenoids.PerimeterMemo | nino/benzenoids.py:577-580 | Storing the perimeter and its label set keeps the memo coherent. |
| Benzenoids.HoleEdgesPresent | nino/benzenoids.py:561-563 | Every hole edge is present, and its vertex list is its two endpoints. |
| Benzenoids.HoleVerticesPresent | nino/benzenoids.py:556-566 | Every vertex of every hole cycle is present. |
| Benzenoids.AdjacentThreesNotConvex | nino/benzenoids.py:946-950 | Degree-3 perimeter vertices at positions i and i + 1 make the code contain '1'. |
| Benzenoids.WrapThreesNotConvex | nino/benzenoids.py:594 | Degree-3 perimeter vertices at the last and the first position, which the cycle makes adjacent, make the code contain '1'. |
| Benzenoids.NoThreesConvex | nino/benzenoids.py:804-805 | When every perimeter vertex has degree 2, the code is "6". |
| Benzenoids.Benzenoid.constructor | nino/benzenoids.py:452-468 | Adds the hexagons one by one. The result is valid and holds exactly the given hexagons, with only the bottom-left slot memoised. |
| Benzenoids.Benzenoid.GetH | nino/benzenoids.py:480-484 | The number of faces; zero exactly when no bottom-left hexagon is known. |
| Benzenoids.Benzenoid.GetN | nino/benzenoids.py:486-490 | The number of vertices: 0 when empty, at least 6 otherwise. |
| Benzenoids.Benzenoid.GetM | nino/benzenoids.py:492-496 | The number of edges: 0 when empty, at least 6 otherwise. |
| Benzenoids.Benzenoid.UpdateBottomLeftHexagon | nino/benzenoids.py:498-510 | Only the bottom-left slot changes: it becomes the new hexagon when it was empty or when the new hexagon is below-left of it. |
| Benzenoids.Benzenoid.GetBottomLeftHexagon | nino/benzenoids.py:512-515 | An error (the IndexError) exactly when the benzenoid is empty. Otherwise the bottom-left hexagon of the face set, as memoised. |
| Benzenoids.Benzenoid.AddHexagon | nino/benzenoids.py:517-528 | Keeps the invariant and adds the hexagon to the face set. Re-adding a present hexagon leaves all three dictionaries unchanged. The bottom-left slot is updated only for a new hexagon, and every erasable memo key is removed. |
| Benzenoids.Benzenoid.EraseMemo | nino/benzenoids.py:525-528 | Removes the five erasable keys and keeps the bottom-left slot. |
| Benzenoids.Benzenoid.UpdateEdgeVertexList | nino/benzenoids.py:180-192 | Only the edge's vertex list changes: it becomes its present endpoints. |
| Benzenoids.Benzenoid.UpdateEdgeEdgeList | nino/benzenoids.py:194-206 | Only the edge's edge list changes: it becomes its present adjacent edges. |
| Benzenoids.Benzenoid.UpdateEdgeFaceList | nino/benzenoids.py:208-220 | Only the edge's face list changes: it becomes its present incident faces. |
| Benzenoids.Benzenoid.UpdateEdgeEveryList | nino/benzenoids.py:234-240 | The edge's record becomes its full recomputation. |
| Benzenoids.Benzenoid.UpdateVertexVertexList | nino/benzenoids.py:318-332 | Only the vertex's neighbour list changes: it becomes the neighbours that are present together with their connecting edge. |
| Benzenoids.Benzenoid.UpdateVertexEdgeList | nino/benzenoids.py:334-344 | Only the vertex's edge list changes: it becomes its present incident edges. |
| Benzenoids.Benzenoid.UpdateVertexFaceList | nino/benzenoids.py:346-356 | Only the vertex's face list changes: it becomes its present incident faces. |
| Benzenoids.Benzenoid.UpdateVertexEveryList | nino/benzenoids.py:358-364 | The vertex's record becomes its full recomputation. |
| Benzenoids.Benzenoid.UpdateFaceFaceList | nino/benzenoids.py:81-88 | Only the face's face list changes: it becomes its present neighbours. |
| Benzenoids.Benzenoid.AddFace | nino/benzenoids.py:25-79 | Face construction adds the face and restores the arena invariant: every stored list equals its recomputation. |
| Benzenoids.Benzenoid.CreateFace | nino/benzenoids.py:29-54 | Registers the face and creates any missing vertices and edges. Existing records are kept unchanged. The new face lists its six vertices and six edges. |
| Benzenoids.Benzenoid.CreateVertices | nino/benzenoids.py:33-41 | Returns the six canonical vertices of the face, creating only the missing ones. |
| Benzenoids.Benzenoid.CreateEdges | nino/benzenoids.py:43-51 | Returns the six canonical edges of the face, creating only the missing ones. |
| Benzenoids.Benzenoid.RefreshAround | nino/benzenoids.py:53-79 | The refresh cascade takes the arena from "only the lists around the new face are stale" to "nothing is stale". |
| Benzenoids.Benzenoid.RefreshOwnFace | nino/benzenoids.py:54-55 | The new face's face list becomes its present neighbours. |
| Benzenoids.Benzenoid.RefreshEdges | nino/benzenoids.py:57-59 | update_every_list on the new face's edges makes them fresh. |
| Benzenoids.Benzenoid.RefreshVertices | nino/benzenoids.py:61-63 | update_every_list on the new face's vertices makes them fresh. |
| Benzenoids.Benzenoid.RefreshNeighbourFaces | nino/benzenoids.py:65-67 | update_face_list on the adjacent faces makes every face fresh. |
| Benzenoids.Benzenoid.RefreshLayers | nino/benzenoids.py:69-79 | Refreshing the edge layer and the vertex layer leaves nothing stale. |
| Benzenoids.Benzenoid.CollectLayers | nino/benzenoids.py:69-75 | The layers are the edges and neighbours of the face's vertices, minus the face's own edges and vertices. |
| Benzenoids.Benzenoid.RefreshEdgeLayer | nino/benzenoids.py:76-77 | update_edge_list on every layer edge clears the stale edges. |
| Benzenoids.Benzenoid.RefreshLayerEdge | nino/benzenoids.py:77 | One layer edge is refreshed. |
| Benzenoids.Benzenoid.RefreshVertexLayer | nino/benzenoids.py:78-79 | update_vertex_list on every layer vertex keeps every vertex fresh. |
| Benzenoids.Benzenoid.RefreshLayerVertex | nino/benzenoids.py:79 | One layer vertex is refreshed. |
| Benzenoids.Benzenoid.IncidentEdge | nino/benzenoids.py:141-145 | Succeeds iff nu is in 0..5. The result is edge nu of the face; it is present, on the face's edge list, and has the face on its face list. |
| Benzenoids.Benzenoid.Degree | nino/benzenoids.py:432-433 | The degree of a present vertex is 2 or 3, and it is the number of its incident edges that are present. |
| Benzenoids.Benzenoid.Perimeter | nino/benzenoids.py:568-581 | An error exactly when empty; otherwise a search over boundary edges from edge 4 of the bottom-left hexagon. It holds only boundary edges, and exactly those of the perimeter. It is memoised, a memoised value is returned as is, and no other memo slot changes. Every memo slot that already held a value keeps it (MemoKeeps). |
| Benzenoids.Benzenoid.BelongsToPerimeter | nino/benzenoids.py:271-277 | True iff the edge is on the perimeter. The perimeter set is memoised afterwards. Every memo slot that already held a value keeps it (MemoKeeps). |
| Benzenoids.Benzenoid.BelongsToHole | nino/benzenoids.py:279-283 | True iff the edge is a boundary edge that is not on the perimeter. Every memo slot that already held a value keeps it (MemoKeeps). |
| Benzenoids.Benzenoid.PerimeterVertices | nino/benzenoids.py:583-596 | An error exactly when empty. Otherwise the vertex cycle of the memoised perimeter, one present vertex per edge; memoised. Every memo slot that already held a value keeps it (MemoKeeps). |
| Benzenoids.Benzenoid.ListOfHoles | nino/benzenoids.py:530-548 | Pairwise-disjoint hole components that cover every boundary edge off the perimeter; memoised and returned from the memo when present. Every memo slot that already held a value keeps it (MemoKeeps). |
| Benzenoids.Benzenoid.ListOfHolesVertices | nino/benzenoids.py:550-566 | One vertex cycle per memoised hole, all vertices present; memoised. Every memo slot that already held a value keeps it (MemoKeeps). |
| Benzenoids.Benzenoid.IsConnected | nino/benzenoids.py:598-605 | An error when empty (the StopIteration). Otherwise true iff every two faces are joined by a path of adjacent faces. |
| Benzenoids.Benzenoid.IsSimplyConnected | nino/benzenoids.py:607-611 | True iff every boundary edge is on the perimeter, which is the same as having no holes. Every memo slot that already held a value keeps it (MemoKeeps). |
| Benzenoids.Benzenoid.BoundaryEdgesCode | nino/benzenoids.py:787-814 | An error exactly when empty. Otherwise the boundary-edges code of the perimeter vertices' degree string, whose canonical form the Bec lemmas show does not change when the raw code string is rotated or reversed (a string-level statement, not one about moving the shape on the lattice). Every memo slot that already held a value keeps it (MemoKeeps). |
| Benzenoids.Benzenoid.IsConvex | nino/benzenoids.py:946-950 | True iff the code has no '1'. Two degree-3 perimeter vertices adjacent on the cycle (positions i and i + 1, or the last and the first) make it false, and an all-degree-2 perimeter makes it true. Every memo slot that already held a value keeps it (MemoKeeps). |
| Benzenoids.Benzenoid.EmptyFaceSlots | nino/benzenoids.py:937-944 | Exactly the absent incident-face candidates of perimeter edges; each of them is adjacent to a present face. Every memo slot that already held a value keeps it (MemoKeeps). |
| Benzenoids.Benzenoid.Copy | nino/benzenoids.py:931-935 | A fresh, valid benzenoid with equal dictionaries and only the bottom-left slot memoised. |
| Importer.Record | lib/importer.py:28-31 | Appends the column to the row, opening the row if it is new, and leaves the other rows and the position alone. |
| Importer.Mark | lib/importer.py:25-41 | A step that is not a crossing step records nothing, and the position and direction are kept. |
| Importer.Step | lib/importer.py:24-44 | One unit step keeps the walk invariant, and its crossings are exactly those that Mark records before the move. |
| Importer.StepMoves | lib/importer.py:24-44 | One unit step moves to a lattice neighbour, so the parity alternates. A female step turns the direction forward by one (mod 3) and a male step keeps it. A step that is not a crossing step leaves the crossings unchanged. |
| Importer.UnitStep | lib/importer.py:24-44 | The body of the inner loop, on the five walk variables, computes exactly one Step. |
| Importer.RecordCrossing | lib/importer.py:28-31 | Updating vert_lines in place computes exactly Record. |
| Importer.Steps | lib/importer.py:21-44 | The walk invariant holds after any number of unit steps: direction in 0..2, and each row listed once. |
| Importer.Walk | lib/importer.py:18-46 | A successful walk keeps direction in 0..2 and lists every row once. A failed walk names a character of the code that is not a digit. |
| Importer.BecToHexList | lib/importer.py:3-59 | The nested loops compute the decoding: "6" gives [(0, 0)], a non-digit character is an error, and an odd row is an error. |
| Importer.WalkRun | lib/importer.py:21-44 | The inner loop performs exactly n unit steps. |
| Importer.FillRows | lib/importer.py:49-59 | The sort-and-pair loops compute the row filling. |
| Importer.WalkErrorPersists | lib/importer.py:20-21 | The first non-digit character decides the error. |
| Importer.FillErrorPersists | lib/importer.py:51-53 | The first odd row decides the error. |
| Importer.PairsStep | lib/importer.py:54-57 | Each iteration of the pair loop appends the range of one pair. |
| Importer.PairsAppend | lib/importer.py:54-57 | Pairing a list with one more pair appends that pair's range. |
| Importer.PairRow | lib/importer.py:54-57 | The pair loop over one sorted row of even length emits exactly the pairing of that row. |
| Importer.EmitRange | lib/importer.py:56-57 | The innermost loop emits exactly range(left, right) of the row, which is empty when right <= left. |
| Importer.InsertSorted | lib/importer.py:52 | Insertion keeps a list sorted and adds exactly one element. |
| Importer.SortSortsAndPermutes | lib/importer.py:52 | The sort returns a sorted permutation of the row. |
| Importer.WalkOkIff | lib/importer.py:20-21 | The walk succeeds iff every character is a digit. |
| Importer.CrossingsOther | lib/importer.py:28-31 | Changing a row not listed does not change the crossing count. |
| Importer.CrossingsAppend | lib/importer.py:30-31 | Appending to a listed row adds one crossing. |
| Importer.RecordCounts | lib/importer.py:28-41 | Each record adds exactly one crossing. |
| Importer.MarkCounts | lib/importer.py:24-41 | A unit step records one crossing exactly on a male step with dir 0 or a female step with dir 1, and none otherwise. |
| Importer.StepCounts | lib/importer.py:24-44 | The same count for a whole unit step. |
| Importer.StepsCount | lib/importer.py:21-44 | n unit steps record at most n crossings. |
| Importer.LastStepCounts | lib/importer.py:21-44 | The last of n unit steps records at most one crossing. |
| Importer.WalkCount | lib/importer.py:20-46 | On a digit string, the walk succeeds and records at most as many crossings as the digit sum, which is the number of unit steps. |
| Importer.RangeMembers | lib/importer.py:56-57 | range(left, right) emits exactly (hy, k) with left <= k < right. |
| Importer.InPairsCons | lib/importer.py:54-57 | A column lies between a pair of the list exactly when it lies in the first pair or between a pair of the rest. |
| Importer.PairsMembers | lib/importer.py:54-57 | A row emits exactly the (hy, k) with k inside one of its pair intervals. |
| Importer.FillOkIff | lib/importer.py:51-53 | Filling succeeds iff every row has an even number of crossings. |
| Importer.FillMembers | lib/importer.py:51-57 | The output holds exactly the (row, k) with k between a pair of the row's sorted crossings; nothing else is emitted. |
| Importer.DecodeMeaning | lib/importer.py:13-59 | Apart from "6": the walk fails iff some character is not a digit. Decoding fails iff some row is odd. On success the hexagons are exactly those between paired crossings. |
| Importer.IsMale | lib/importer.py:10-11 | A vertex is male exactly when its coordinates have the same parity, i.e. when their difference is even. |
| Importer.Sort | lib/importer.py:52 | The sort keeps the length and the multiset of crossings; SortSortsAndPermutes adds that the result is sorted. |
| Importer.Insert | lib/importer.py:52 | Insertion adds exactly one element, and exactly that element to the multiset. |
| Importer.Range | lib/importer.py:56-57 | range(left, right) on row hy: max(0, right - left) hexagons, the i-th being (hy, left + i). |
| Importer.Pairs | lib/importer.py:54-57 | Pairing a row emits only hexagons of that row. |
| Importer.Fill | lib/importer.py:49-59 | Every emitted hexagon lies in a row that was crossed. A failure names a crossed row with an odd number of crossings. |
| Importer.Decode | lib/importer.py:3-59 | A NotADigit error names a character of the code that is not a digit. An OddCrossings error comes only after a successful walk of a code other than "6". |
| Bec.Code | nino/benzenoids.py:794-814 | The code is never empty, and it has at least one character per degree-3 perimeter vertex; exactly one per degree-3 vertex when no run of degree-2 vertices between them is longer than 8. |
| Bec.Canon | nino/benzenoids.py:810-814 | The canonical code is one of the forms (a rotation of the raw code or of its reversal), and every form is at most it in string order. |
| Bec.RotationsAreForms | nino/benzenoids.py:810-812 | Every rotation of the code and of its reversal is one of all_forms. |
| Bec.Rotate | nino/benzenoids.py:810 | A rotation keeps the length; RotationCharacters and RotateRotate add that it keeps the characters and that rotations compose. |
| Bec.LexLeq | nino/benzenoids.py:813 | A prefix of a string comes before it in string order; LexLeqTotal, LexLeqAntisymmetric and LexLeqTransitive make it a total order. |
| Labels.FaceVertices | nino/benzenoids.py:33-51 | A face has six vertices, each named by its canonical label. |
| Labels.FaceEdges | nino/benzenoids.py:33-51 | A face has six edges, each named by its canonical label. |
| Incidence.EdgeLists | nino/benzenoids.py:180-220 | An edge lists at most its two endpoints, four neighbouring edges and two faces. |
| Incidence.VertexLists | nino/benzenoids.py:318-356 | A vertex lists at most three neighbours, three edges and three faces, so its degree is at most 3. |
| Incidence.FaceLists | nino/benzenoids.py:25-79 | A face lists its six vertices, its six edges and at most six neighbouring faces. |
| Boundary.BelowLeftTotalOrder | nino/benzenoids.py:498-510 | The (eta, xi) order used to pick the bottom-left hexagon is reflexive, total, antisymmetric and transitive. |
| Boundary.BoundaryGraph | nino/benzenoids.py:577-578 | Every edge is a node, and each links only to boundary edges that are among its stored neighbours. |
| Boundary.HoleGraph | nino/benzenoids.py:538-539 | The nodes are exactly the boundary edges off the perimeter, and each links only to other nodes among its stored neighbours. |
| Boundary.FaceGraph | nino/benzenoids.py:604 | The nodes are exactly the present faces. |
| Boundary.DegreeString | nino/benzenoids.py:794 | The degree string is made of digits, at least one per vertex. |

## Left out

- Rendering and geometry (`get_coordinates`, `is_peak`, `is_valley`, `centre_of_mass`, the TikZ and atom/bond output, `myrvold_format`) use floating point or only format output. They are not part of this model.
- The spectral and graph-library members (`nx_graph`, the adjacency matrices, `spectrum`, `symbolic_spectrum`, `perfect_matchings`, `pauling_bond_orders`) call networkx, numpy and sympy. They are not part of this model.
- `mob.py` (web routing, uploads, templates) and `analyser.py` (which calls a `convex_deficit` that the class does not define) are not part of this model.
- `Face.update_edge_list`, `Face.update_vertex_list` and `Face.update_every_list` (nino/benzenoids.py:90-118) are never called, so they are not modelled. As written, `update_edge_list` looks up edge labels in the face dictionary and overwrites the face list; nothing reaches it.
- The `print(self.face_dict)` in `is_connected` is output only and is dropped. The StopIteration that an empty benzenoid raises there becomes the `EmptyBenzenoid` error.
- Object identity, back-references, generators and the string-keyed memo dictionary become labels, sequences and a memo datatype with one slot per key. `get_bottom_left_hexagon` returns the label rather than the Face object.
- Benzenoids.Benzenoid.Perimeter: states the set of edges that the search visits and that it is a valid DFS/BFS result. It does not state the visiting order that makes the perimeter a cycle walked edge after edge. PerimeterVertices applies the source's per-position rule to whatever order was returned.
- Boundary.Holes: the source iterates the hole graph in dictionary order. The model picks an undiscovered hole edge in an unspecified order, so which edge starts each hole, and the order of the holes, are not pinned down. The order in which the vertices of each hole are visited is not stated either, so Benzenoids.Benzenoid.ListOfHolesVertices only applies the per-position vertex rule to whatever order the hole edges come in.
- Bec.CodeSixIffNoDegreeThree: excludes a degree string with exactly one '3'. There the code is the single number len(degrees), which is "6" for a string of length 6 such as "322222"; no benzenoid perimeter has this shape.
- Bec.RawCodePieces: states one character per degree-3 vertex only when no run of degree-2 vertices exceeds 8. `str(len(seg) + 1)` writes a longer run with two digits, and the rotations then cut through that number. A run along one hexagon is at most 4 long, so this does not arise for a benzenoid perimeter.
- Benzenoids.Benzenoid.EmptyFaceSlots: the docstring of `empty_face_slots` promises every absent face adjacent to the benzenoid. The code scans only the perimeter edges, so an absent face inside a hole (the centre of the ring of six hexagons around (0, 0)) is not returned. The model follows the code and does not state the docstring's promise.
- Benzenoids.Benzenoid.IsConvex: `is_convex` tests only for the absence of the character '1' in the code; the model states exactly that, and proves the two shapes it settles (adjacent degree-3 perimeter vertices give a '1', an all-degree-2 perimeter gives "6") rather than a geometric notion of convexity.
- Importer.Walk: `int(c)` also accepts non-ASCII Unicode digit characters. The model accepts only '0'..'9' and treats every other character as `NotADigit`.
- Importer.BecToHexList: the `assert len(lst) % 2 == 0` of the source becomes the `OddCrossings` error rather than an exception, and an error from `int(c)` becomes `NotADigit`. The rows are filled in the order they were first met, which is the dictionary's insertion order (not sorted by row).
- Importer.Decode: the decoder is never related to the encoder. The model does not state that decoding the code of a benzenoid gives the same shape up to translation, that encoding a decoded shape gives back the code, or that a rotated or reflected shape decodes to the same code. Each needs the perimeter's cyclic order, which Benzenoids.Benzenoid.Perimeter leaves unstated, plus a geometric argument about how the walk fills rows. The decoded hexagons are row-first `(hy, k)` pairs, not the `(xi, eta)` face labels of the Benzenoids module.
- Importer.BecToHexList: like Importer.Decode, its result is only characterised on its own terms (DecodeMeaning); no round trip with Benzenoids.Benzenoid.BoundaryEdgesCode and no invariance under lattice symmetries is proved.
- Benzenoids.Benzenoid.BoundaryEdgesCode: invariance under rotation and reflection is proved for the raw code string only, not for moving the benzenoid on the lattice.
- Importer.Sort: Python's `list.sort` is modelled by an insertion sort. On integers every sorting algorithm gives the same result, which SortSortsAndPermutes characterises.
