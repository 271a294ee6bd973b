/**
 * What the boundary tracer of nino/benzenoids.py works on, stated over the
 * arena maps: the bottom-left order, the graph of boundary edges that
 * perimeter searches, the graph of hole edges that list_of_holes searches,
 * the graph of adjacent faces that is_connected searches, and what turning
 * an edge cycle into a vertex cycle promises.
 */
module Boundary {
  import opened Wrappers
  import opened Labels
  import opened Incidence
  import Traversal
  import Bec

  /*
   * The bottom-left hexagon.
   */

  /** a is not above b, and not to the right of b on the same row: the (eta, xi) order. */
  predicate BelowLeft(a: Hex, b: Hex)
  {
    a.eta < b.eta || (a.eta == b.eta && a.xi <= b.xi)
  }

  /** BelowLeft is a total order on hexagons, so a set of hexagons has one bottom-left member. */
  lemma BelowLeftTotalOrder(a: Hex, b: Hex, c: Hex)
    ensures BelowLeft(a, a)
    ensures BelowLeft(a, b) || BelowLeft(b, a)
    ensures BelowLeft(a, b) && BelowLeft(b, a) ==> a == b
    ensures BelowLeft(a, b) && BelowLeft(b, c) ==> BelowLeft(a, c)
  {
  }

  /** Benzenoid._update_bottom_left_hexagon: the bottom-left hexagon once h is added. */
  function NextBottomLeft(cur: Option<Hex>, h: Hex): (r: Hex)
    ensures r == h || (cur.Some? && r == cur.value)
    ensures BelowLeft(r, h)
    ensures cur.Some? ==> BelowLeft(r, cur.value)
  {
    if cur.None? then h
    else if h.eta < cur.value.eta || (h.eta == cur.value.eta && h.xi < cur.value.xi) then h
    else cur.value
  }

  ghost predicate IsBottomLeft(fk: set<Hex>, b: Hex)
  {
    b in fk && forall f :: f in fk ==> BelowLeft(b, f)
  }

  /** The memo slot holds the bottom-left face, and is empty exactly when there are no faces. */
  ghost predicate BottomLeftOk(fk: set<Hex>, bl: Option<Hex>)
  {
    (bl.None? <==> fk == {}) && (bl.Some? ==> IsBottomLeft(fk, bl.value))
  }

  /** Adding a face and updating the slot keeps it the bottom-left face. */
  lemma BottomLeftStep(fk: set<Hex>, bl: Option<Hex>, h: Hex)
    requires BottomLeftOk(fk, bl)
    ensures BottomLeftOk(fk + {h}, Some(NextBottomLeft(bl, h)))
  {
    var r := NextBottomLeft(bl, h);
    forall f | f in fk + {h} ensures BelowLeft(r, f) {
      if f != h {
        assert BelowLeft(bl.value, f);
      }
    }
  }

  /** The bottom-left face is unique. */
  lemma BottomLeftUnique(fk: set<Hex>, a: Hex, b: Hex)
    requires IsBottomLeft(fk, a) && IsBottomLeft(fk, b)
    ensures a == b
  {
    assert BelowLeft(a, b) && BelowLeft(b, a);
  }

  /**
   * Edge 4 of the bottom-left face, where perimeter starts, is a boundary
   * edge: the face below it would have a smaller eta.
   */
  lemma BottomLeftEdgeIsBoundary(vd: map<Lab, Lists>, ed: map<Lab, Lists>, fd: map<Hex, Lists>, b: Hex)
    requires ArenaValid(vd, ed, fd) && IsBottomLeft(fd.Keys, b)
    ensures FaceEdge(b, 4) in ed && IsBoundary(ed, FaceEdge(b, 4))
  {
    FaceEdgeIsKey(fd.Keys, b, 4);
    EdgeFaceCount(vd, ed, fd, FaceEdge(b, 4));
    BottomLeftEdgeSides(fd.Keys, b);
  }

  /** Edge 4 of the bottom-left face lies between that face and an empty slot below it. */
  lemma BottomLeftEdgeSides(fk: set<Hex>, b: Hex)
    requires IsBottomLeft(fk, b)
    ensures EdgeFaces(FaceEdge(b, 4))[0] in fk
    ensures EdgeFaces(FaceEdge(b, 4))[1] !in fk
  {
    var below := Hex(b.xi, b.eta - 1);
    assert !BelowLeft(b, below);
    assert EdgeFaces(FaceEdge(b, 4))[0] == b && EdgeFaces(FaceEdge(b, 4))[1] == below;
  }

  lemma FaceEdgeIsKey(fk: set<Hex>, h: Hex, nu: int)
    requires h in fk && 0 <= nu < 6
    ensures FaceEdge(h, nu) in EdgeKeys(fk)
  {
    assert FaceEdge(h, nu) in FaceEdges(h);
  }

  /*
   * The perimeter: a search over boundary edges.
   */

  /** The boundary edges among s (the generator handed to dfs in perimeter). */
  function BoundaryOnly(ed: map<Lab, Lists>, s: seq<Lab>): (r: seq<Lab>)
    ensures forall d :: d in r <==> d in s && IsBoundary(ed, d)
  {
    if s == [] then []
    else if IsBoundary(ed, s[0]) then [s[0]] + BoundaryOnly(ed, s[1..])
    else BoundaryOnly(ed, s[1..])
  }

  /** Each edge's adjacent boundary edges. */
  function BoundaryGraph(ed: map<Lab, Lists>): (r: map<Lab, seq<Lab>>)
    ensures r.Keys == ed.Keys
    ensures forall e, d :: e in r && d in r[e] ==> IsBoundary(ed, d) && d in ed[e].edges
  {
    map e | e in ed :: BoundaryOnly(ed, ed[e].edges)
  }

  /** The boundary edges reachable from edge 4 of the bottom-left face: the perimeter as a set. */
  ghost function PerimeterEdges(ed: map<Lab, Lists>, bl: Option<Hex>): set<Lab>
  {
    if bl.None? then {}
    else set t | t in ed && Traversal.Reachable(BoundaryGraph(ed), FaceEdge(bl.value, 4), t)
  }

  /** p is what perimeter may return: a search over boundary edges from edge 4 of the bottom-left face. */
  ghost predicate IsPerimeter(ed: map<Lab, Lists>, bl: Option<Hex>, p: seq<Lab>)
  {
    bl.Some? && Traversal.IsTraversal(BoundaryGraph(ed), FaceEdge(bl.value, 4), p)
  }

  ghost function BoundarySet(ed: map<Lab, Lists>): set<Lab>
  {
    set e | e in ed && IsBoundary(ed, e)
  }

  /** No boundary-graph link leaves the boundary edges. */
  lemma BoundaryGraphClosed(ed: map<Lab, Lists>)
    ensures Traversal.Closed(BoundaryGraph(ed), BoundarySet(ed))
  {
  }

  /**
   * The edges of a perimeter search are boundary edges, and as a set they
   * are the perimeter edges, whatever order the search visits them in.
   */
  lemma PerimeterIsBoundary(vd: map<Lab, Lists>, ed: map<Lab, Lists>, fd: map<Hex, Lists>,
                            bl: Option<Hex>, p: seq<Lab>)
    requires ArenaValid(vd, ed, fd) && BottomLeftOk(fd.Keys, bl) && IsPerimeter(ed, bl, p)
    ensures forall t :: t in p ==> IsBoundary(ed, t)
    ensures forall t :: t in p <==> t in PerimeterEdges(ed, bl)
  {
    var g := BoundaryGraph(ed);
    var s := FaceEdge(bl.value, 4);
    BottomLeftEdgeIsBoundary(vd, ed, fd, bl.value);
    Traversal.TraversalIsReachableSet(g, s, p);
    BoundaryGraphClosed(ed);
    forall t | t in p ensures IsBoundary(ed, t) {
      Traversal.ClosedHoldsReachable(g, BoundarySet(ed), s, t);
    }
  }

  /*
   * The holes: searches over boundary edges off the perimeter.
   */

  /** The boundary edges among s that are not in pset (the belongs_to_hole filter). */
  function HoleOnly(ed: map<Lab, Lists>, pset: set<Lab>, s: seq<Lab>): (r: seq<Lab>)
    ensures forall d :: d in r <==> d in s && IsBoundary(ed, d) && d !in pset
  {
    if s == [] then []
    else if IsBoundary(ed, s[0]) && s[0] !in pset then [s[0]] + HoleOnly(ed, pset, s[1..])
    else HoleOnly(ed, pset, s[1..])
  }

  /** The boundary_graph of list_of_holes: each hole edge with its adjacent hole edges. */
  function HoleGraph(ed: map<Lab, Lists>, pset: set<Lab>): (r: map<Lab, seq<Lab>>)
    ensures forall e :: e in r <==> e in ed && IsBoundary(ed, e) && e !in pset
    ensures forall e, d :: e in r && d in r[e] ==> d in r && d in ed[e].edges
  {
    map e | e in ed && IsBoundary(ed, e) && e !in pset :: HoleOnly(ed, pset, ed[e].edges)
  }

  /** Edge adjacency is symmetric, so the hole graph is too. */
  lemma HoleGraphSymmetric(vd: map<Lab, Lists>, ed: map<Lab, Lists>, fd: map<Hex, Lists>, pset: set<Lab>)
    requires ArenaValid(vd, ed, fd)
    ensures Traversal.Symmetric(HoleGraph(ed, pset))
  {
    var g := HoleGraph(ed, pset);
    forall v, w | w in Traversal.Neighbours(g, v) ensures v in Traversal.Neighbours(g, w) {
      EdgeAdjacencySymmetric(vd, ed, fd, v, w);
    }
  }

  /** In a valid arena, w is in v's stored edge list exactly when v is in w's. */
  lemma EdgeAdjacencySymmetric(vd: map<Lab, Lists>, ed: map<Lab, Lists>, fd: map<Hex, Lists>, v: Lab, w: Lab)
    requires ArenaValid(vd, ed, fd) && v in ed && w in ed
    ensures w in ed[v].edges <==> v in ed[w].edges
  {
    EdgeKeysCanonical(fd.Keys, v);
    EdgeKeysCanonical(fd.Keys, w);
    EdgeNeighboursSymmetric(v, w);
    assert ed[v] == EdgeLists(v, vd.Keys, ed.Keys, fd.Keys);
    assert ed[w] == EdgeLists(w, vd.Keys, ed.Keys, fd.Keys);
  }

  /** Hole-graph links stay among the hole edges. */
  lemma HoleGraphClosed(ed: map<Lab, Lists>, pset: set<Lab>)
    ensures Traversal.Closed(HoleGraph(ed, pset), HoleGraph(ed, pset).Keys)
  {
  }

  /** There are no holes exactly when every boundary edge is on the perimeter. */
  lemma NoHolesIff(ed: map<Lab, Lists>, pset: set<Lab>, holes: seq<seq<Lab>>)
    requires HolesOk(ed, pset, holes)
    ensures |holes| == 0 <==> forall e :: e in ed && IsBoundary(ed, e) ==> e in pset
  {
    if |holes| > 0 {
      assert holes[0][0] in holes[0];
      assert IsBoundary(ed, holes[0][0]) && holes[0][0] !in pset;
    }
  }

  ghost predicate Disjoint(a: seq<Lab>, b: seq<Lab>)
  {
    forall x :: x in a ==> x !in b
  }

  /**
   * What list_of_holes promises: each hole is a search of the hole graph
   * from its first edge, the holes are pairwise disjoint, they hold only
   * boundary edges off the perimeter, and together they hold all of them.
   */
  ghost predicate HolesOk(ed: map<Lab, Lists>, pset: set<Lab>, holes: seq<seq<Lab>>)
  {
    && (forall i :: 0 <= i < |holes| ==>
          |holes[i]| > 0 && Traversal.IsTraversal(HoleGraph(ed, pset), holes[i][0], holes[i]))
    && (forall i, j :: 0 <= i < j < |holes| ==> Disjoint(holes[i], holes[j]))
    && (forall i, e :: 0 <= i < |holes| && e in holes[i] ==> IsBoundary(ed, e) && e !in pset)
    && (forall e :: e in ed && IsBoundary(ed, e) && e !in pset ==> exists i :: 0 <= i < |holes| && e in holes[i])
  }

  /** The holes found so far: searches of the hole graph, pairwise disjoint, over hole-graph nodes. */
  ghost predicate HolesSoFar(g: map<Lab, seq<Lab>>, holes: seq<seq<Lab>>)
  {
    && (forall i :: 0 <= i < |holes| ==> |holes[i]| > 0 && Traversal.IsTraversal(g, holes[i][0], holes[i]))
    && (forall i, j :: 0 <= i < j < |holes| ==> Disjoint(holes[i], holes[j]))
    && (forall i, e :: 0 <= i < |holes| && e in holes[i] ==> e in g)
  }

  /** A search started outside the holes found so far is a new hole. */
  lemma HolesStep(g: map<Lab, seq<Lab>>, holes: seq<seq<Lab>>, e: Lab, hole: seq<Lab>)
    requires Traversal.Symmetric(g) && Traversal.Closed(g, g.Keys)
    requires HolesSoFar(g, holes) && e in g && Traversal.IsTraversal(g, e, hole)
    requires forall i :: 0 <= i < |holes| ==> e !in holes[i]
    ensures HolesSoFar(g, holes + [hole])
  {
    var hs := holes + [hole];
    forall i | 0 <= i < |holes| ensures Disjoint(hs[i], hole) {
      Traversal.TraversalsDisjoint(g, holes[i], e, hole);
    }
    forall x | x in hole ensures x in g {
      Traversal.ClosedHoldsReachable(g, g.Keys, e, x);
    }
  }

  /** Every node of g lies in one of the holes. */
  ghost predicate Covered(g: map<Lab, seq<Lab>>, holes: seq<seq<Lab>>)
  {
    forall x :: x in g ==> exists i :: 0 <= i < |holes| && x in holes[i]
  }

  /** list_of_holes: the hole graph split into its searches. */
  method Holes(ed: map<Lab, Lists>, pset: set<Lab>) returns (holes: seq<seq<Lab>>)
    requires Traversal.Symmetric(HoleGraph(ed, pset))
    ensures HolesOk(ed, pset, holes)
  {
    var g := HoleGraph(ed, pset);
    HoleGraphClosed(ed, pset);
    holes := Components(g);
    HolesOfGraph(ed, pset, holes);
  }

  lemma HolesOfGraph(ed: map<Lab, Lists>, pset: set<Lab>, holes: seq<seq<Lab>>)
    requires HolesSoFar(HoleGraph(ed, pset), holes) && Covered(HoleGraph(ed, pset), holes)
    ensures HolesOk(ed, pset, holes)
  {
    var g := HoleGraph(ed, pset);
    forall e | e in ed && IsBoundary(ed, e) && e !in pset
      ensures exists i :: 0 <= i < |holes| && e in holes[i]
    {
      assert e in g;
    }
  }

  /**
   * The loop of list_of_holes: for each node not yet discovered, a
   * depth-first search from it is a new component.
   */
  method Components(g: map<Lab, seq<Lab>>) returns (holes: seq<seq<Lab>>)
    requires Traversal.Symmetric(g) && Traversal.Closed(g, g.Keys)
    ensures HolesSoFar(g, holes) && Covered(g, holes)
  {
    var rest := g.Keys;
    var discovered: set<Lab> := {};
    holes := [];
    while rest != {}
      invariant rest <= g.Keys
      invariant HolesSoFar(g, holes)
      invariant forall x :: x in discovered <==> exists i :: 0 <= i < |holes| && x in holes[i]
      invariant forall x :: x in g && x !in rest ==> x in discovered
      decreases |rest|
    {
      var e :| e in rest;
      rest := rest - {e};
      if e !in discovered {
        var hole := Traversal.Dfs(g, e);
        HolesStep(g, holes, e, hole);
        var discovered' := discovered + set w | w in hole;
        DiscoveredStep(holes, hole, discovered, discovered');
        holes := holes + [hole];
        discovered := discovered';
      }
    }
  }

  lemma DiscoveredStep(holes: seq<seq<Lab>>, hole: seq<Lab>, discovered: set<Lab>, discovered': set<Lab>)
    requires forall x :: x in discovered <==> exists i :: 0 <= i < |holes| && x in holes[i]
    requires discovered' == discovered + set w | w in hole
    ensures forall x :: x in discovered' <==> exists i :: 0 <= i < |holes + [hole]| && x in (holes + [hole])[i]
  {
    var hs := holes + [hole];
    forall x | x in discovered'
      ensures exists i :: 0 <= i < |hs| && x in hs[i]
    {
      if x in discovered {
        var i :| 0 <= i < |holes| && x in holes[i];
        assert hs[i] == holes[i];
      } else {
        assert hs[|holes|] == hole;
      }
    }
    forall i, x | 0 <= i < |hs| && x in hs[i]
      ensures x in discovered'
    {
      if i < |holes| {
        assert hs[i] == holes[i];
      }
    }
  }

  /*
   * From an edge cycle to a vertex cycle.
   */

  predicate SharesEndpoint(e: Lab, d: Lab)
  {
    EdgeVertices(e)[0] in EdgeVertices(d) || EdgeVertices(e)[1] in EdgeVertices(d)
  }

  /**
   * r lists one endpoint of each edge of p, and whenever an edge shares an
   * endpoint with the next edge (cyclically) it is a shared one.
   */
  ghost predicate IsCycleVertices(p: seq<Lab>, r: seq<Lab>)
  {
    && |r| == |p|
    && forall i :: 0 <= i < |p| ==> CycleStep(p, i, r[i])
  }

  /** (i + 1) % n for 0 <= i < n. */
  function Succ(i: nat, n: nat): (j: nat)
    requires i < n
    ensures j == (i + 1) % n
  {
    if i + 1 < n then i + 1 else 0
  }

  /** x, the vertex listed for edge p[i], is an endpoint of it and, when possible, of the next edge. */
  ghost predicate CycleStep(p: seq<Lab>, i: nat, x: Lab)
    requires i < |p|
  {
    && x in EdgeVertices(p[i])
    && (SharesEndpoint(p[i], p[Succ(i, |p|)]) ==> x in EdgeVertices(p[Succ(i, |p|)]))
  }

  /** The endpoint chosen for edge p[i] meets CycleStep. */
  lemma StepChoice(p: seq<Lab>, i: nat, x: Lab)
    requires i < |p|
    requires var ev := EdgeVertices(p[i]);
      x == if ev[0] in EdgeVertices(p[Succ(i, |p|)]) then ev[0] else ev[1]
    ensures CycleStep(p, i, x)
  {
  }

  /**
   * The loop shared by perimeter_vertices and list_of_holes_vertices: for
   * each edge, its first endpoint if the next edge has it, else its second.
   */
  method CycleVertices(ed: map<Lab, Lists>, p: seq<Lab>) returns (r: seq<Lab>)
    requires forall e :: e in p ==> e in ed && ed[e].vertices == EdgeVertices(e)
    ensures IsCycleVertices(p, r)
  {
    var n := |p|;
    r := [];
    var i := 0;
    while i < n
      invariant 0 <= i <= n && |r| == i
      invariant forall j :: 0 <= j < i ==> CycleStep(p, j, r[j])
    {
      var e := p[i];
      assert e in p;
      var ev := ed[e].vertices;
      assert ev == EdgeVertices(e) && |ev| == 2;
      var next := p[(i + 1) % n];
      assert next in p && ed[next].vertices == EdgeVertices(next);
      var x := if ev[0] in ed[next].vertices then ev[0] else ev[1];
      StepChoice(p, i, x);
      r := r + [x];
      i := i + 1;
    }
  }

  /** The loop of list_of_holes_vertices: CycleVertices for every hole. */
  method CyclesVertices(ed: map<Lab, Lists>, cycles: seq<seq<Lab>>) returns (r: seq<seq<Lab>>)
    requires forall i, e :: 0 <= i < |cycles| && e in cycles[i] ==> e in ed && ed[e].vertices == EdgeVertices(e)
    ensures |r| == |cycles|
    ensures forall i :: 0 <= i < |cycles| ==> IsCycleVertices(cycles[i], r[i])
  {
    r := [];
    for i := 0 to |cycles|
      invariant |r| == i
      invariant forall j :: 0 <= j < i ==> IsCycleVertices(cycles[j], r[j])
    {
      var vs := CycleVertices(ed, cycles[i]);
      r := r + [vs];
    }
  }

  /** The vertices chosen along an edge cycle of a valid arena are present. */
  lemma CycleVerticesPresent(vd: map<Lab, Lists>, ed: map<Lab, Lists>, fd: map<Hex, Lists>, p: seq<Lab>, r: seq<Lab>)
    requires ArenaValid(vd, ed, fd) && (forall e :: e in p ==> e in ed) && IsCycleVertices(p, r)
    ensures forall v :: v in r ==> v in vd
  {
    forall i | 0 <= i < |r| ensures r[i] in vd {
      assert CycleStep(p, i, r[i]);
      EdgeEndpointsAreKeys(fd.Keys, p[i]);
    }
  }

  /** The edges of a search in a valid arena carry their two endpoints. */
  lemma EdgesHaveEndpoints(vd: map<Lab, Lists>, ed: map<Lab, Lists>, fd: map<Hex, Lists>, p: seq<Lab>)
    requires ArenaValid(vd, ed, fd) && forall e :: e in p ==> e in ed
    ensures forall e :: e in p ==> e in ed && ed[e].vertices == EdgeVertices(e)
  {
    forall e | e in p ensures ed[e].vertices == EdgeVertices(e) {
      EdgeHasTwoVertices(vd, ed, fd, e);
    }
  }

  /**
   * Face.get_incident_edge: edge nu of a face is present, listed by the
   * face, and lists the face back.
   */
  lemma IncidentEdgeListed(vd: map<Lab, Lists>, ed: map<Lab, Lists>, fd: map<Hex, Lists>, h: Hex, nu: int)
    requires ArenaValid(vd, ed, fd) && h in fd && 0 <= nu < 6
    ensures FaceEdge(h, nu) in ed && FaceEdge(h, nu) in fd[h].edges && h in ed[FaceEdge(h, nu)].faces
  {
    var e := FaceEdge(h, nu);
    FaceEdgeIsKey(fd.Keys, h, nu);
    FaceEdgeBack(fd.Keys, h, nu);
    assert fd[h] == FaceLists(h, fd.Keys);
    assert ed[e] == EdgeLists(e, vd.Keys, ed.Keys, fd.Keys);
  }

  lemma FaceEdgeBack(fk: set<Hex>, h: Hex, nu: int)
    requires h in fk && 0 <= nu < 6
    ensures FaceEdge(h, nu) in FaceEdges(h) && h in Present(EdgeFaces(FaceEdge(h, nu)), fk)
  {
    assert FaceEdge(h, nu) in FaceEdges(h);
    EdgeFacesIffFaceEdge(FaceEdge(h, nu), h);
  }

  /** ''.join(str(v.get_degree()) for v in vs): the degree string of a vertex list. */
  function DegreeString(vd: map<Lab, Lists>, vs: seq<Lab>): (r: string)
    requires forall v :: v in vs ==> v in vd
    ensures |r| >= |vs| && Bec.AllDigits(r)
  {
    if vs == [] then [] else Bec.Decimal(|vd[vs[0]].vertices|) + DegreeString(vd, vs[1..])
  }

  /** With every degree at most three, the degree string has one digit per vertex. */
  lemma {:induction false} DegreeStringDigits(vd: map<Lab, Lists>, vs: seq<Lab>)
    requires forall v :: v in vs ==> v in vd && |vd[v].vertices| <= 3
    ensures |DegreeString(vd, vs)| == |vs|
    ensures forall i :: 0 <= i < |vs| ==> DegreeString(vd, vs)[i] == Bec.Digit(|vd[vs[i]].vertices|)
  {
    if vs != [] {
      DegreeStringDigits(vd, vs[1..]);
    }
  }

  /*
   * The face graph that is_connected searches.
   */

  function FaceGraph(fd: map<Hex, Lists>): (r: map<Hex, seq<Hex>>)
    ensures r.Keys == fd.Keys
  {
    map h | h in fd :: fd[h].faces
  }

  /** Face adjacency is symmetric, so the face graph is too. */
  lemma FaceGraphSymmetric(vd: map<Lab, Lists>, ed: map<Lab, Lists>, fd: map<Hex, Lists>)
    requires ArenaValid(vd, ed, fd)
    ensures Traversal.Symmetric(FaceGraph(fd))
  {
    var g := FaceGraph(fd);
    forall v, w | w in Traversal.Neighbours(g, v) ensures v in Traversal.Neighbours(g, w) {
      assert fd[v] == FaceLists(v, fd.Keys);
      assert fd[w] == FaceLists(w, fd.Keys);
      FaceNeighboursSymmetric(v, w);
    }
  }

  /** Every face-graph link joins two faces. */
  lemma FaceGraphClosed(vd: map<Lab, Lists>, ed: map<Lab, Lists>, fd: map<Hex, Lists>)
    requires ArenaValid(vd, ed, fd)
    ensures Traversal.Closed(FaceGraph(fd), fd.Keys)
  {
    forall v, w | v in fd.Keys && w in Traversal.Neighbours(FaceGraph(fd), v) ensures w in fd.Keys {
      assert fd[v] == FaceLists(v, fd.Keys);
    }
  }

  /** The loop of empty_face_slots: the candidate faces of the edges of p that are not faces. */
  method EmptySlotsAlong(fd: map<Hex, Lists>, p: seq<Lab>) returns (slots: set<Hex>)
    ensures forall f :: f in slots <==> f !in fd && exists e :: e in p && f in EdgeFaces(e)
  {
    slots := {};
    for i := 0 to |p|
      invariant forall f :: f in slots <==> f !in fd && exists j :: 0 <= j < i && f in EdgeFaces(p[j])
    {
      slots := slots + set f | f in EdgeFaces(p[i]) && f !in fd;
    }
    forall f | f !in fd && (exists e :: e in p && f in EdgeFaces(e)) ensures f in slots {
      var e :| e in p && f in EdgeFaces(e);
      var j :| 0 <= j < |p| && p[j] == e;
    }
  }

  /** The face on the other side of a boundary edge is an empty slot next to a face. */
  lemma OtherSideIsEmptySlot(vd: map<Lab, Lists>, ed: map<Lab, Lists>, fd: map<Hex, Lists>, e: Lab, f: Hex)
    requires ArenaValid(vd, ed, fd) && IsBoundary(ed, e) && f in EdgeFaces(e) && f !in fd
    ensures exists g :: g in fd && f in FaceNeighbours(g)
  {
    EdgeFaceCount(vd, ed, fd, e);
    OtherSideOfEmptySlot(fd.Keys, e, f);
  }

  lemma OtherSideOfEmptySlot(fk: set<Hex>, e: Lab, f: Hex)
    requires f in EdgeFaces(e) && f !in fk
    requires (EdgeFaces(e)[0] in fk) != (EdgeFaces(e)[1] in fk)
    ensures exists g :: g in fk && f in FaceNeighbours(g)
  {
    EdgeFacesAdjacent(e);
    var g := if f == EdgeFaces(e)[0] then EdgeFaces(e)[1] else EdgeFaces(e)[0];
    assert g in fk && f in FaceNeighbours(g);
  }
}
