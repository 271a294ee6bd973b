/**
 * The Benzenoid class of nino/benzenoids.py as an arena: three maps from
 * canonical labels to the records of vertices, edges and faces (neighbour
 * labels instead of object references) and a memo cache with one optional
 * slot per memoised property.
 */
module Benzenoids {
  import opened Wrappers
  import opened Labels
  import opened Incidence
  import Traversal
  import Bec
  import opened Boundary

  /** The memo dictionary, one slot per key it can hold. */
  datatype Memo = Memo(
    perimeter: Option<seq<Lab>>,
    perimeterVertices: Option<seq<Lab>>,
    perimeterSet: Option<set<Lab>>,
    holes: Option<seq<seq<Lab>>>,
    holesVertices: Option<seq<seq<Lab>>>,
    bottomLeft: Option<Hex>)

  const EmptyMemo := Memo(None, None, None, None, None, None)

  /** The memo keys that adding a hexagon erases (properties_erased_by_add). */
  datatype Erasable = PerimeterKey | PerimeterVerticesKey | PerimeterSetKey | HolesKey | HolesVerticesKey

  const ErasedByAdd: seq<Erasable> := [PerimeterKey, PerimeterVerticesKey, PerimeterSetKey, HolesKey, HolesVerticesKey]

  /** del memo[key]. */
  function Erase(m: Memo, k: Erasable): (r: Memo)
    ensures !Holds(r, k)
    ensures forall j :: j != k ==> Holds(r, j) == Holds(m, j)
    ensures r.bottomLeft == m.bottomLeft
  {
    match k
    case PerimeterKey => m.(perimeter := None)
    case PerimeterVerticesKey => m.(perimeterVertices := None)
    case PerimeterSetKey => m.(perimeterSet := None)
    case HolesKey => m.(holes := None)
    case HolesVerticesKey => m.(holesVertices := None)
  }

  /** key in memo. */
  predicate Holds(m: Memo, k: Erasable)
  {
    match k
    case PerimeterKey => m.perimeter.Some?
    case PerimeterVerticesKey => m.perimeterVertices.Some?
    case PerimeterSetKey => m.perimeterSet.Some?
    case HolesKey => m.holes.Some?
    case HolesVerticesKey => m.holesVertices.Some?
  }

  /** Every slot of m0 that holds a value holds the same value in m1: the queries only fill empty slots. */
  predicate MemoKeeps(m0: Memo, m1: Memo)
  {
    && (m0.perimeter.Some? ==> m1.perimeter == m0.perimeter)
    && (m0.perimeterVertices.Some? ==> m1.perimeterVertices == m0.perimeterVertices)
    && (m0.perimeterSet.Some? ==> m1.perimeterSet == m0.perimeterSet)
    && (m0.holes.Some? ==> m1.holes == m0.holes)
    && (m0.holesVertices.Some? ==> m1.holesVertices == m0.holesVertices)
    && m1.bottomLeft == m0.bottomLeft
  }

  /** What the methods that fill the memo promise about each slot they fill. */
  ghost predicate MemoCoherent(ed: map<Lab, Lists>, m: Memo)
  {
    && (m.perimeter.Some? ==> IsPerimeter(ed, m.bottomLeft, m.perimeter.value))
    && (m.perimeterSet.Some? <==> m.perimeter.Some?)
    && (m.perimeterSet.Some? ==> forall e :: e in m.perimeterSet.value <==> e in m.perimeter.value)
    && (m.perimeterVertices.Some? ==>
          m.perimeter.Some? && IsCycleVertices(m.perimeter.value, m.perimeterVertices.value))
    && (m.holes.Some? ==> HolesOk(ed, PerimeterEdges(ed, m.bottomLeft), m.holes.value))
    && (m.holesVertices.Some? ==>
          && m.holes.Some?
          && |m.holesVertices.value| == |m.holes.value|
          && forall i :: 0 <= i < |m.holes.value| ==> IsCycleVertices(m.holes.value[i], m.holesVertices.value[i]))
  }

  /** IndexError('the benzenoid is empty'), and the StopIteration of is_connected on no faces. */
  datatype BenzenoidError = EmptyBenzenoid

  /**
   * The edge layer Face.__init__ collects from the fresh edge lists of the
   * new face's vertices holds every edge whose edge list the face can
   * change, and both layers hold only present labels.
   */
  lemma LayerCovers(vd: map<Lab, Lists>, vk: set<Lab>, ek: set<Lab>, fk: set<Hex>, h: Hex,
                    edgeLayer: set<Lab>, vertexLayer: set<Lab>)
    requires forall v :: v in FaceVertices(h) ==> v in vd
    requires VerticesFreshExcept(vd, vk, ek, fk, [])
    requires edgeLayer == (set w, e | w in FaceVertices(h) && e in vd[w].edges :: e) - (set e | e in FaceEdges(h))
    requires vertexLayer == (set w, u | w in FaceVertices(h) && u in vd[w].vertices :: u) - (set v | v in FaceVertices(h))
    ensures EdgeLayer(h, ek) <= edgeLayer <= ek
    ensures vertexLayer <= vk
  {
    EdgeLayerCovered(vd, vk, ek, fk, h, edgeLayer);
    EdgeLayerPresent(vd, vk, ek, fk, h, edgeLayer);
    VertexLayerPresent(vd, vk, ek, fk, h, vertexLayer);
  }

  lemma EdgeLayerCovered(vd: map<Lab, Lists>, vk: set<Lab>, ek: set<Lab>, fk: set<Hex>, h: Hex, edgeLayer: set<Lab>)
    requires forall v :: v in FaceVertices(h) ==> v in vd
    requires VerticesFreshExcept(vd, vk, ek, fk, [])
    requires edgeLayer == (set w, e | w in FaceVertices(h) && e in vd[w].edges :: e) - (set e | e in FaceEdges(h))
    ensures EdgeLayer(h, ek) <= edgeLayer
  {
    forall e | e in EdgeLayer(h, ek) ensures e in edgeLayer {
      var w :| w in FaceVertices(h) && e in Present(VertexEdges(w), ek) && e !in FaceEdges(h);
      FreshVertex(vd, vk, ek, fk, w);
      assert e in vd[w].edges;
    }
  }

  lemma EdgeLayerPresent(vd: map<Lab, Lists>, vk: set<Lab>, ek: set<Lab>, fk: set<Hex>, h: Hex, edgeLayer: set<Lab>)
    requires forall v :: v in FaceVertices(h) ==> v in vd
    requires VerticesFreshExcept(vd, vk, ek, fk, [])
    requires edgeLayer == (set w, e | w in FaceVertices(h) && e in vd[w].edges :: e) - (set e | e in FaceEdges(h))
    ensures edgeLayer <= ek
  {
    forall e | e in edgeLayer ensures e in ek {
      var w :| w in FaceVertices(h) && e in vd[w].edges;
      FreshVertex(vd, vk, ek, fk, w);
    }
  }

  lemma VertexLayerPresent(vd: map<Lab, Lists>, vk: set<Lab>, ek: set<Lab>, fk: set<Hex>, h: Hex, vertexLayer: set<Lab>)
    requires forall v :: v in FaceVertices(h) ==> v in vd
    requires VerticesFreshExcept(vd, vk, ek, fk, [])
    requires vertexLayer == (set w, u | w in FaceVertices(h) && u in vd[w].vertices :: u) - (set v | v in FaceVertices(h))
    ensures vertexLayer <= vk
  {
    forall u | u in vertexLayer ensures u in vk {
      var w :| w in FaceVertices(h) && u in vd[w].vertices;
      FreshVertex(vd, vk, ek, fk, w);
    }
  }

  lemma FreshVertex(vd: map<Lab, Lists>, vk: set<Lab>, ek: set<Lab>, fk: set<Hex>, w: Lab)
    requires w in vd && VerticesFreshExcept(vd, vk, ek, fk, [])
    ensures vd[w].edges == Present(VertexEdges(w), ek)
    ensures forall u :: u in vd[w].vertices ==> u in vk
    ensures forall e :: e in vd[w].edges ==> e in ek
  {
    assert vd[w] == VertexLists(w, vk, ek, fk);
  }

  /** Refreshing the edge list of one stale edge e leaves only the others stale. */
  lemma EdgeLayerStep(ed: map<Lab, Lists>, vk: set<Lab>, fk: set<Hex>, rest: set<Lab>, e: Lab, ed': map<Lab, Lists>)
    requires e in ed && EdgesFreshExcept(ed, vk, ed.Keys, fk, [], rest)
    requires ed' == ed[e := ed[e].(edges := Present(EdgeNeighbours(e), ed.Keys))]
    ensures ed'.Keys == ed.Keys
    ensures EdgesFreshExcept(ed', vk, ed'.Keys, fk, [], rest - {e})
  {
    KeysKept(ed, e, ed[e].(edges := Present(EdgeNeighbours(e), ed.Keys)));
    forall x | x in ed'
      ensures && ed'[x].vertices == Present(EdgeVertices(x), vk)
              && ed'[x].faces == Present(EdgeFaces(x), fk)
              && (x !in rest - {e} ==> ed'[x].edges == Present(EdgeNeighbours(x), ed.Keys))
    {
      if x == e {
        assert ed[e].vertices == Present(EdgeVertices(e), vk) && ed[e].faces == Present(EdgeFaces(e), fk);
      } else {
        assert ed'[x] == ed[x];
      }
    }
  }

  /** Refreshing the vertex list of a fresh vertex keeps it fresh. */
  lemma VertexLayerStep(vd: map<Lab, Lists>, ek: set<Lab>, fk: set<Hex>, v: Lab, vd': map<Lab, Lists>)
    requires v in vd && VerticesFreshExcept(vd, vd.Keys, ek, fk, [])
    requires vd' == vd[v := vd[v].(vertices := PresentPairs(VertexNeighbours(v), VertexEdges(v), vd.Keys, ek))]
    ensures vd'.Keys == vd.Keys
    ensures VerticesFreshExcept(vd', vd'.Keys, ek, fk, [])
  {
    var lists := VertexLists(v, vd.Keys, ek, fk);
    assert vd[v] == lists;
    assert vd[v].(vertices := lists.vertices) == vd[v];
    RewriteSame(vd, v);
  }

  /** Refreshing every list of the first stale edge leaves the rest stale. */
  lemma EdgeRefreshStep(ed: map<Lab, Lists>, vk: set<Lab>, fk: set<Hex>, stale: seq<Lab>, layer: set<Lab>, ed': map<Lab, Lists>)
    requires stale != [] && stale[0] in ed && EdgesFreshExcept(ed, vk, ed.Keys, fk, stale, layer)
    requires ed' == ed[stale[0] := EdgeLists(stale[0], vk, ed.Keys, fk)]
    ensures ed'.Keys == ed.Keys
    ensures EdgesFreshExcept(ed', vk, ed'.Keys, fk, stale[1..], layer)
  {
    var e0 := stale[0];
    KeysKept(ed, e0, EdgeLists(e0, vk, ed.Keys, fk));
    assert stale == [e0] + stale[1..];
    forall x | x in ed' && x !in stale[1..]
      ensures && ed'[x].vertices == Present(EdgeVertices(x), vk)
              && ed'[x].faces == Present(EdgeFaces(x), fk)
              && (x !in layer ==> ed'[x].edges == Present(EdgeNeighbours(x), ed.Keys))
    {
      if x == e0 {
        assert ed'[x] == EdgeLists(e0, vk, ed.Keys, fk);
      } else {
        assert x !in stale;
        assert ed'[x] == ed[x];
      }
    }
  }

  /** Refreshing every list of the first stale vertex leaves the rest stale. */
  lemma VertexRefreshStep(vd: map<Lab, Lists>, ek: set<Lab>, fk: set<Hex>, stale: seq<Lab>, vd': map<Lab, Lists>)
    requires stale != [] && stale[0] in vd && VerticesFreshExcept(vd, vd.Keys, ek, fk, stale)
    requires vd' == vd[stale[0] := VertexLists(stale[0], vd.Keys, ek, fk)]
    ensures vd'.Keys == vd.Keys
    ensures VerticesFreshExcept(vd', vd'.Keys, ek, fk, stale[1..])
  {
    KeysKept(vd, stale[0], VertexLists(stale[0], vd.Keys, ek, fk));
    var v0 := stale[0];
    assert stale == [v0] + stale[1..];
    forall x | x in vd' && x !in stale[1..] ensures vd'[x] == VertexLists(x, vd.Keys, ek, fk) {
      if x == v0 {
        assert vd'[x] == VertexLists(v0, vd.Keys, ek, fk);
      } else {
        assert x !in stale;
        assert vd'[x] == vd[x] == VertexLists(x, vd.Keys, ek, fk);
      }
    }
  }

  /** Refreshing the face list of the first stale face leaves the rest stale. */
  lemma FaceRefreshStep(fd: map<Hex, Lists>, stale: seq<Hex>, fd': map<Hex, Lists>)
    requires stale != [] && stale[0] in fd && FacesFreshExcept(fd, fd.Keys, stale)
    requires fd' == fd[stale[0] := fd[stale[0]].(faces := Present(FaceNeighbours(stale[0]), fd.Keys))]
    ensures fd'.Keys == fd.Keys
    ensures FacesFreshExcept(fd', fd'.Keys, stale[1..])
  {
    var f0, rest := stale[0], stale[1..];
    var fk := fd.Keys;
    var r0 := fd[f0].(faces := Present(FaceNeighbours(f0), fk));
    KeysKept(fd, f0, r0);
    assert stale == [f0] + rest;
    forall x | x in fd'
      ensures && fd'[x].vertices == FaceVertices(x)
              && fd'[x].edges == FaceEdges(x)
              && (x !in rest ==> fd'[x].faces == Present(FaceNeighbours(x), fd'.Keys))
    {
      assert fd[x].vertices == FaceVertices(x);
      assert x !in rest && x != f0 ==> x !in stale;
      FaceRefreshAt(fd, fd', f0, r0, rest, x);
    }
  }

  /** One face after the refresh of f0: f0 gets its recomputed list, every other face keeps its record. */
  lemma FaceRefreshAt(fd: map<Hex, Lists>, fd': map<Hex, Lists>, f0: Hex, r0: Lists, rest: seq<Hex>, x: Hex)
    requires f0 in fd && x in fd && fd' == fd[f0 := r0] && fd'.Keys == fd.Keys
    requires r0 == fd[f0].(faces := Present(FaceNeighbours(f0), fd.Keys))
    requires fd[x].vertices == FaceVertices(x) && fd[x].edges == FaceEdges(x)
    requires x != f0 && x !in rest ==> fd[x].faces == Present(FaceNeighbours(x), fd.Keys)
    ensures fd'[x].vertices == FaceVertices(x) && fd'[x].edges == FaceEdges(x)
    ensures x !in rest ==> fd'[x].faces == Present(FaceNeighbours(x), fd'.Keys)
  {
    if x == f0 {
      assert fd'[x] == r0;
    } else {
      assert fd'[x] == fd[x];
    }
  }

  lemma PrefixElements<T>(s: seq<T>, i: nat)
    requires i < |s|
    ensures forall x :: x in s[..i + 1] <==> x in s[..i] || x == s[i]
  {
    assert s[..i + 1] == s[..i] + [s[i]];
  }

  /** The vertices and edges of a face are keys. */
  lemma FaceKeysPresent(fk: set<Hex>, h: Hex)
    requires h in fk
    ensures forall v :: v in FaceVertices(h) ==> v in VertexKeys(fk)
    ensures forall e :: e in FaceEdges(h) ==> e in EdgeKeys(fk)
  {
  }

  /** After h's own face list is refreshed only its neighbours can be stale. */
  lemma OwnFaceFresh(fd: map<Hex, Lists>, h: Hex, fd': map<Hex, Lists>)
    requires h in fd && FacesFreshExcept(fd, fd.Keys, [h] + FaceNeighbours(h))
    requires fd' == fd[h := fd[h].(faces := Present(FaceNeighbours(h), fd.Keys))]
    ensures FacesFreshExcept(fd', fd'.Keys, FaceNeighbours(h))
  {
    var stale := [h] + FaceNeighbours(h);
    assert stale[0] == h && stale[1..] == FaceNeighbours(h);
    FaceRefreshStep(fd, stale, fd');
  }

  /** The keys of face_dict listed once each, in some order (face_coordinates). */
  method SetToSeq(s: set<Hex>) returns (r: seq<Hex>)
    ensures forall x :: x in r <==> x in s
    ensures Traversal.Distinct(r)
  {
    r := [];
    var rest := s;
    while rest != {}
      invariant rest <= s
      invariant forall x :: x in r <==> x in s && x !in rest
      invariant Traversal.Distinct(r)
      decreases |rest|
    {
      var x :| x in rest;
      r := r + [x];
      rest := rest - {x};
    }
  }

  /** An edge exists only beside a face. */
  lemma EdgesNeedFaces(vd: map<Lab, Lists>, ed: map<Lab, Lists>, fd: map<Hex, Lists>, e: Lab)
    requires ArenaValid(vd, ed, fd) && e in ed
    ensures fd != map[]
  {
    EdgeHasFace(fd.Keys, e);
    assert EdgeFaces(e)[0] in fd.Keys || EdgeFaces(e)[1] in fd.Keys;
  }

  /** The search of perimeter: depth-first over boundary edges from edge 4 of the bottom-left face. */
  method PerimeterSearch(vd: map<Lab, Lists>, ed: map<Lab, Lists>, fd: map<Hex, Lists>, bl: Option<Hex>, e: Lab)
    returns (p: seq<Lab>)
    requires ArenaValid(vd, ed, fd) && BottomLeftOk(fd.Keys, bl) && bl.Some? && e == FaceEdge(bl.value, 4)
    ensures IsPerimeter(ed, bl, p)
    ensures forall t :: t in p ==> IsBoundary(ed, t)
    ensures forall t :: t in p <==> t in PerimeterEdges(ed, bl)
  {
    p := Traversal.Dfs(BoundaryGraph(ed), e);
    PerimeterIsBoundary(vd, ed, fd, bl, p);
  }

  /** Filling the perimeter slots with a perimeter search keeps the memo coherent. */
  lemma PerimeterMemo(ed: map<Lab, Lists>, m: Memo, p: seq<Lab>, ps: set<Lab>)
    requires MemoCoherent(ed, m) && m.perimeter.None? && IsPerimeter(ed, m.bottomLeft, p)
    requires forall t :: t in ps <==> t in p
    ensures MemoCoherent(ed, m.(perimeter := Some(p), perimeterSet := Some(ps)))
    ensures MemoKeeps(m, m.(perimeter := Some(p), perimeterSet := Some(ps)))
  {
  }

  /** The edges of the holes are present and carry their two endpoints. */
  lemma HoleEdgesPresent(vd: map<Lab, Lists>, ed: map<Lab, Lists>, fd: map<Hex, Lists>,
                         pset: set<Lab>, holes: seq<seq<Lab>>)
    requires ArenaValid(vd, ed, fd) && HolesOk(ed, pset, holes)
    ensures forall i, e :: 0 <= i < |holes| && e in holes[i] ==> e in ed && ed[e].vertices == EdgeVertices(e)
  {
    forall i, e | 0 <= i < |holes| && e in holes[i] ensures e in ed && ed[e].vertices == EdgeVertices(e) {
      assert IsBoundary(ed, e);
      EdgeHasTwoVertices(vd, ed, fd, e);
    }
  }

  /** The vertices chosen along the holes of a valid arena are present. */
  lemma HoleVerticesPresent(vd: map<Lab, Lists>, ed: map<Lab, Lists>, fd: map<Hex, Lists>,
                            holes: seq<seq<Lab>>, r: seq<seq<Lab>>)
    requires ArenaValid(vd, ed, fd) && |r| == |holes|
    requires forall i, e :: 0 <= i < |holes| && e in holes[i] ==> e in ed
    requires forall i :: 0 <= i < |holes| ==> IsCycleVertices(holes[i], r[i])
    ensures forall i, v :: 0 <= i < |r| && v in r[i] ==> v in vd
  {
    forall i | 0 <= i < |r| ensures forall v :: v in r[i] ==> v in vd {
      CycleVerticesPresent(vd, ed, fd, holes[i], r[i]);
    }
  }

  /** Two degree-3 vertices in a row on the perimeter put a '1' in the code. */
  lemma AdjacentThreesNotConvex(vd: map<Lab, Lists>, vs: seq<Lab>, i: nat)
    requires forall v :: v in vs ==> v in vd && |vd[v].vertices| <= 3
    requires i + 1 < |vs| && |vd[vs[i]].vertices| == 3 && |vd[vs[i + 1]].vertices| == 3
    ensures '1' in Bec.Code(DegreeString(vd, vs))
  {
    DegreeStringDigits(vd, vs);
    Bec.AdjacentDegreeThreeNotConvex(DegreeString(vd, vs), i);
  }

  /** The last and first perimeter vertices are adjacent too: two degree-3 vertices there put a '1' in the code. */
  lemma WrapThreesNotConvex(vd: map<Lab, Lists>, vs: seq<Lab>)
    requires forall v :: v in vs ==> v in vd && |vd[v].vertices| <= 3
    requires |vs| >= 2 && |vd[vs[0]].vertices| == 3 && |vd[vs[|vs| - 1]].vertices| == 3
    ensures '1' in Bec.Code(DegreeString(vd, vs))
  {
    DegreeStringDigits(vd, vs);
    Bec.WrapDegreeThreeNotConvex(DegreeString(vd, vs));
  }

  /** A perimeter with no degree-3 vertex (benzene) has code "6", which is convex. */
  lemma NoThreesConvex(vd: map<Lab, Lists>, vs: seq<Lab>)
    requires forall v :: v in vs ==> v in vd && |vd[v].vertices| == 2
    ensures Bec.Code(DegreeString(vd, vs)) == "6"
  {
    DegreeStringDigits(vd, vs);
    var ds := DegreeString(vd, vs);
    forall k | 0 <= k < |ds| ensures ds[k] != '3' {
      assert vs[k] in vs;
    }
  }

  /** The two convexity facts of is_convex, for a sequence of vertices of a valid arena. */
  lemma ConvexityOfDegrees(vd: map<Lab, Lists>, ed: map<Lab, Lists>, fd: map<Hex, Lists>, vs: seq<Lab>)
    requires ArenaValid(vd, ed, fd) && forall v :: v in vs ==> v in vd
    ensures forall i :: 0 <= i < |vs| - 1 && |vd[vs[i]].vertices| == 3 && |vd[vs[i + 1]].vertices| == 3 ==>
              '1' in Bec.Code(DegreeString(vd, vs))
    ensures |vs| >= 2 && |vd[vs[0]].vertices| == 3 && |vd[vs[|vs| - 1]].vertices| == 3 ==>
              '1' in Bec.Code(DegreeString(vd, vs))
    ensures (forall v :: v in vs ==> |vd[v].vertices| == 2) ==> Bec.Code(DegreeString(vd, vs)) == "6"
  {
    forall v | v in vs ensures |vd[v].vertices| <= 3 {
      VertexDegreeBound(vd, ed, fd, v);
    }
    forall i | 0 <= i < |vs| - 1 && |vd[vs[i]].vertices| == 3 && |vd[vs[i + 1]].vertices| == 3
      ensures '1' in Bec.Code(DegreeString(vd, vs))
    {
      AdjacentThreesNotConvex(vd, vs, i);
    }
    if |vs| >= 2 && |vd[vs[0]].vertices| == 3 && |vd[vs[|vs| - 1]].vertices| == 3 {
      WrapThreesNotConvex(vd, vs);
    }
    if forall v :: v in vs ==> |vd[v].vertices| == 2 {
      NoThreesConvex(vd, vs);
    }
  }

  /** Writing a present key keeps the key set. */
  lemma KeysKept<K, V>(m: map<K, V>, k: K, v: V)
    requires k in m
    ensures m[k := v].Keys == m.Keys
  {
  }

  /** Writing back the value a key holds changes nothing. */
  lemma RewriteSame<K, V>(m: map<K, V>, k: K)
    requires k in m
    ensures m[k := m[k]] == m
  {
  }

  /** A second write to the same key replaces the first. */
  lemma Overwrite<K, V>(m: map<K, V>, k: K, v: V, w: V)
    ensures m[k := v][k := w] == m[k := w]
  {
  }

  /** The three update methods of an edge together recompute its record. */
  lemma EdgeUpdatesCompose(ed0: map<Lab, Lists>, ed1: map<Lab, Lists>, ed2: map<Lab, Lists>, ed3: map<Lab, Lists>,
                           e: Lab, vk: set<Lab>, fk: set<Hex>)
    requires e in ed0
    requires ed1 == ed0[e := ed0[e].(vertices := Present(EdgeVertices(e), vk))]
    requires ed2 == ed1[e := ed1[e].(edges := Present(EdgeNeighbours(e), ed1.Keys))]
    requires ed3 == ed2[e := ed2[e].(faces := Present(EdgeFaces(e), fk))]
    ensures ed3 == ed0[e := EdgeLists(e, vk, ed0.Keys, fk)]
  {
    var lists := EdgeLists(e, vk, ed0.Keys, fk);
    KeysKept(ed0, e, ed1[e]);
    var r1 := ed0[e].(vertices := lists.vertices);
    var r2 := r1.(edges := lists.edges);
    Overwrite(ed0, e, r1, r2);
    Overwrite(ed0, e, r2, lists);
  }

  /** The three update methods of a vertex together recompute its record. */
  lemma VertexUpdatesCompose(vd0: map<Lab, Lists>, vd1: map<Lab, Lists>, vd2: map<Lab, Lists>, vd3: map<Lab, Lists>,
                             v: Lab, ek: set<Lab>, fk: set<Hex>)
    requires v in vd0
    requires vd1 == vd0[v := vd0[v].(vertices := PresentPairs(VertexNeighbours(v), VertexEdges(v), vd0.Keys, ek))]
    requires vd2 == vd1[v := vd1[v].(edges := Present(VertexEdges(v), ek))]
    requires vd3 == vd2[v := vd2[v].(faces := Present(VertexFaces(v), fk))]
    ensures vd3 == vd0[v := VertexLists(v, vd0.Keys, ek, fk)]
  {
    var lists := VertexLists(v, vd0.Keys, ek, fk);
    var r1 := vd0[v].(vertices := lists.vertices);
    var r2 := r1.(edges := lists.edges);
    Overwrite(vd0, v, r1, r2);
    Overwrite(vd0, v, r2, lists);
  }

  class Benzenoid {
    var vertexDict: map<Lab, Lists>
    var edgeDict: map<Lab, Lists>
    var faceDict: map<Hex, Lists>
    var memo: Memo

    ghost predicate Valid()
      reads this
    {
      && ArenaValid(vertexDict, edgeDict, faceDict)
      && BottomLeftOk(faceDict.Keys, memo.bottomLeft)
      && MemoCoherent(edgeDict, memo)
    }

    /** Benzenoid.__init__: start empty and add the hexagons one by one. */
    constructor (hexagons: seq<Hex>)
      ensures Valid()
      ensures faceDict.Keys == set h | h in hexagons
      ensures memo == EmptyMemo.(bottomLeft := memo.bottomLeft)
    {
      vertexDict, edgeDict, faceDict := map[], map[], map[];
      memo := EmptyMemo;
      new;
      EmptyArena();
      var i := 0;
      while i < |hexagons|
        invariant 0 <= i <= |hexagons|
        invariant Valid()
        invariant faceDict.Keys == set h | h in hexagons[..i]
        invariant memo == EmptyMemo.(bottomLeft := memo.bottomLeft)
      {
        AddHexagon(hexagons[i]);
        PrefixElements(hexagons, i);
        i := i + 1;
      }
      assert hexagons[..i] == hexagons;
    }

    /** get_h: the number of hexagons; zero exactly when there is no bottom-left hexagon. */
    method GetH() returns (r: nat)
      requires Valid()
      ensures r == |faceDict|
      ensures r == 0 <==> memo.bottomLeft.None?
    {
      r := |faceDict|;
    }

    /** get_n: the number of vertices; a non-empty benzenoid has at least the six of one hexagon. */
    method GetN() returns (r: nat)
      requires Valid()
      ensures r == |vertexDict|
      ensures faceDict == map[] ==> r == 0
      ensures faceDict != map[] ==> r >= 6
    {
      r := |vertexDict|;
      if faceDict != map[] {
        var h :| h in faceDict;
        AtLeastOneHexagon(faceDict.Keys, h);
      }
    }

    /** get_m: the number of edges; a non-empty benzenoid has at least the six of one hexagon. */
    method GetM() returns (r: nat)
      requires Valid()
      ensures r == |edgeDict|
      ensures faceDict == map[] ==> r == 0
      ensures faceDict != map[] ==> r >= 6
    {
      r := |edgeDict|;
      if faceDict != map[] {
        var h :| h in faceDict;
        AtLeastOneHexagon(faceDict.Keys, h);
      }
    }

    /** Benzenoid._update_bottom_left_hexagon. */
    method UpdateBottomLeftHexagon(h: Hex)
      modifies this`memo
      ensures memo == old(memo).(bottomLeft := Some(NextBottomLeft(old(memo.bottomLeft), h)))
    {
      if memo.bottomLeft.None? {
        memo := memo.(bottomLeft := Some(h));
      } else {
        var cur := memo.bottomLeft.value;
        if h.eta < cur.eta || (h.eta == cur.eta && h.xi < cur.xi) {
          memo := memo.(bottomLeft := Some(h));
        }
      }
    }

    /** get_bottom_left_hexagon: the face minimal by (eta, xi), or an error on an empty benzenoid. */
    method GetBottomLeftHexagon() returns (r: Result<Hex, BenzenoidError>)
      requires Valid()
      ensures r.Err? <==> faceDict == map[]
      ensures r.Ok? ==> IsBottomLeft(faceDict.Keys, r.value) && memo.bottomLeft == Some(r.value)
    {
      if memo.bottomLeft.None? {
        return Err(EmptyBenzenoid);
      }
      r := Ok(memo.bottomLeft.value);
    }

    /**
     * add_hexagon: a new label gets a face and may become the bottom-left
     * hexagon; a present one changes nothing. Either way the erasable memo
     * keys are deleted.
     */
    method AddHexagon(h: Hex)
      requires Valid()
      modifies this
      ensures Valid()
      ensures faceDict.Keys == old(faceDict.Keys) + {h}
      ensures h in old(faceDict) ==>
                vertexDict == old(vertexDict) && edgeDict == old(edgeDict) && faceDict == old(faceDict)
      ensures memo.bottomLeft == if h in old(faceDict) then old(memo.bottomLeft)
                                 else Some(NextBottomLeft(old(memo.bottomLeft), h))
      ensures memo == EmptyMemo.(bottomLeft := memo.bottomLeft)
    {
      if h !in faceDict {
        BottomLeftStep(faceDict.Keys, memo.bottomLeft, h);
        AddFace(h);
        UpdateBottomLeftHexagon(h);
      }
      EraseMemo();
    }

    /** The loop of add_hexagon over properties_erased_by_add. */
    method EraseMemo()
      modifies this`memo
      ensures memo == EmptyMemo.(bottomLeft := old(memo.bottomLeft))
    {
      for i := 0 to |ErasedByAdd|
        invariant memo.bottomLeft == old(memo.bottomLeft)
        invariant forall j :: 0 <= j < i ==> !Holds(memo, ErasedByAdd[j])
      {
        if Holds(memo, ErasedByAdd[i]) {
          memo := Erase(memo, ErasedByAdd[i]);
        }
      }
      assert !Holds(memo, ErasedByAdd[0]) && !Holds(memo, ErasedByAdd[1]) && !Holds(memo, ErasedByAdd[2]);
      assert !Holds(memo, ErasedByAdd[3]) && !Holds(memo, ErasedByAdd[4]);
    }

    /*
     * The update methods of Edge and Vertex, and Face.update_face_list: each
     * recomputes one list from the keys present now.
     */

    /** Edge.update_vertex_list. */
    method UpdateEdgeVertexList(e: Lab)
      requires e in edgeDict
      modifies this`edgeDict
      ensures edgeDict == old(edgeDict)[e := old(edgeDict)[e].(vertices := Present(EdgeVertices(e), vertexDict.Keys))]
    {
      edgeDict := edgeDict[e := edgeDict[e].(vertices := Present(EdgeVertices(e), vertexDict.Keys))];
    }

    /** Edge.update_edge_list. */
    method UpdateEdgeEdgeList(e: Lab)
      requires e in edgeDict
      modifies this`edgeDict
      ensures edgeDict == old(edgeDict)[e := old(edgeDict)[e].(edges := Present(EdgeNeighbours(e), old(edgeDict).Keys))]
    {
      edgeDict := edgeDict[e := edgeDict[e].(edges := Present(EdgeNeighbours(e), edgeDict.Keys))];
    }

    /** Edge.update_face_list. */
    method UpdateEdgeFaceList(e: Lab)
      requires e in edgeDict
      modifies this`edgeDict
      ensures edgeDict == old(edgeDict)[e := old(edgeDict)[e].(faces := Present(EdgeFaces(e), faceDict.Keys))]
    {
      edgeDict := edgeDict[e := edgeDict[e].(faces := Present(EdgeFaces(e), faceDict.Keys))];
    }

    /** Edge.update_every_list: the edge's record becomes its recomputation. */
    method UpdateEdgeEveryList(e: Lab)
      requires e in edgeDict
      modifies this`edgeDict
      ensures edgeDict == old(edgeDict)[e := EdgeLists(e, vertexDict.Keys, old(edgeDict).Keys, faceDict.Keys)]
    {
      ghost var ed0 := edgeDict;
      UpdateEdgeVertexList(e);
      ghost var ed1 := edgeDict;
      UpdateEdgeEdgeList(e);
      ghost var ed2 := edgeDict;
      UpdateEdgeFaceList(e);
      EdgeUpdatesCompose(ed0, ed1, ed2, edgeDict, e, vertexDict.Keys, faceDict.Keys);
    }

    /** Vertex.update_vertex_list: a neighbour counts only when the edge to it exists too. */
    method UpdateVertexVertexList(v: Lab)
      requires v in vertexDict
      modifies this`vertexDict
      ensures vertexDict == old(vertexDict)[v := old(vertexDict)[v].(vertices :=
                PresentPairs(VertexNeighbours(v), VertexEdges(v), old(vertexDict).Keys, edgeDict.Keys))]
    {
      vertexDict := vertexDict[v := vertexDict[v].(vertices :=
                      PresentPairs(VertexNeighbours(v), VertexEdges(v), vertexDict.Keys, edgeDict.Keys))];
    }

    /** Vertex.update_edge_list. */
    method UpdateVertexEdgeList(v: Lab)
      requires v in vertexDict
      modifies this`vertexDict
      ensures vertexDict == old(vertexDict)[v := old(vertexDict)[v].(edges := Present(VertexEdges(v), edgeDict.Keys))]
    {
      vertexDict := vertexDict[v := vertexDict[v].(edges := Present(VertexEdges(v), edgeDict.Keys))];
    }

    /** Vertex.update_face_list. */
    method UpdateVertexFaceList(v: Lab)
      requires v in vertexDict
      modifies this`vertexDict
      ensures vertexDict == old(vertexDict)[v := old(vertexDict)[v].(faces := Present(VertexFaces(v), faceDict.Keys))]
    {
      vertexDict := vertexDict[v := vertexDict[v].(faces := Present(VertexFaces(v), faceDict.Keys))];
    }

    /** Vertex.update_every_list: the vertex's record becomes its recomputation. */
    method UpdateVertexEveryList(v: Lab)
      requires v in vertexDict
      modifies this`vertexDict
      ensures vertexDict == old(vertexDict)[v := VertexLists(v, old(vertexDict).Keys, edgeDict.Keys, faceDict.Keys)]
    {
      ghost var vd0 := vertexDict;
      UpdateVertexVertexList(v);
      ghost var vd1 := vertexDict;
      UpdateVertexEdgeList(v);
      ghost var vd2 := vertexDict;
      UpdateVertexFaceList(v);
      VertexUpdatesCompose(vd0, vd1, vd2, vertexDict, v, edgeDict.Keys, faceDict.Keys);
    }

    /** Face.update_face_list. */
    method UpdateFaceFaceList(f: Hex)
      requires f in faceDict
      modifies this`faceDict
      ensures faceDict == old(faceDict)[f := old(faceDict)[f].(faces := Present(FaceNeighbours(f), old(faceDict).Keys))]
    {
      faceDict := faceDict[f := faceDict[f].(faces := Present(FaceNeighbours(f), faceDict.Keys))];
    }

    /*
     * Face.__init__.
     */

    /** Face.__init__: register h, create its missing vertices and edges, then refresh around it. */
    method AddFace(h: Hex)
      requires ArenaValid(vertexDict, edgeDict, faceDict) && h !in faceDict
      modifies this`vertexDict, this`edgeDict, this`faceDict
      ensures ArenaValid(vertexDict, edgeDict, faceDict)
      ensures faceDict.Keys == old(faceDict.Keys) + {h}
    {
      ghost var vd0, ed0, fd0 := vertexDict, edgeDict, faceDict;
      CreateFace(h);
      InsertFace(vd0, ed0, fd0, h, vertexDict, edgeDict, faceDict);
      RefreshAround(h);
      FreshIsValid(vertexDict, edgeDict, faceDict);
    }

    /** The first half of Face.__init__: h is registered and its vertices and edges exist. */
    method CreateFace(h: Hex)
      requires h !in faceDict
      modifies this`vertexDict, this`edgeDict, this`faceDict
      ensures vertexDict.Keys == old(vertexDict.Keys) + (set v | v in FaceVertices(h))
      ensures edgeDict.Keys == old(edgeDict.Keys) + (set e | e in FaceEdges(h))
      ensures faceDict.Keys == old(faceDict.Keys) + {h}
      ensures forall v :: v in old(vertexDict) ==> vertexDict[v] == old(vertexDict)[v]
      ensures forall e :: e in old(edgeDict) ==> edgeDict[e] == old(edgeDict)[e]
      ensures forall f :: f in old(faceDict) ==> faceDict[f] == old(faceDict)[f]
      ensures faceDict[h] == Lists(FaceVertices(h), FaceEdges(h), [])
    {
      faceDict := faceDict[h := NoLists];
      var vs := CreateVertices(h);
      var es := CreateEdges(h);
      faceDict := faceDict[h := Lists(vs, es, [])];
    }

    /**
     * The second half of Face.__init__: the refresh cascade, after which
     * nothing is stale.
     */
    method RefreshAround(h: Hex)
      requires h in faceDict && faceDict[h] == Lists(FaceVertices(h), FaceEdges(h), [])
      requires vertexDict.Keys == VertexKeys(faceDict.Keys) && edgeDict.Keys == EdgeKeys(faceDict.Keys)
      requires VerticesFreshExcept(vertexDict, vertexDict.Keys, edgeDict.Keys, faceDict.Keys, FaceVertices(h))
      requires EdgesFreshExcept(edgeDict, vertexDict.Keys, edgeDict.Keys, faceDict.Keys, FaceEdges(h), EdgeLayer(h, edgeDict.Keys))
      requires FacesFreshExcept(faceDict, faceDict.Keys, [h] + FaceNeighbours(h))
      modifies this`vertexDict, this`edgeDict, this`faceDict
      ensures vertexDict.Keys == old(vertexDict.Keys) && edgeDict.Keys == old(edgeDict.Keys)
      ensures faceDict.Keys == old(faceDict.Keys)
      ensures VerticesFreshExcept(vertexDict, vertexDict.Keys, edgeDict.Keys, faceDict.Keys, [])
      ensures EdgesFreshExcept(edgeDict, vertexDict.Keys, edgeDict.Keys, faceDict.Keys, [], {})
      ensures FacesFreshExcept(faceDict, faceDict.Keys, [])
    {
      var vs, es := faceDict[h].vertices, faceDict[h].edges;
      FaceKeysPresent(faceDict.Keys, h);
      RefreshOwnFace(h);
      RefreshEdges(es, EdgeLayer(h, edgeDict.Keys));
      RefreshVertices(vs);
      RefreshNeighbourFaces(faceDict[h].faces);
      RefreshLayers(h);
    }

    /** The vertex loop of Face.__init__: reuse each vertex of h, or create it with empty lists. */
    method CreateVertices(h: Hex) returns (vs: seq<Lab>)
      modifies this`vertexDict
      ensures vs == FaceVertices(h)
      ensures vertexDict.Keys == old(vertexDict.Keys) + (set v | v in FaceVertices(h))
      ensures forall v :: v in old(vertexDict) ==> vertexDict[v] == old(vertexDict)[v]
    {
      vs := [];
      for nu := 0 to 6
        invariant vs == FaceVertices(h)[..nu]
        invariant vertexDict.Keys == old(vertexDict.Keys) + (set v | v in vs)
        invariant forall v :: v in old(vertexDict) ==> vertexDict[v] == old(vertexDict)[v]
      {
        var v := CanonicalVertexLabel(Lab(h.xi, h.eta, nu)).value;
        if v !in vertexDict {
          vertexDict := vertexDict[v := NoLists];
        }
        vs := vs + [v];
      }
    }

    /** The edge loop of Face.__init__: reuse each edge of h, or create it with empty lists. */
    method CreateEdges(h: Hex) returns (es: seq<Lab>)
      modifies this`edgeDict
      ensures es == FaceEdges(h)
      ensures edgeDict.Keys == old(edgeDict.Keys) + (set e | e in FaceEdges(h))
      ensures forall e :: e in old(edgeDict) ==> edgeDict[e] == old(edgeDict)[e]
    {
      es := [];
      for nu := 0 to 6
        invariant es == FaceEdges(h)[..nu]
        invariant edgeDict.Keys == old(edgeDict.Keys) + (set e | e in es)
        invariant forall e :: e in old(edgeDict) ==> edgeDict[e] == old(edgeDict)[e]
      {
        var e := CanonicalEdgeLabel(Lab(h.xi, h.eta, nu)).value;
        if e !in edgeDict {
          edgeDict := edgeDict[e := NoLists];
        }
        es := es + [e];
      }
    }

    /** self.update_face_list() on the new face; afterwards only the faces it lists can be stale. */
    method RefreshOwnFace(h: Hex)
      requires h in faceDict && FacesFreshExcept(faceDict, faceDict.Keys, [h] + FaceNeighbours(h))
      modifies this`faceDict
      ensures faceDict.Keys == old(faceDict.Keys)
      ensures faceDict[h].faces == Present(FaceNeighbours(h), faceDict.Keys)
      ensures FacesFreshExcept(faceDict, faceDict.Keys, faceDict[h].faces)
    {
      UpdateFaceFaceList(h);
      OwnFaceFresh(old(faceDict), h, faceDict);
      FacesStaleNarrow(faceDict, h);
    }

    /** Force the listed edges to refresh every list. */
    method RefreshEdges(es: seq<Lab>, ghost layer: set<Lab>)
      requires forall e :: e in es ==> e in edgeDict
      requires EdgesFreshExcept(edgeDict, vertexDict.Keys, edgeDict.Keys, faceDict.Keys, es, layer)
      modifies this`edgeDict
      ensures edgeDict.Keys == old(edgeDict.Keys)
      ensures EdgesFreshExcept(edgeDict, vertexDict.Keys, edgeDict.Keys, faceDict.Keys, [], layer)
    {
      for i := 0 to |es|
        invariant edgeDict.Keys == old(edgeDict.Keys)
        invariant EdgesFreshExcept(edgeDict, vertexDict.Keys, edgeDict.Keys, faceDict.Keys, es[i..], layer)
      {
        ghost var before := edgeDict;
        UpdateEdgeEveryList(es[i]);
        EdgeRefreshStep(before, vertexDict.Keys, faceDict.Keys, es[i..], layer, edgeDict);
      }
    }

    /** Force the listed vertices to refresh every list. */
    method RefreshVertices(vs: seq<Lab>)
      requires forall v :: v in vs ==> v in vertexDict
      requires VerticesFreshExcept(vertexDict, vertexDict.Keys, edgeDict.Keys, faceDict.Keys, vs)
      modifies this`vertexDict
      ensures vertexDict.Keys == old(vertexDict.Keys)
      ensures VerticesFreshExcept(vertexDict, vertexDict.Keys, edgeDict.Keys, faceDict.Keys, [])
    {
      for i := 0 to |vs|
        invariant vertexDict.Keys == old(vertexDict.Keys)
        invariant VerticesFreshExcept(vertexDict, vertexDict.Keys, edgeDict.Keys, faceDict.Keys, vs[i..])
      {
        ghost var before := vertexDict;
        UpdateVertexEveryList(vs[i]);
        VertexRefreshStep(before, edgeDict.Keys, faceDict.Keys, vs[i..], vertexDict);
      }
    }

    /** Force the listed faces to refresh their face lists. */
    method RefreshNeighbourFaces(fs: seq<Hex>)
      requires forall f :: f in fs ==> f in faceDict
      requires FacesFreshExcept(faceDict, faceDict.Keys, fs)
      modifies this`faceDict
      ensures faceDict.Keys == old(faceDict.Keys)
      ensures FacesFreshExcept(faceDict, faceDict.Keys, [])
    {
      for i := 0 to |fs|
        invariant faceDict.Keys == old(faceDict.Keys)
        invariant FacesFreshExcept(faceDict, faceDict.Keys, fs[i..])
      {
        ghost var before := faceDict;
        UpdateFaceFaceList(fs[i]);
        FaceRefreshStep(before, fs[i..], faceDict);
      }
    }

    /**
     * The outer layer of Face.__init__: the edges at the new face's vertices
     * refresh their edge lists, and the vertices next to them their vertex
     * lists.
     */
    method RefreshLayers(h: Hex)
      requires h in faceDict && faceDict[h].vertices == FaceVertices(h) && faceDict[h].edges == FaceEdges(h)
      requires forall v :: v in FaceVertices(h) ==> v in vertexDict
      requires VerticesFreshExcept(vertexDict, vertexDict.Keys, edgeDict.Keys, faceDict.Keys, [])
      requires EdgesFreshExcept(edgeDict, vertexDict.Keys, edgeDict.Keys, faceDict.Keys, [], EdgeLayer(h, edgeDict.Keys))
      modifies this`vertexDict, this`edgeDict
      ensures vertexDict.Keys == old(vertexDict.Keys) && edgeDict.Keys == old(edgeDict.Keys)
      ensures VerticesFreshExcept(vertexDict, vertexDict.Keys, edgeDict.Keys, faceDict.Keys, [])
      ensures EdgesFreshExcept(edgeDict, vertexDict.Keys, edgeDict.Keys, faceDict.Keys, [], {})
    {
      var edgeLayer, vertexLayer := CollectLayers(faceDict[h].vertices, faceDict[h].edges);
      LayerCovers(vertexDict, vertexDict.Keys, edgeDict.Keys, faceDict.Keys, h, edgeLayer, vertexLayer);
      EdgesStaleWiden(edgeDict, vertexDict.Keys, edgeDict.Keys, faceDict.Keys, EdgeLayer(h, edgeDict.Keys), edgeLayer);
      RefreshEdgeLayer(edgeLayer);
      RefreshVertexLayer(vertexLayer);
    }

    /** The edges at the vertices vs and the vertices next to them, leaving out es and vs themselves. */
    method CollectLayers(vs: seq<Lab>, es: seq<Lab>) returns (edgeLayer: set<Lab>, vertexLayer: set<Lab>)
      requires forall v :: v in vs ==> v in vertexDict
      ensures edgeLayer == (set w, e | w in vs && e in vertexDict[w].edges :: e) - (set e | e in es)
      ensures vertexLayer == (set w, u | w in vs && u in vertexDict[w].vertices :: u) - (set v | v in vs)
    {
      edgeLayer, vertexLayer := {}, {};
      for i := 0 to |vs|
        invariant edgeLayer == set w, e | w in vs[..i] && e in vertexDict[w].edges :: e
        invariant vertexLayer == set w, u | w in vs[..i] && u in vertexDict[w].vertices :: u
      {
        assert vs[..i + 1] == vs[..i] + [vs[i]];
        edgeLayer := edgeLayer + (set e | e in vertexDict[vs[i]].edges);
        vertexLayer := vertexLayer + (set u | u in vertexDict[vs[i]].vertices);
      }
      assert vs[..|vs|] == vs;
      edgeLayer := edgeLayer - (set e | e in es);
      vertexLayer := vertexLayer - (set v | v in vs);
    }

    /** for edge in edge_layer: edge.update_edge_list(), in no particular order. */
    method RefreshEdgeLayer(layer: set<Lab>)
      requires layer <= edgeDict.Keys
      requires EdgesFreshExcept(edgeDict, vertexDict.Keys, edgeDict.Keys, faceDict.Keys, [], layer)
      modifies this`edgeDict
      ensures edgeDict.Keys == old(edgeDict.Keys)
      ensures EdgesFreshExcept(edgeDict, vertexDict.Keys, edgeDict.Keys, faceDict.Keys, [], {})
    {
      var rest := layer;
      while rest != {}
        invariant edgeDict.Keys == old(edgeDict.Keys)
        invariant rest <= edgeDict.Keys
        invariant EdgesFreshExcept(edgeDict, vertexDict.Keys, edgeDict.Keys, faceDict.Keys, [], rest)
        decreases rest
      {
        var e :| e in rest;
        RefreshLayerEdge(e, rest);
        rest := rest - {e};
      }
    }

    /** One edge of the edge layer refreshes its edge list. */
    method RefreshLayerEdge(e: Lab, ghost rest: set<Lab>)
      requires e in edgeDict
      requires EdgesFreshExcept(edgeDict, vertexDict.Keys, edgeDict.Keys, faceDict.Keys, [], rest)
      modifies this`edgeDict
      ensures edgeDict.Keys == old(edgeDict.Keys)
      ensures EdgesFreshExcept(edgeDict, vertexDict.Keys, edgeDict.Keys, faceDict.Keys, [], rest - {e})
    {
      ghost var before := edgeDict;
      UpdateEdgeEdgeList(e);
      EdgeLayerStep(before, vertexDict.Keys, faceDict.Keys, rest, e, edgeDict);
    }

    /** for vertex in vertex_layer: vertex.update_vertex_list(); these records are already fresh. */
    method RefreshVertexLayer(layer: set<Lab>)
      requires layer <= vertexDict.Keys
      requires VerticesFreshExcept(vertexDict, vertexDict.Keys, edgeDict.Keys, faceDict.Keys, [])
      modifies this`vertexDict
      ensures vertexDict.Keys == old(vertexDict.Keys)
      ensures VerticesFreshExcept(vertexDict, vertexDict.Keys, edgeDict.Keys, faceDict.Keys, [])
    {
      var rest := layer;
      while rest != {}
        invariant vertexDict.Keys == old(vertexDict.Keys)
        invariant rest <= vertexDict.Keys
        invariant VerticesFreshExcept(vertexDict, vertexDict.Keys, edgeDict.Keys, faceDict.Keys, [])
        decreases rest
      {
        var v :| v in rest;
        RefreshLayerVertex(v);
        rest := rest - {v};
      }
    }

    /** One vertex of the vertex layer refreshes its vertex list. */
    method RefreshLayerVertex(v: Lab)
      requires v in vertexDict
      requires VerticesFreshExcept(vertexDict, vertexDict.Keys, edgeDict.Keys, faceDict.Keys, [])
      modifies this`vertexDict
      ensures vertexDict.Keys == old(vertexDict.Keys)
      ensures VerticesFreshExcept(vertexDict, vertexDict.Keys, edgeDict.Keys, faceDict.Keys, [])
    {
      ghost var before := vertexDict;
      UpdateVertexVertexList(v);
      VertexLayerStep(before, edgeDict.Keys, faceDict.Keys, v, vertexDict);
    }

    /*
     * Queries.
     */

    /** Face.get_incident_edge: edge nu of face h exists, is listed by h and lists h back. */
    function IncidentEdge(h: Hex, nu: int): (r: Result<Lab, LabelError>)
      reads this
      requires Valid() && h in faceDict
      ensures r.Ok? <==> 0 <= nu <= 5
      ensures r.Ok? ==> r.value == FaceEdge(h, nu)
      ensures r.Ok? ==> r.value in edgeDict && r.value in faceDict[h].edges && h in edgeDict[r.value].faces
    {
      match CanonicalEdgeLabel(Lab(h.xi, h.eta, nu))
      case Err(error) => Err(error)
      case Ok(e) =>
        IncidentEdgeListed(vertexDict, edgeDict, faceDict, h, nu);
        Ok(e)
    }

    /**
     * Vertex.get_degree: the number of neighbours joined to the vertex by a
     * present edge, which is the number of present incident edges, two or three.
     */
    function Degree(v: Lab): (r: nat)
      reads this
      requires Valid() && v in vertexDict
      ensures 2 <= r <= 3
      ensures r == |Present(VertexEdges(v), edgeDict.Keys)|
    {
      DegreeIsPresentEdges(vertexDict, edgeDict, faceDict, v);
      VertexDegreeBound(vertexDict, edgeDict, faceDict, v);
      VertexDegreeAtLeastTwo(vertexDict, edgeDict, faceDict, v);
      |vertexDict[v].vertices|
    }

    /**
     * perimeter: a depth-first search over boundary edges from edge 4 of
     * the bottom-left hexagon, memoised with the set of its labels. Its
     * edges are boundary edges, and as a set they are the perimeter edges.
     */
    method Perimeter() returns (r: Result<seq<Lab>, BenzenoidError>)
      requires Valid()
      modifies this`memo
      ensures Valid()
      ensures r.Err? <==> faceDict == map[]
      ensures r.Ok? ==> IsPerimeter(edgeDict, memo.bottomLeft, r.value)
      ensures r.Ok? ==> forall t :: t in r.value ==> IsBoundary(edgeDict, t)
      ensures r.Ok? ==> forall t :: t in r.value <==> t in PerimeterEdges(edgeDict, memo.bottomLeft)
      ensures r.Ok? ==> memo.perimeter == Some(r.value) && memo.perimeterSet.Some?
      ensures old(memo.perimeter).Some? ==> r == Ok(old(memo.perimeter).value)
      ensures memo.(perimeter := old(memo.perimeter), perimeterSet := old(memo.perimeterSet)) == old(memo)
      ensures MemoKeeps(old(memo), memo)
    {
      if memo.perimeter.Some? {
        PerimeterIsBoundary(vertexDict, edgeDict, faceDict, memo.bottomLeft, memo.perimeter.value);
        return Ok(memo.perimeter.value);
      }
      var bl := GetBottomLeftHexagon();
      if bl.Err? {
        return Err(bl.error);
      }
      var e := IncidentEdge(bl.value, 4).value;
      var p := PerimeterSearch(vertexDict, edgeDict, faceDict, memo.bottomLeft, e);
      var ps := set t | t in p;
      PerimeterMemo(edgeDict, memo, p, ps);
      memo := memo.(perimeter := Some(p), perimeterSet := Some(ps));
      r := Ok(p);
    }

    /** Edge.belongs_to_perimeter, computing the perimeter first if it is not memoised. */
    method BelongsToPerimeter(e: Lab) returns (b: bool)
      requires Valid() && e in edgeDict
      modifies this`memo
      ensures Valid()
      ensures b <==> e in PerimeterEdges(edgeDict, memo.bottomLeft)
      ensures memo.perimeterSet.Some?
      ensures memo.(perimeter := old(memo.perimeter), perimeterSet := old(memo.perimeterSet)) == old(memo)
      ensures MemoKeeps(old(memo), memo)
    {
      if memo.perimeterSet.None? {
        EdgesNeedFaces(vertexDict, edgeDict, faceDict, e);
        var p := Perimeter();
      }
      PerimeterIsBoundary(vertexDict, edgeDict, faceDict, memo.bottomLeft, memo.perimeter.value);
      b := e in memo.perimeterSet.value;
    }

    /** Edge.belongs_to_hole: a boundary edge off the perimeter. */
    method BelongsToHole(e: Lab) returns (b: bool)
      requires Valid() && e in edgeDict
      modifies this`memo
      ensures Valid()
      ensures b <==> IsBoundary(edgeDict, e) && e !in PerimeterEdges(edgeDict, memo.bottomLeft)
      ensures memo.(perimeter := old(memo.perimeter), perimeterSet := old(memo.perimeterSet)) == old(memo)
      ensures MemoKeeps(old(memo), memo)
    {
      if !IsBoundary(edgeDict, e) {
        return false;
      }
      var onPerimeter := BelongsToPerimeter(e);
      b := !onPerimeter;
    }

    /**
     * perimeter_vertices: one endpoint per perimeter edge, shared with the
     * next edge whenever the two meet, memoised.
     */
    method PerimeterVertices() returns (r: Result<seq<Lab>, BenzenoidError>)
      requires Valid()
      modifies this`memo
      ensures Valid()
      ensures r.Err? <==> faceDict == map[]
      ensures r.Ok? ==> memo.perimeter.Some? && IsCycleVertices(memo.perimeter.value, r.value)
      ensures r.Ok? ==> forall v :: v in r.value ==> v in vertexDict
      ensures r.Ok? ==> memo.perimeterVertices == Some(r.value)
      ensures old(memo.perimeterVertices).Some? ==> r == Ok(old(memo.perimeterVertices).value)
      ensures memo.bottomLeft == old(memo.bottomLeft) && memo.holes == old(memo.holes)
      ensures memo.holesVertices == old(memo.holesVertices)
      ensures MemoKeeps(old(memo), memo)
    {
      if memo.perimeterVertices.Some? {
        PerimeterIsBoundary(vertexDict, edgeDict, faceDict, memo.bottomLeft, memo.perimeter.value);
        CycleVerticesPresent(vertexDict, edgeDict, faceDict, memo.perimeter.value, memo.perimeterVertices.value);
        return Ok(memo.perimeterVertices.value);
      }
      var p := Perimeter();
      if p.Err? {
        return Err(p.error);
      }
      EdgesHaveEndpoints(vertexDict, edgeDict, faceDict, p.value);
      var vs := CycleVertices(edgeDict, p.value);
      CycleVerticesPresent(vertexDict, edgeDict, faceDict, p.value, vs);
      memo := memo.(perimeterVertices := Some(vs));
      r := Ok(vs);
    }

    /**
     * list_of_holes: the boundary edges off the perimeter, split into the
     * depth-first searches of the hole graph, memoised.
     */
    method ListOfHoles() returns (holes: seq<seq<Lab>>)
      requires Valid()
      modifies this`memo
      ensures Valid()
      ensures HolesOk(edgeDict, PerimeterEdges(edgeDict, memo.bottomLeft), holes)
      ensures memo.holes == Some(holes)
      ensures old(memo.holes).Some? ==> holes == old(memo.holes).value
      ensures memo.bottomLeft == old(memo.bottomLeft) && memo.perimeterVertices == old(memo.perimeterVertices)
      ensures memo.holesVertices == old(memo.holesVertices)
      ensures MemoKeeps(old(memo), memo)
    {
      if memo.holes.Some? {
        return memo.holes.value;
      }
      var pset: set<Lab> := {};
      if faceDict != map[] {
        var p := Perimeter();
        pset := memo.perimeterSet.value;
      }
      assert pset == PerimeterEdges(edgeDict, memo.bottomLeft);
      HoleGraphSymmetric(vertexDict, edgeDict, faceDict, pset);
      holes := Holes(edgeDict, pset);
      memo := memo.(holes := Some(holes));
    }

    /** list_of_holes_vertices: one vertex per hole edge, as perimeter_vertices does for the perimeter. */
    method ListOfHolesVertices() returns (r: seq<seq<Lab>>)
      requires Valid()
      modifies this`memo
      ensures Valid()
      ensures memo.holes.Some? && |r| == |memo.holes.value|
      ensures forall i :: 0 <= i < |r| ==> IsCycleVertices(memo.holes.value[i], r[i])
      ensures forall i, v :: 0 <= i < |r| && v in r[i] ==> v in vertexDict
      ensures memo.holesVertices == Some(r)
      ensures old(memo.holesVertices).Some? ==> r == old(memo.holesVertices).value
      ensures memo.bottomLeft == old(memo.bottomLeft)
      ensures MemoKeeps(old(memo), memo)
    {
      if memo.holesVertices.Some? {
        r := memo.holesVertices.value;
        HoleEdgesPresent(vertexDict, edgeDict, faceDict, PerimeterEdges(edgeDict, memo.bottomLeft), memo.holes.value);
        HoleVerticesPresent(vertexDict, edgeDict, faceDict, memo.holes.value, r);
        return;
      }
      var hs := ListOfHoles();
      HoleEdgesPresent(vertexDict, edgeDict, faceDict, PerimeterEdges(edgeDict, memo.bottomLeft), hs);
      r := CyclesVertices(edgeDict, hs);
      HoleVerticesPresent(vertexDict, edgeDict, faceDict, hs, r);
      memo := memo.(holesVertices := Some(r));
    }

    /**
     * is_connected: a breadth-first search of the face graph from some face
     * reaches every face exactly when every two faces are joined by a walk
     * across shared edges. There is no face to start from in an empty
     * benzenoid.
     */
    method IsConnected() returns (r: Result<bool, BenzenoidError>)
      requires Valid()
      ensures r.Err? <==> faceDict == map[]
      ensures r.Ok? ==> (r.value <==> forall a, b :: a in faceDict && b in faceDict ==>
                                        Traversal.Reachable(FaceGraph(faceDict), a, b))
    {
      if faceDict == map[] {
        return Err(EmptyBenzenoid);
      }
      var start :| start in faceDict;
      var component := Traversal.Bfs(FaceGraph(faceDict), start);
      FaceGraphSymmetric(vertexDict, edgeDict, faceDict);
      FaceGraphClosed(vertexDict, edgeDict, faceDict);
      Traversal.ComponentIsAll(FaceGraph(faceDict), faceDict.Keys, start, component);
      r := Ok(|component| == |faceDict|);
    }

    /** is_simply_connected: no holes, that is, every boundary edge is on the perimeter. */
    method IsSimplyConnected() returns (b: bool)
      requires Valid()
      modifies this`memo
      ensures Valid()
      ensures b <==> forall e :: e in edgeDict && IsBoundary(edgeDict, e) ==> e in PerimeterEdges(edgeDict, memo.bottomLeft)
      ensures memo.bottomLeft == old(memo.bottomLeft)
      ensures MemoKeeps(old(memo), memo)
    {
      var holes := ListOfHoles();
      NoHolesIff(edgeDict, PerimeterEdges(edgeDict, memo.bottomLeft), holes);
      b := |holes| == 0;
    }

    /**
     * boundary_edges_code: the canonical boundary-edges code of the degree
     * string of the perimeter vertices.
     */
    method BoundaryEdgesCode() returns (r: Result<string, BenzenoidError>)
      requires Valid()
      modifies this`memo
      ensures Valid()
      ensures r.Err? <==> faceDict == map[]
      ensures r.Ok? ==> memo.perimeterVertices.Some? && forall v :: v in memo.perimeterVertices.value ==> v in vertexDict
      ensures r.Ok? ==> r.value == Bec.Code(DegreeString(vertexDict, memo.perimeterVertices.value))
      ensures memo.bottomLeft == old(memo.bottomLeft)
      ensures MemoKeeps(old(memo), memo)
    {
      var pv := PerimeterVertices();
      if pv.Err? {
        return Err(pv.error);
      }
      var degrees := DegreeString(vertexDict, pv.value);
      var code := Bec.CodeOfDegrees(degrees);
      r := Ok(code);
    }

    /**
     * is_convex: no '1' in the boundary-edges code. Two degree-3 vertices
     * in a row on the perimeter make a benzenoid non-convex; a perimeter of
     * degree-2 vertices only (benzene) is convex.
     */
    method IsConvex() returns (r: Result<bool, BenzenoidError>)
      requires Valid()
      modifies this`memo
      ensures Valid()
      ensures r.Err? <==> faceDict == map[]
      ensures r.Ok? ==> memo.perimeterVertices.Some? && forall v :: v in memo.perimeterVertices.value ==> v in vertexDict
      ensures r.Ok? ==> (r.value <==> '1' !in Bec.Code(DegreeString(vertexDict, memo.perimeterVertices.value)))
      ensures r.Ok? ==> forall i :: (0 <= i < |memo.perimeterVertices.value| - 1 &&
                                     Degree(memo.perimeterVertices.value[i]) == 3 &&
                                     Degree(memo.perimeterVertices.value[i + 1]) == 3) ==> !r.value
      ensures r.Ok? ==> (|memo.perimeterVertices.value| >= 2 &&
                         Degree(memo.perimeterVertices.value[0]) == 3 &&
                         Degree(memo.perimeterVertices.value[|memo.perimeterVertices.value| - 1]) == 3) ==> !r.value
      ensures r.Ok? && (forall v :: v in memo.perimeterVertices.value ==> Degree(v) == 2) ==> r.value
      ensures memo.bottomLeft == old(memo.bottomLeft)
      ensures MemoKeeps(old(memo), memo)
    {
      var code := BoundaryEdgesCode();
      if code.Err? {
        return Err(code.error);
      }
      ConvexityOfDegrees(vertexDict, edgeDict, faceDict, memo.perimeterVertices.value);
      r := Ok('1' !in code.value);
    }

    /**
     * empty_face_slots: the hexagons beside perimeter edges that are not
     * faces; each of them shares an edge with a face.
     */
    method EmptyFaceSlots() returns (r: Result<set<Hex>, BenzenoidError>)
      requires Valid()
      modifies this`memo
      ensures Valid()
      ensures r.Err? <==> faceDict == map[]
      ensures r.Ok? ==> forall f :: f in r.value <==>
                f !in faceDict && exists e :: e in PerimeterEdges(edgeDict, memo.bottomLeft) && f in EdgeFaces(e)
      ensures r.Ok? ==> forall f :: f in r.value ==> exists g :: g in faceDict && f in FaceNeighbours(g)
      ensures memo.bottomLeft == old(memo.bottomLeft)
      ensures MemoKeeps(old(memo), memo)
    {
      var p := Perimeter();
      if p.Err? {
        return Err(p.error);
      }
      var slots := EmptySlotsAlong(faceDict, p.value);
      forall f | f in slots ensures exists g :: g in faceDict && f in FaceNeighbours(g) {
        var e :| e in p.value && f in EdgeFaces(e);
        OtherSideIsEmptySlot(vertexDict, edgeDict, faceDict, e, f);
      }
      r := Ok(slots);
    }

    /** copy: a new benzenoid built from the face labels, equal in every dictionary. */
    method Copy() returns (c: Benzenoid)
      requires Valid()
      ensures fresh(c) && c.Valid()
      ensures c.vertexDict == vertexDict && c.edgeDict == edgeDict && c.faceDict == faceDict
      ensures c.memo == EmptyMemo.(bottomLeft := memo.bottomLeft)
    {
      var hexagons := SetToSeq(faceDict.Keys);
      c := new Benzenoid(hexagons);
      assert c.faceDict.Keys == faceDict.Keys;
      ArenaDetermined(vertexDict, edgeDict, faceDict, c.vertexDict, c.edgeDict, c.faceDict);
      if memo.bottomLeft.Some? {
        BottomLeftUnique(faceDict.Keys, memo.bottomLeft.value, c.memo.bottomLeft.value);
      }
    }
  }
}
