/**
 * The incidence graph of a benzenoid as an arena: three maps from canonical
 * labels to the neighbour lists that the Face, Edge and Vertex objects of
 * nino/benzenoids.py store. What each update_* method recomputes depends only
 * on which labels are keys of the maps; this module states those
 * recomputations as functions of the key sets, the invariant that every
 * stored list equals its recomputation, and the facts about the tiling that
 * the refresh cascade of Face.__init__ relies on.
 */
module Incidence {
  import opened Labels
  import Traversal

  /** The stored lists of one face, edge or vertex. */
  datatype Lists = Lists(vertices: seq<Lab>, edges: seq<Lab>, faces: seq<Hex>)

  /** A freshly constructed Edge or Vertex: all three lists empty. */
  const NoLists := Lists([], [], [])

  /** The candidates that are keys, in candidate order (the comprehensions of update_*). */
  function Present<K(!new)>(cands: seq<K>, keys: set<K>): (r: seq<K>)
    ensures forall x :: x in r <==> x in cands && x in keys
    ensures |r| <= |cands|
    ensures (forall x :: x in cands ==> x in keys) ==> r == cands
  {
    if cands == [] then []
    else if cands[0] in keys then [cands[0]] + Present(cands[1..], keys)
    else Present(cands[1..], keys)
  }

  /**
   * Vertex.update_vertex_list: neighbour i counts when it and the edge
   * paired with it are both keys.
   */
  function PresentPairs(nbrs: seq<Lab>, via: seq<Lab>, vkeys: set<Lab>, ekeys: set<Lab>): (r: seq<Lab>)
    requires |nbrs| == |via|
    ensures |r| <= |nbrs|
    ensures forall x :: x in r ==> x in nbrs && x in vkeys
    ensures forall i :: 0 <= i < |nbrs| && nbrs[i] in vkeys && via[i] in ekeys ==> nbrs[i] in r
    ensures forall x :: x in r ==> exists i :: 0 <= i < |nbrs| && nbrs[i] == x && via[i] in ekeys
  {
    if nbrs == [] then []
    else if nbrs[0] in vkeys && via[0] in ekeys then [nbrs[0]] + PresentPairs(nbrs[1..], via[1..], vkeys, ekeys)
    else PresentPairs(nbrs[1..], via[1..], vkeys, ekeys)
  }

  /** Edge.update_every_list: the lists an edge recomputes from the current keys. */
  function EdgeLists(e: Lab, vk: set<Lab>, ek: set<Lab>, fk: set<Hex>): (r: Lists)
    ensures |r.vertices| <= 2 && |r.edges| <= 4 && |r.faces| <= 2
  {
    Lists(Present(EdgeVertices(e), vk), Present(EdgeNeighbours(e), ek), Present(EdgeFaces(e), fk))
  }

  /** Vertex.update_every_list: the lists a vertex recomputes from the current keys. */
  function VertexLists(v: Lab, vk: set<Lab>, ek: set<Lab>, fk: set<Hex>): (r: Lists)
    ensures |r.vertices| <= 3 && |r.edges| <= 3 && |r.faces| <= 3
  {
    Lists(PresentPairs(VertexNeighbours(v), VertexEdges(v), vk, ek),
          Present(VertexEdges(v), ek),
          Present(VertexFaces(v), fk))
  }

  /** The lists of a face: its six vertices and edges, and its neighbours that are keys. */
  function FaceLists(h: Hex, fk: set<Hex>): (r: Lists)
    ensures |r.vertices| == 6 && |r.edges| == 6 && |r.faces| <= 6
  {
    Lists(FaceVertices(h), FaceEdges(h), Present(FaceNeighbours(h), fk))
  }

  /** The vertex labels the faces fk bring with them. */
  ghost function VertexKeys(fk: set<Hex>): set<Lab>
  {
    set h, v | h in fk && v in FaceVertices(h) :: v
  }

  /** The edge labels the faces fk bring with them. */
  ghost function EdgeKeys(fk: set<Hex>): set<Lab>
  {
    set h, e | h in fk && e in FaceEdges(h) :: e
  }

  /**
   * The arena invariant: the vertices and edges are exactly those of the
   * faces, and every stored list is what its update method would recompute.
   */
  ghost predicate ArenaValid(vd: map<Lab, Lists>, ed: map<Lab, Lists>, fd: map<Hex, Lists>)
  {
    && vd.Keys == VertexKeys(fd.Keys)
    && ed.Keys == EdgeKeys(fd.Keys)
    && (forall v {:trigger VertexLists(v, vd.Keys, ed.Keys, fd.Keys)} :: v in vd ==> vd[v] == VertexLists(v, vd.Keys, ed.Keys, fd.Keys))
    && (forall e {:trigger EdgeLists(e, vd.Keys, ed.Keys, fd.Keys)} :: e in ed ==> ed[e] == EdgeLists(e, vd.Keys, ed.Keys, fd.Keys))
    && (forall h {:trigger FaceLists(h, fd.Keys)} :: h in fd ==> fd[h] == FaceLists(h, fd.Keys))
  }

  /** Edge.is_boundary: exactly one incident face. */
  predicate IsBoundary(ed: map<Lab, Lists>, e: Lab)
  {
    e in ed && |ed[e].faces| == 1
  }

  lemma PresentSame<K(!new)>(cands: seq<K>, k1: set<K>, k2: set<K>)
    requires forall x :: x in cands ==> (x in k1 <==> x in k2)
    ensures Present(cands, k1) == Present(cands, k2)
  {
  }

  lemma PresentPairsSame(nbrs: seq<Lab>, via: seq<Lab>, v1: set<Lab>, e1: set<Lab>, v2: set<Lab>, e2: set<Lab>)
    requires |nbrs| == |via|
    requires forall i :: 0 <= i < |nbrs| ==> (nbrs[i] in v1 && via[i] in e1 <==> nbrs[i] in v2 && via[i] in e2)
    ensures PresentPairs(nbrs, via, v1, e1) == PresentPairs(nbrs, via, v2, e2)
  {
    if nbrs != [] {
      assert forall i :: 0 <= i < |nbrs| - 1 ==> nbrs[1..][i] == nbrs[i + 1] && via[1..][i] == via[i + 1];
      PresentPairsSame(nbrs[1..], via[1..], v1, e1, v2, e2);
    }
  }

  lemma VertexKeysCanonical(fk: set<Hex>, v: Lab)
    requires v in VertexKeys(fk)
    ensures IsCanonicalVertex(v)
  {
  }

  lemma EdgeKeysCanonical(fk: set<Hex>, e: Lab)
    requires e in EdgeKeys(fk)
    ensures IsCanonicalEdge(e)
  {
  }

  /** Both endpoints of an edge of the faces are vertices of the faces. */
  lemma EdgeEndpointsAreKeys(fk: set<Hex>, e: Lab)
    requires e in EdgeKeys(fk)
    ensures forall w :: w in EdgeVertices(e) ==> w in VertexKeys(fk)
  {
    var h, nu :| h in fk && 0 <= nu < 6 && e == FaceEdge(h, nu);
    FaceEdgeEndpoints(h, nu);
  }

  /** Adding a face adds exactly its six vertices and six edges to the key sets. */
  lemma KeysGrow(fk: set<Hex>, h: Hex)
    ensures forall v :: v in VertexKeys(fk + {h}) <==> v in VertexKeys(fk) || v in FaceVertices(h)
    ensures forall e :: e in EdgeKeys(fk + {h}) <==> e in EdgeKeys(fk) || e in FaceEdges(h)
  {
  }

  /**
   * The edges whose edge lists a new face h can change besides its own: the
   * edges at its vertices (the edge layer of Face.__init__).
   */
  ghost function EdgeLayer(h: Hex, ek: set<Lab>): set<Lab>
  {
    set w, e | w in FaceVertices(h) && e in Present(VertexEdges(w), ek) && e !in FaceEdges(h) :: e
  }

  /** A vertex that the new face h does not touch recomputes the same lists. */
  lemma VertexFrame(fk: set<Hex>, h: Hex, v: Lab)
    requires v in VertexKeys(fk) && v !in FaceVertices(h)
    ensures VertexLists(v, VertexKeys(fk + {h}), EdgeKeys(fk + {h}), fk + {h})
         == VertexLists(v, VertexKeys(fk), EdgeKeys(fk), fk)
  {
    var vk0, ek0 := VertexKeys(fk), EdgeKeys(fk);
    var vk, ek := VertexKeys(fk + {h}), EdgeKeys(fk + {h});
    KeysGrow(fk, h);
    VertexKeysCanonical(fk, v);
    forall f | f in VertexFaces(v) ensures f in fk + {h} <==> f in fk {
      VertexFacesIffFaceVertex(v, f);
    }
    PresentSame(VertexFaces(v), fk + {h}, fk);
    forall e | e in VertexEdges(v) ensures e !in FaceEdges(h) && (e in ek <==> e in ek0) {
      if e in FaceEdges(h) {
        var nu :| 0 <= nu < 6 && e == FaceEdge(h, nu);
        FaceEdgeEndpoints(h, nu);
        VertexEdgesIffEndpoint(v, e);
        assert false;
      }
    }
    PresentSame(VertexEdges(v), ek, ek0);
    forall i | 0 <= i < 3
      ensures VertexNeighbours(v)[i] in vk && VertexEdges(v)[i] in ek
          <==> VertexNeighbours(v)[i] in vk0 && VertexEdges(v)[i] in ek0
    {
      var e := VertexEdges(v)[i];
      if e in ek0 {
        EdgeEndpointsAreKeys(fk, e);
        VertexNeighbourAcrossEdge(v, i);
      }
    }
    PresentPairsSame(VertexNeighbours(v), VertexEdges(v), vk, ek, vk0, ek0);
  }

  /**
   * An edge that is not an edge of the new face h recomputes the same vertex
   * and face lists, and the same edge list unless it lies in the edge layer.
   */
  lemma EdgeFrame(fk: set<Hex>, h: Hex, e: Lab)
    requires e in EdgeKeys(fk) && e !in FaceEdges(h)
    ensures EdgeLists(e, VertexKeys(fk + {h}), EdgeKeys(fk + {h}), fk + {h}).vertices
         == EdgeLists(e, VertexKeys(fk), EdgeKeys(fk), fk).vertices
    ensures EdgeLists(e, VertexKeys(fk + {h}), EdgeKeys(fk + {h}), fk + {h}).faces
         == EdgeLists(e, VertexKeys(fk), EdgeKeys(fk), fk).faces
    ensures e !in EdgeLayer(h, EdgeKeys(fk + {h})) ==>
              (EdgeLists(e, VertexKeys(fk + {h}), EdgeKeys(fk + {h}), fk + {h}).edges
               == EdgeLists(e, VertexKeys(fk), EdgeKeys(fk), fk).edges)
  {
    EdgeFrameVertices(fk, h, e);
    EdgeFrameFaces(fk, h, e);
    if e !in EdgeLayer(h, EdgeKeys(fk + {h})) {
      EdgeFrameEdges(fk, h, e);
    }
  }

  lemma EdgeFrameVertices(fk: set<Hex>, h: Hex, e: Lab)
    requires e in EdgeKeys(fk)
    ensures Present(EdgeVertices(e), VertexKeys(fk + {h})) == Present(EdgeVertices(e), VertexKeys(fk))
  {
    KeysGrow(fk, h);
    EdgeEndpointsAreKeys(fk, e);
    PresentSame(EdgeVertices(e), VertexKeys(fk + {h}), VertexKeys(fk));
  }

  lemma EdgeFrameFaces(fk: set<Hex>, h: Hex, e: Lab)
    requires e in EdgeKeys(fk) && e !in FaceEdges(h)
    ensures Present(EdgeFaces(e), fk + {h}) == Present(EdgeFaces(e), fk)
  {
    EdgeKeysCanonical(fk, e);
    forall f | f in EdgeFaces(e) ensures f in fk + {h} <==> f in fk {
      EdgeFacesIffFaceEdge(e, f);
    }
    PresentSame(EdgeFaces(e), fk + {h}, fk);
  }

  lemma EdgeFrameEdges(fk: set<Hex>, h: Hex, e: Lab)
    requires e in EdgeKeys(fk) && e !in FaceEdges(h) && e !in EdgeLayer(h, EdgeKeys(fk + {h}))
    ensures Present(EdgeNeighbours(e), EdgeKeys(fk + {h})) == Present(EdgeNeighbours(e), EdgeKeys(fk))
  {
    var ek0 := EdgeKeys(fk);
    var ek := EdgeKeys(fk + {h});
    KeysGrow(fk, h);
    EdgeKeysCanonical(fk, e);
    forall d | d in EdgeNeighbours(e) ensures d in ek <==> d in ek0 {
      if d in FaceEdges(h) {
        var nu :| 0 <= nu < 6 && d == FaceEdge(h, nu);
        FaceEdgeEndpoints(h, nu);
        EdgeNeighboursShareEndpoint(e, d);
        var w := if EdgeVertices(e)[0] in EdgeVertices(d) then EdgeVertices(e)[0] else EdgeVertices(e)[1];
        assert w in FaceVertices(h);
        VertexKeysCanonical(fk + {h}, w);
        VertexEdgesIffEndpoint(w, e);
        assert false;
      }
    }
    PresentSame(EdgeNeighbours(e), ek, ek0);
  }

  /** A face that is not next to the new face h recomputes the same face list. */
  lemma FaceFrame(fk: set<Hex>, h: Hex, f: Hex)
    requires f !in FaceNeighbours(h)
    ensures FaceLists(f, fk + {h}) == FaceLists(f, fk)
  {
    forall g | g in FaceNeighbours(f) ensures g in fk + {h} <==> g in fk {
      FaceNeighboursSymmetric(f, g);
    }
    PresentSame(FaceNeighbours(f), fk + {h}, fk);
  }

  /** Two valid arenas over the same faces are equal: the faces determine everything. */
  lemma ArenaDetermined(vd: map<Lab, Lists>, ed: map<Lab, Lists>, fd: map<Hex, Lists>,
                        vd': map<Lab, Lists>, ed': map<Lab, Lists>, fd': map<Hex, Lists>)
    requires ArenaValid(vd, ed, fd) && ArenaValid(vd', ed', fd')
    requires fd.Keys == fd'.Keys
    ensures vd == vd' && ed == ed' && fd == fd'
  {
    assert vd.Keys == vd'.Keys && ed.Keys == ed'.Keys;
    RecordsAgree(vd, ed, fd, vd', ed', fd');
  }

  lemma RecordsAgree(vd: map<Lab, Lists>, ed: map<Lab, Lists>, fd: map<Hex, Lists>,
                     vd': map<Lab, Lists>, ed': map<Lab, Lists>, fd': map<Hex, Lists>)
    requires ArenaValid(vd, ed, fd) && ArenaValid(vd', ed', fd')
    requires fd.Keys == fd'.Keys && vd.Keys == vd'.Keys && ed.Keys == ed'.Keys
    ensures vd == vd' && ed == ed' && fd == fd'
  {
    forall v | v in vd ensures vd[v] == vd'[v] {
      assert vd[v] == VertexLists(v, vd.Keys, ed.Keys, fd.Keys);
      assert vd'[v] == VertexLists(v, vd'.Keys, ed'.Keys, fd'.Keys);
    }
    forall e | e in ed ensures ed[e] == ed'[e] {
      assert ed[e] == EdgeLists(e, vd.Keys, ed.Keys, fd.Keys);
      assert ed'[e] == EdgeLists(e, vd'.Keys, ed'.Keys, fd'.Keys);
    }
    forall h | h in fd ensures fd[h] == fd'[h] {
      assert fd[h] == FaceLists(h, fd.Keys);
      assert fd'[h] == FaceLists(h, fd'.Keys);
    }
  }

  /** Every edge lies beside one or two faces; it is a boundary edge exactly when only one of its two sides is a face. */
  lemma EdgeFaceCount(vd: map<Lab, Lists>, ed: map<Lab, Lists>, fd: map<Hex, Lists>, e: Lab)
    requires ArenaValid(vd, ed, fd) && e in ed
    ensures 1 <= |ed[e].faces| <= 2
    ensures IsBoundary(ed, e) <==> (EdgeFaces(e)[0] in fd) != (EdgeFaces(e)[1] in fd)
  {
    EdgeHasFace(fd.Keys, e);
    assert ed[e] == EdgeLists(e, vd.Keys, ed.Keys, fd.Keys);
    PresentOfPair(EdgeFaces(e), fd.Keys);
  }

  /** An edge of the faces fk lies beside at least one of them. */
  lemma EdgeHasFace(fk: set<Hex>, e: Lab)
    requires e in EdgeKeys(fk)
    ensures EdgeFaces(e)[0] in fk || EdgeFaces(e)[1] in fk
  {
    var h, nu :| h in fk && 0 <= nu < 6 && e == FaceEdge(h, nu);
    EdgeKeysCanonical(fk, e);
    EdgeFacesIffFaceEdge(e, h);
  }

  /** Filtering a two-element sequence of distinct items, one of which is a key. */
  lemma PresentOfPair<K(!new)>(s: seq<K>, keys: set<K>)
    requires |s| == 2 && s[0] != s[1] && (s[0] in keys || s[1] in keys)
    ensures 1 <= |Present(s, keys)| <= 2
    ensures |Present(s, keys)| == 1 <==> (s[0] in keys) != (s[1] in keys)
  {
    assert s[1..][1..] == [];
  }
  /** Every vertex has at most three neighbours and at most three edges and faces. */
  lemma VertexDegreeBound(vd: map<Lab, Lists>, ed: map<Lab, Lists>, fd: map<Hex, Lists>, v: Lab)
    requires ArenaValid(vd, ed, fd) && v in vd
    ensures |vd[v].vertices| <= 3 && |vd[v].edges| <= 3 && 1 <= |vd[v].faces| <= 3
  {
    var h :| h in fd.Keys && v in FaceVertices(h);
    VertexKeysCanonical(fd.Keys, v);
    VertexFacesIffFaceVertex(v, h);
    assert vd[v] == VertexLists(v, vd.Keys, ed.Keys, fd.Keys);
    assert h in vd[v].faces;
  }

  /** Every vertex lies on a hexagon, whose two edges at the vertex are present: degree at least two. */
  lemma VertexDegreeAtLeastTwo(vd: map<Lab, Lists>, ed: map<Lab, Lists>, fd: map<Hex, Lists>, v: Lab)
    requires ArenaValid(vd, ed, fd) && v in vd
    ensures |vd[v].vertices| >= 2
  {
    assert vd[v] == VertexLists(v, vd.Keys, ed.Keys, fd.Keys);
    TwoEdgesAtVertex(fd.Keys, v);
  }

  lemma TwoEdgesAtVertex(fk: set<Hex>, v: Lab)
    requires v in VertexKeys(fk)
    ensures |PresentPairs(VertexNeighbours(v), VertexEdges(v), VertexKeys(fk), EdgeKeys(fk))| >= 2
  {
    var f :| f in fk && v in FaceVertices(f);
    var nu :| 0 <= nu < 6 && FaceVertex(f, nu) == v;
    var i, j := FaceVertexEdgeIndices(f, nu);
    assert VertexEdges(v)[i] in EdgeKeys(fk) && VertexEdges(v)[j] in EdgeKeys(fk);
    NeighbourPresent(fk, v, i);
    NeighbourPresent(fk, v, j);
    if i < j {
      PresentPairsTwo(VertexNeighbours(v), VertexEdges(v), VertexKeys(fk), EdgeKeys(fk), i, j);
    } else {
      PresentPairsTwo(VertexNeighbours(v), VertexEdges(v), VertexKeys(fk), EdgeKeys(fk), j, i);
    }
  }

  /** When the edge paired with neighbour i is present, so is the neighbour. */
  lemma NeighbourPresent(fk: set<Hex>, v: Lab, i: int)
    requires IsCanonicalVertex(v) && 0 <= i < 3 && VertexEdges(v)[i] in EdgeKeys(fk)
    ensures VertexNeighbours(v)[i] in VertexKeys(fk)
  {
    VertexNeighbourAcrossEdge(v, i);
    EdgeEndpointsAreKeys(fk, VertexEdges(v)[i]);
  }

  /** When every present edge brings its neighbour, the paired filter keeps one neighbour per present edge. */
  lemma {:induction false} PresentPairsCount(nbrs: seq<Lab>, via: seq<Lab>, vk: set<Lab>, ek: set<Lab>)
    requires |nbrs| == |via|
    requires forall i :: 0 <= i < |nbrs| && via[i] in ek ==> nbrs[i] in vk
    ensures |PresentPairs(nbrs, via, vk, ek)| == |Present(via, ek)|
  {
    if nbrs != [] {
      assert forall i :: 0 <= i < |nbrs| - 1 ==> nbrs[1..][i] == nbrs[i + 1] && via[1..][i] == via[i + 1];
      PresentPairsCount(nbrs[1..], via[1..], vk, ek);
    }
  }

  /** The degree of a present vertex is the number of its incident edges that are present. */
  lemma DegreeIsPresentEdges(vd: map<Lab, Lists>, ed: map<Lab, Lists>, fd: map<Hex, Lists>, v: Lab)
    requires ArenaValid(vd, ed, fd) && v in vd
    ensures |vd[v].vertices| == |vd[v].edges| == |Present(VertexEdges(v), ed.Keys)|
  {
    assert vd[v] == VertexLists(v, vd.Keys, ed.Keys, fd.Keys);
    VertexKeysCanonical(fd.Keys, v);
    forall i | 0 <= i < 3 && VertexEdges(v)[i] in ed.Keys ensures VertexNeighbours(v)[i] in vd.Keys {
      NeighbourPresent(fd.Keys, v, i);
    }
    PresentPairsCount(VertexNeighbours(v), VertexEdges(v), vd.Keys, ed.Keys);
  }

  /** Two qualifying positions give at least two entries. */
  lemma {:induction false} PresentPairsTwo(nbrs: seq<Lab>, via: seq<Lab>, vk: set<Lab>, ek: set<Lab>, i: nat, j: nat)
    requires |nbrs| == |via| && i < j < |nbrs|
    requires nbrs[i] in vk && via[i] in ek && nbrs[j] in vk && via[j] in ek
    ensures |PresentPairs(nbrs, via, vk, ek)| >= 2
  {
    assert nbrs[1..][j - 1] == nbrs[j] && via[1..][j - 1] == via[j];
    if i == 0 {
      assert nbrs[j] in PresentPairs(nbrs[1..], via[1..], vk, ek);
    } else {
      PresentPairsTwo(nbrs[1..], via[1..], vk, ek, i - 1, j - 1);
    }
  }

  /** Every edge of a valid arena has its two endpoints as stored vertices. */
  lemma EdgeHasTwoVertices(vd: map<Lab, Lists>, ed: map<Lab, Lists>, fd: map<Hex, Lists>, e: Lab)
    requires ArenaValid(vd, ed, fd) && e in ed
    ensures ed[e].vertices == EdgeVertices(e) && |ed[e].vertices| == 2
    ensures forall w :: w in ed[e].vertices ==> w in vd
  {
    EdgeEndpointsAreKeys(fd.Keys, e);
    assert ed[e] == EdgeLists(e, vd.Keys, ed.Keys, fd.Keys);
    assert forall w :: w in EdgeVertices(e) ==> w in vd.Keys;
  }

  /** A single hexagon has six vertices, six edges, and every edge on the boundary. */
  lemma SingleHexagon(vd: map<Lab, Lists>, ed: map<Lab, Lists>, fd: map<Hex, Lists>, h: Hex)
    requires ArenaValid(vd, ed, fd) && fd.Keys == {h}
    ensures |fd| == 1 && |vd| == 6 && |ed| == 6
    ensures forall e :: e in ed ==> IsBoundary(ed, e)
  {
    KeysOfOneFace(h);
    assert |vd.Keys| == 6 && |ed.Keys| == 6 && |fd.Keys| == 1;
    forall e | e in ed ensures IsBoundary(ed, e) {
      LoneFaceEdge(vd, ed, fd, h, e);
    }
  }

  lemma LoneFaceEdge(vd: map<Lab, Lists>, ed: map<Lab, Lists>, fd: map<Hex, Lists>, h: Hex, e: Lab)
    requires ArenaValid(vd, ed, fd) && fd.Keys == {h} && e in ed
    ensures IsBoundary(ed, e)
  {
    EdgeFaceCount(vd, ed, fd, e);
    EdgeHasFace(fd.Keys, e);
  }

  /** The arena of no faces is valid. */
  lemma EmptyArena()
    ensures ArenaValid(map[], map[], map[])
  {
    assert VertexKeys({}) == {};
    assert EdgeKeys({}) == {};
  }

  /** A benzenoid with a hexagon h has at least h's six vertices and six edges. */
  lemma AtLeastOneHexagon(fk: set<Hex>, h: Hex)
    requires h in fk
    ensures |VertexKeys(fk)| >= 6 && |EdgeKeys(fk)| >= 6
  {
    KeysOfOneFace(h);
    assert VertexKeys({h}) <= VertexKeys(fk);
    assert EdgeKeys({h}) <= EdgeKeys(fk);
    SubsetCardinality(VertexKeys({h}), VertexKeys(fk));
    SubsetCardinality(EdgeKeys({h}), EdgeKeys(fk));
  }

  lemma SubsetCardinality<K>(a: set<K>, b: set<K>)
    requires a <= b
    ensures |a| <= |b|
  {
    assert b == a + (b - a);
  }

  lemma KeysOfOneFace(h: Hex)
    ensures |VertexKeys({h})| == 6 && |EdgeKeys({h})| == 6
  {
    FaceLabelsDistinct(h);
    assert VertexKeys({h}) == set v | v in FaceVertices(h);
    assert EdgeKeys({h}) == set e | e in FaceEdges(h);
    Traversal.DistinctCardinality(FaceVertices(h));
    Traversal.DistinctCardinality(FaceEdges(h));
  }

  /*
   * Freshness during the refresh cascade of Face.__init__. Once the new
   * face's vertices and edges are created the key sets no longer change, so
   * each predicate compares the stored lists with the recomputation from the
   * fixed key sets vk, ek, fk, except for the labels still waiting to be
   * refreshed.
   */

  /** Every vertex outside stale holds its recomputed lists. */
  ghost predicate VerticesFreshExcept(vd: map<Lab, Lists>, vk: set<Lab>, ek: set<Lab>, fk: set<Hex>, stale: seq<Lab>)
  {
    forall v {:trigger vd[v], VertexLists(v, vk, ek, fk)} :: v in vd && v !in stale ==> vd[v] == VertexLists(v, vk, ek, fk)
  }

  /**
   * Every edge outside stale holds its recomputed vertex and face lists, and
   * its recomputed edge list too unless it is in staleEdges.
   */
  ghost predicate EdgesFreshExcept(ed: map<Lab, Lists>, vk: set<Lab>, ek: set<Lab>, fk: set<Hex>,
                                   stale: seq<Lab>, staleEdges: set<Lab>)
  {
    forall e {:trigger ed[e]} :: e in ed && e !in stale ==>
      && ed[e].vertices == Present(EdgeVertices(e), vk)
      && ed[e].faces == Present(EdgeFaces(e), fk)
      && (e !in staleEdges ==> ed[e].edges == Present(EdgeNeighbours(e), ek))
  }

  /** Every face holds its own vertices and edges, and every face outside stale its recomputed face list. */
  ghost predicate FacesFreshExcept(fd: map<Hex, Lists>, fk: set<Hex>, stale: seq<Hex>)
  {
    forall f {:trigger fd[f], FaceVertices(f)} :: f in fd ==>
      && fd[f].vertices == FaceVertices(f)
      && fd[f].edges == FaceEdges(f)
      && (f !in stale ==> fd[f].faces == Present(FaceNeighbours(f), fk))
  }

  /** When nothing is stale any more the arena is valid. */
  lemma FreshIsValid(vd: map<Lab, Lists>, ed: map<Lab, Lists>, fd: map<Hex, Lists>)
    requires vd.Keys == VertexKeys(fd.Keys) && ed.Keys == EdgeKeys(fd.Keys)
    requires VerticesFreshExcept(vd, vd.Keys, ed.Keys, fd.Keys, [])
    requires EdgesFreshExcept(ed, vd.Keys, ed.Keys, fd.Keys, [], {})
    requires FacesFreshExcept(fd, fd.Keys, [])
    ensures ArenaValid(vd, ed, fd)
  {
    forall e | e in ed ensures ed[e] == EdgeLists(e, vd.Keys, ed.Keys, fd.Keys) {
    }
    forall f | f in fd ensures fd[f] == FaceLists(f, fd.Keys) {
    }
  }

  /**
   * Right after the vertices and edges of a new face h are created (new
   * records empty, old records kept), only the new face's own vertices and
   * edges, the edge lists of the edge layer, and h with its neighbours can be
   * out of date.
   */
  lemma InsertFace(vd: map<Lab, Lists>, ed: map<Lab, Lists>, fd: map<Hex, Lists>, h: Hex,
                   vd': map<Lab, Lists>, ed': map<Lab, Lists>, fd': map<Hex, Lists>)
    requires ArenaValid(vd, ed, fd) && h !in fd
    requires vd'.Keys == vd.Keys + (set v | v in FaceVertices(h))
    requires ed'.Keys == ed.Keys + (set e | e in FaceEdges(h))
    requires fd'.Keys == fd.Keys + {h}
    requires forall v :: v in vd ==> vd'[v] == vd[v]
    requires forall e :: e in ed ==> ed'[e] == ed[e]
    requires forall f :: f in fd ==> fd'[f] == fd[f]
    requires fd'[h].vertices == FaceVertices(h) && fd'[h].edges == FaceEdges(h)
    ensures vd'.Keys == VertexKeys(fd'.Keys) && ed'.Keys == EdgeKeys(fd'.Keys)
    ensures VerticesFreshExcept(vd', vd'.Keys, ed'.Keys, fd'.Keys, FaceVertices(h))
    ensures EdgesFreshExcept(ed', vd'.Keys, ed'.Keys, fd'.Keys, FaceEdges(h), EdgeLayer(h, ed'.Keys))
    ensures FacesFreshExcept(fd', fd'.Keys, [h] + FaceNeighbours(h))
  {
    InsertKeys(vd.Keys, ed.Keys, fd.Keys, h, vd'.Keys, ed'.Keys);
    assert fd'.Keys == fd.Keys + {h};
    InsertKeepsVertices(vd, ed, fd, h, vd');
    InsertKeepsEdges(vd, ed, fd, h, ed');
    InsertKeepsFaces(fd, h, fd');
  }

  lemma InsertKeys(vk: set<Lab>, ek: set<Lab>, fk: set<Hex>, h: Hex, vk': set<Lab>, ek': set<Lab>)
    requires vk == VertexKeys(fk) && ek == EdgeKeys(fk)
    requires vk' == vk + (set v | v in FaceVertices(h))
    requires ek' == ek + (set e | e in FaceEdges(h))
    ensures vk' == VertexKeys(fk + {h}) && ek' == EdgeKeys(fk + {h})
  {
    KeysGrow(fk, h);
  }

  lemma InsertKeepsFaces(fd: map<Hex, Lists>, h: Hex, fd': map<Hex, Lists>)
    requires forall f {:trigger fd[f]} :: f in fd ==> fd[f] == FaceLists(f, fd.Keys)
    requires h !in fd && fd'.Keys == fd.Keys + {h}
    requires forall f :: f in fd ==> fd'[f] == fd[f]
    requires fd'[h].vertices == FaceVertices(h) && fd'[h].edges == FaceEdges(h)
    ensures FacesFreshExcept(fd', fd'.Keys, [h] + FaceNeighbours(h))
  {
    forall f | f in fd && f !in FaceNeighbours(h)
      ensures fd'[f].faces == Present(FaceNeighbours(f), fd'.Keys)
    {
      FaceFrame(fd.Keys, h, f);
    }
  }

  lemma InsertKeepsVertices(vd: map<Lab, Lists>, ed: map<Lab, Lists>, fd: map<Hex, Lists>, h: Hex,
                            vd': map<Lab, Lists>)
    requires ArenaValid(vd, ed, fd)
    requires vd'.Keys == vd.Keys + (set v | v in FaceVertices(h))
    requires forall v :: v in vd ==> vd'[v] == vd[v]
    ensures VerticesFreshExcept(vd', VertexKeys(fd.Keys + {h}), EdgeKeys(fd.Keys + {h}), fd.Keys + {h}, FaceVertices(h))
  {
    forall v | v in vd' && v !in FaceVertices(h)
      ensures vd'[v] == VertexLists(v, VertexKeys(fd.Keys + {h}), EdgeKeys(fd.Keys + {h}), fd.Keys + {h})
    {
      assert vd[v] == VertexLists(v, vd.Keys, ed.Keys, fd.Keys);
      VertexFrame(fd.Keys, h, v);
    }
  }

  lemma InsertKeepsEdges(vd: map<Lab, Lists>, ed: map<Lab, Lists>, fd: map<Hex, Lists>, h: Hex,
                         ed': map<Lab, Lists>)
    requires ArenaValid(vd, ed, fd)
    requires ed'.Keys == ed.Keys + (set e | e in FaceEdges(h))
    requires forall e :: e in ed ==> ed'[e] == ed[e]
    ensures EdgesFreshExcept(ed', VertexKeys(fd.Keys + {h}), EdgeKeys(fd.Keys + {h}), fd.Keys + {h},
                             FaceEdges(h), EdgeLayer(h, EdgeKeys(fd.Keys + {h})))
  {
    forall e | e in ed' && e !in FaceEdges(h)
      ensures ed'[e].vertices == Present(EdgeVertices(e), VertexKeys(fd.Keys + {h}))
      ensures ed'[e].faces == Present(EdgeFaces(e), fd.Keys + {h})
      ensures e !in EdgeLayer(h, EdgeKeys(fd.Keys + {h})) ==>
                ed'[e].edges == Present(EdgeNeighbours(e), EdgeKeys(fd.Keys + {h}))
    {
      assert ed[e] == EdgeLists(e, vd.Keys, ed.Keys, fd.Keys);
      EdgeFrame(fd.Keys, h, e);
    }
  }

  /** Widening the set of edges whose edge lists may be stale keeps the predicate. */
  lemma EdgesStaleWiden(ed: map<Lab, Lists>, vk: set<Lab>, ek: set<Lab>, fk: set<Hex>,
                        s1: set<Lab>, s2: set<Lab>)
    requires EdgesFreshExcept(ed, vk, ek, fk, [], s1) && s1 <= s2
    ensures EdgesFreshExcept(ed, vk, ek, fk, [], s2)
  {
  }

  /**
   * Once face h is up to date, a neighbour of h that is a key appears in h's
   * face list, so the stale neighbours are those of that list.
   */
  lemma FacesStaleNarrow(fd: map<Hex, Lists>, h: Hex)
    requires h in fd && FacesFreshExcept(fd, fd.Keys, FaceNeighbours(h))
    ensures FacesFreshExcept(fd, fd.Keys, fd[h].faces)
  {
    assert fd[h].vertices == FaceVertices(h);
    forall f | f in fd && f !in fd[h].faces && f in FaceNeighbours(h)
      ensures false
    {
    }
  }
}
