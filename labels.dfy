/**
 * Labels of the hexagonal tiling.
 *
 * A hexagon (face) is addressed by its axial coordinates (xi, eta). Each
 * hexagon numbers its six vertices and six edges locally by nu = 0..5; a
 * vertex or edge shared by neighbouring hexagons has several such local
 * names, and the canonical label folds them into one: nu in 0..2 for edges,
 * nu in 0..1 for vertices (male vertices have nu = 0, female ones nu = 1).
 *
 * The neighbour tables below are the label lists that the refresh methods of
 * Face, Edge and Vertex look up in the dictionaries of a benzenoid.
 */
module Labels {
  import opened Wrappers

  /** A hexagon in axial coordinates. */
  datatype Hex = Hex(xi: int, eta: int)

  /** An edge or vertex label: a hexagon and a local index. */
  datatype Lab = Lab(xi: int, eta: int, nu: int)

  /** Raised when a local index lies outside 0..5. */
  datatype LabelError = NuOutOfRange

  predicate IsCanonicalEdge(e: Lab) { 0 <= e.nu <= 2 }

  predicate IsCanonicalVertex(v: Lab) { 0 <= v.nu <= 1 }

  /** Edge.canonical_label: the representative of the edge a raw label names. */
  function CanonicalEdgeLabel(l: Lab): (r: Result<Lab, LabelError>)
    ensures r.Ok? <==> 0 <= l.nu <= 5
    ensures r.Ok? ==> IsCanonicalEdge(r.value)
    ensures IsCanonicalEdge(l) ==> r == Ok(l)
  {
    if 0 <= l.nu <= 2 then Ok(l)
    else if l.nu == 3 then Ok(Lab(l.xi + 1, l.eta - 1, 0))
    else if l.nu == 4 then Ok(Lab(l.xi, l.eta - 1, 1))
    else if l.nu == 5 then Ok(Lab(l.xi - 1, l.eta, 2))
    else Err(NuOutOfRange)
  }

  /** Vertex.canonical_label: the representative of the vertex a raw label names. */
  function CanonicalVertexLabel(l: Lab): (r: Result<Lab, LabelError>)
    ensures r.Ok? <==> 0 <= l.nu <= 5
    ensures r.Ok? ==> IsCanonicalVertex(r.value)
    ensures IsCanonicalVertex(l) ==> r == Ok(l)
  {
    if 0 <= l.nu <= 1 then Ok(l)
    else if l.nu == 2 then Ok(Lab(l.xi + 1, l.eta - 1, 0))
    else if 3 <= l.nu <= 4 then Ok(Lab(l.xi, l.eta - 1, 4 - l.nu))
    else if l.nu == 5 then Ok(Lab(l.xi - 1, l.eta, 1))
    else Err(NuOutOfRange)
  }

  /** Canonicalising twice is canonicalising once. */
  lemma CanonicalLabelsIdempotent(l: Lab)
    requires 0 <= l.nu <= 5
    ensures CanonicalEdgeLabel(CanonicalEdgeLabel(l).value) == CanonicalEdgeLabel(l)
    ensures CanonicalVertexLabel(CanonicalVertexLabel(l).value) == CanonicalVertexLabel(l)
  {
  }

  /** The vertex at local index nu of hexagon h. */
  function FaceVertex(h: Hex, nu: int): (v: Lab)
    requires 0 <= nu < 6
    ensures IsCanonicalVertex(v)
  {
    CanonicalVertexLabel(Lab(h.xi, h.eta, nu)).value
  }

  /** The edge at local index nu of hexagon h. */
  function FaceEdge(h: Hex, nu: int): (e: Lab)
    requires 0 <= nu < 6
    ensures IsCanonicalEdge(e)
  {
    CanonicalEdgeLabel(Lab(h.xi, h.eta, nu)).value
  }

  /** The six vertices of a hexagon in local order. */
  function FaceVertices(h: Hex): (r: seq<Lab>)
    ensures |r| == 6 && forall i :: 0 <= i < 6 ==> IsCanonicalVertex(r[i])
  {
    [FaceVertex(h, 0), FaceVertex(h, 1), FaceVertex(h, 2),
     FaceVertex(h, 3), FaceVertex(h, 4), FaceVertex(h, 5)]
  }

  /** The six edges of a hexagon in local order. */
  function FaceEdges(h: Hex): (r: seq<Lab>)
    ensures |r| == 6 && forall i :: 0 <= i < 6 ==> IsCanonicalEdge(r[i])
  {
    [FaceEdge(h, 0), FaceEdge(h, 1), FaceEdge(h, 2),
     FaceEdge(h, 3), FaceEdge(h, 4), FaceEdge(h, 5)]
  }

  /** The six hexagons that share an edge with h (Face.update_face_list). */
  function FaceNeighbours(h: Hex): (r: seq<Hex>)
    ensures |r| == 6 && h !in r
  {
    [Hex(h.xi - 1, h.eta + 1), Hex(h.xi, h.eta + 1), Hex(h.xi - 1, h.eta),
     Hex(h.xi + 1, h.eta), Hex(h.xi, h.eta - 1), Hex(h.xi + 1, h.eta - 1)]
  }

  /** The two endpoints of a canonical edge (Edge.update_vertex_list). */
  function EdgeVertices(e: Lab): (r: seq<Lab>)
    ensures |r| == 2 && r[0] != r[1]
  {
    if e.nu == 0 then [Lab(e.xi - 1, e.eta, 1), Lab(e.xi, e.eta, 0)]
    else if e.nu == 1 then [Lab(e.xi, e.eta, 0), Lab(e.xi, e.eta, 1)]
    else [Lab(e.xi, e.eta, 1), Lab(e.xi + 1, e.eta - 1, 0)]
  }

  /** The four edges that share an endpoint with a canonical edge (Edge.update_edge_list). */
  function EdgeNeighbours(e: Lab): (r: seq<Lab>)
    ensures |r| == 4 && e !in r
  {
    if e.nu == 0 then
      [Lab(e.xi - 1, e.eta + 1, 2), Lab(e.xi - 1, e.eta, 1), Lab(e.xi, e.eta, 1), Lab(e.xi - 1, e.eta, 2)]
    else if e.nu == 1 then
      [Lab(e.xi - 1, e.eta + 1, 2), Lab(e.xi, e.eta, 0), Lab(e.xi + 1, e.eta, 0), Lab(e.xi, e.eta, 2)]
    else
      [Lab(e.xi, e.eta, 1), Lab(e.xi + 1, e.eta, 0), Lab(e.xi + 1, e.eta - 1, 0), Lab(e.xi + 1, e.eta - 1, 1)]
  }

  /**
   * The two hexagons on either side of a canonical edge
   * (Edge.update_face_list and Edge.incident_faces_candidates).
   */
  function EdgeFaces(e: Lab): (r: seq<Hex>)
    ensures |r| == 2 && r[0] != r[1]
  {
    if e.nu == 0 then [Hex(e.xi - 1, e.eta + 1), Hex(e.xi, e.eta)]
    else if e.nu == 1 then [Hex(e.xi, e.eta + 1), Hex(e.xi, e.eta)]
    else [Hex(e.xi, e.eta), Hex(e.xi + 1, e.eta)]
  }

  /** The three vertices next to a canonical vertex (Vertex.update_vertex_list). */
  function VertexNeighbours(v: Lab): (r: seq<Lab>)
    ensures |r| == 3 && v !in r
  {
    if v.nu == 0 then [Lab(v.xi - 1, v.eta + 1, 1), Lab(v.xi - 1, v.eta, 1), Lab(v.xi, v.eta, 1)]
    else [Lab(v.xi, v.eta, 0), Lab(v.xi + 1, v.eta, 0), Lab(v.xi + 1, v.eta - 1, 0)]
  }

  /**
   * The three edges at a canonical vertex (Vertex.update_edge_list); entry i
   * is also the edge that Vertex.update_vertex_list pairs with neighbour i.
   */
  function VertexEdges(v: Lab): (r: seq<Lab>)
    ensures |r| == 3
  {
    if v.nu == 0 then [Lab(v.xi - 1, v.eta + 1, 2), Lab(v.xi, v.eta, 0), Lab(v.xi, v.eta, 1)]
    else [Lab(v.xi, v.eta, 1), Lab(v.xi + 1, v.eta, 0), Lab(v.xi, v.eta, 2)]
  }

  /** The three hexagons around a canonical vertex (Vertex.update_face_list). */
  function VertexFaces(v: Lab): (r: seq<Hex>)
    ensures |r| == 3
  {
    if v.nu == 0 then [Hex(v.xi - 1, v.eta + 1), Hex(v.xi, v.eta + 1), Hex(v.xi, v.eta)]
    else [Hex(v.xi, v.eta + 1), Hex(v.xi, v.eta), Hex(v.xi + 1, v.eta)]
  }

  /** The edge at local index nu joins the vertices at local indices nu - 1 (mod 6) and nu. */
  lemma FaceEdgeEndpoints(h: Hex, nu: int)
    requires 0 <= nu < 6
    ensures |EdgeVertices(FaceEdge(h, nu))| == 2
    ensures FaceVertex(h, (nu + 5) % 6) in EdgeVertices(FaceEdge(h, nu))
    ensures FaceVertex(h, nu) in EdgeVertices(FaceEdge(h, nu))
    ensures forall w :: w in EdgeVertices(FaceEdge(h, nu)) ==> w in FaceVertices(h)
  {
  }

  /** The six vertex labels and the six edge labels of a hexagon are pairwise distinct. */
  lemma FaceLabelsDistinct(h: Hex)
    ensures forall i, j :: 0 <= i < j < 6 ==> FaceVertices(h)[i] != FaceVertices(h)[j]
    ensures forall i, j :: 0 <= i < j < 6 ==> FaceEdges(h)[i] != FaceEdges(h)[j]
  {
  }

  /** A hexagon lies beside a canonical edge exactly when the edge is one of the hexagon's six. */
  lemma EdgeFacesIffFaceEdge(e: Lab, f: Hex)
    requires IsCanonicalEdge(e)
    ensures f in EdgeFaces(e) <==> e in FaceEdges(f)
  {
  }

  /** A hexagon lies around a canonical vertex exactly when the vertex is one of the hexagon's six. */
  lemma VertexFacesIffFaceVertex(v: Lab, f: Hex)
    requires IsCanonicalVertex(v)
    ensures f in VertexFaces(v) <==> v in FaceVertices(f)
  {
  }

  /** The edges at a vertex are exactly the edges that have the vertex as an endpoint. */
  lemma VertexEdgesIffEndpoint(v: Lab, e: Lab)
    requires IsCanonicalVertex(v) && IsCanonicalEdge(e)
    ensures e in VertexEdges(v) <==> v in EdgeVertices(e)
  {
  }

  /**
   * Neighbour i of a vertex is the far end of the edge paired with it, so
   * the pairing in Vertex.update_vertex_list counts a neighbour exactly when
   * the edge between the two vertices exists.
   */
  lemma VertexNeighbourAcrossEdge(v: Lab, i: int)
    requires IsCanonicalVertex(v) && 0 <= i < 3
    ensures EdgeVertices(VertexEdges(v)[i]) == [v, VertexNeighbours(v)[i]]
         || EdgeVertices(VertexEdges(v)[i]) == [VertexNeighbours(v)[i], v]
    ensures VertexNeighbours(v)[i] != v
  {
  }

  /** Edge adjacency is symmetric. */
  lemma EdgeNeighboursSymmetric(e: Lab, d: Lab)
    requires IsCanonicalEdge(e) && IsCanonicalEdge(d)
    ensures d in EdgeNeighbours(e) <==> e in EdgeNeighbours(d)
  {
  }

  /** Two canonical edges are adjacent exactly when they are distinct and share an endpoint. */
  lemma EdgeNeighboursShareEndpoint(e: Lab, d: Lab)
    requires IsCanonicalEdge(e) && IsCanonicalEdge(d)
    ensures d in EdgeNeighbours(e) <==>
            d != e && (EdgeVertices(e)[0] in EdgeVertices(d) || EdgeVertices(e)[1] in EdgeVertices(d))
  {
  }

  /** The two hexagons beside an edge are neighbours of each other. */
  lemma EdgeFacesAdjacent(e: Lab)
    ensures EdgeFaces(e)[1] in FaceNeighbours(EdgeFaces(e)[0])
    ensures EdgeFaces(e)[0] in FaceNeighbours(EdgeFaces(e)[1])
  {
  }

  /**
   * The edges at local indices nu and nu + 1 (mod 6) of hexagon h both end at
   * the vertex at local index nu, and sit at places i and j of that vertex's
   * edge list.
   */
  lemma FaceVertexEdgeIndices(h: Hex, nu: int) returns (i: int, j: int)
    requires 0 <= nu < 6
    ensures 0 <= i < 3 && 0 <= j < 3 && i != j
    ensures VertexEdges(FaceVertex(h, nu))[i] == FaceEdge(h, nu)
    ensures VertexEdges(FaceVertex(h, nu))[j] == FaceEdge(h, (nu + 1) % 6)
    ensures VertexEdges(FaceVertex(h, nu))[i] in FaceEdges(h)
    ensures VertexEdges(FaceVertex(h, nu))[j] in FaceEdges(h)
  {
    if nu == 0 { i, j := 1, 2; }
    else if nu == 1 { i, j := 0, 2; }
    else if nu == 2 { i, j := 0, 1; }
    else if nu == 3 { i, j := 1, 0; }
    else if nu == 4 { i, j := 2, 0; }
    else { i, j := 2, 1; }
  }

  /** Face adjacency is symmetric. */
  lemma FaceNeighboursSymmetric(f: Hex, g: Hex)
    ensures g in FaceNeighbours(f) <==> f in FaceNeighbours(g)
  {
  }
}
