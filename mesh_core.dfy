// The index-based half-edge mesh store of hwA/A.4 and hwA/A.6 (include/Mesh/Mesh.h),
// as values: every entity lives in its own append-only sequence and refers to the
// others by position. The class in mesh.dfy holds the same sequences as fields and
// its methods are proved to produce exactly the values computed here.
module MeshCore {
  import opened Common
  import opened Geometry

  /** Geometry of a vertex (texture coordinates and the unused quadric are not modelled). */
  datatype Vertex = Vertex(position: Vec3, normal: Vec3)

  /** Topology of a vertex: its own id and the half-edges leaving and entering it. */
  datatype VertexElement = VertexElement(id: nat, outgoingHalfEdgeIds: seq<nat>, incomingHalfEdgeIds: seq<nat>)

  datatype HalfEdge = HalfEdge(
    id: nat,
    edgeId: nat,
    prevHalfEdgeId: nat,
    nextHalfEdgeId: nat,
    oppositeHalfEdgeId: nat,
    toVertexId: nat,
    fromVertexId: nat,
    faceId: nat)

  /** An undirected edge: the half-edge that created it, the opposite one once it is
      seen, and the creator's endpoints. */
  datatype EdgeElement = EdgeElement(
    halfEdge1Id: nat,
    halfEdge2Id: nat,
    halfEdge1ToVertexId: nat,
    halfEdge1FromVertexId: nat)

  /** Edge payload (cost and quadric data) is never filled in, so an edge carries nothing. */
  datatype Edge = Edge

  datatype Face = Face(normal: Vec3)

  datatype FaceElement = FaceElement(startHalfEdgeId: nat, vertexIds: seq<nat>)

  datatype MeshData = MeshData(
    vertices: seq<Vertex>,
    vertexElements: seq<VertexElement>,
    edges: seq<Edge>,
    edgeElements: seq<EdgeElement>,
    faces: seq<Face>,
    faceElements: seq<FaceElement>,
    halfEdges: seq<HalfEdge>,
    indices: seq<nat>)

  /** The state after clearData(): every container empty. */
  const EmptyMesh: MeshData := MeshData([], [], [], [], [], [], [], [])

  // ---------------------------------------------------------------------------
  // addVertex

  /** addVertex(position): the new state and the returned id, which is the number of
      vertices before the call; nothing but the two vertex containers changes. */
  function AddVertexSpec(d: MeshData, position: Vec3): (r: (MeshData, nat))
    ensures r.1 == |d.vertexElements|
    ensures |r.0.vertices| == |d.vertices| + 1 && |r.0.vertexElements| == |d.vertexElements| + 1
    ensures r.0.vertices[..|d.vertices|] == d.vertices && r.0.vertexElements[..r.1] == d.vertexElements
    ensures r.0.vertices[|d.vertices|].position == position
    ensures r.0.vertexElements[r.1] == VertexElement(r.1, [], [])
    ensures r.0.(vertices := d.vertices, vertexElements := d.vertexElements) == d
    ensures Indexable(d) ==> Indexable(r.0)
  {
    var vertexId := |d.vertexElements|;
    (d.(vertices := d.vertices + [Vertex(position, Zero)],
        vertexElements := d.vertexElements + [VertexElement(vertexId, [], [])]),
     vertexId)
  }

  // ---------------------------------------------------------------------------
  // addFace

  predicate IdsBelow(ids: seq<nat>, bound: nat)
  {
    forall k :: 0 <= k < |ids| ==> ids[k] < bound
  }

  /** What addFace needs in order to index its containers. */
  ghost predicate Indexable(d: MeshData)
  {
    && |d.edges| == |d.edgeElements|
    && (forall v :: 0 <= v < |d.vertexElements| ==>
          IdsBelow(d.vertexElements[v].incomingHalfEdgeIds, |d.halfEdges|))
    && (forall h :: 0 <= h < |d.halfEdges| ==> d.halfEdges[h].edgeId < |d.edgeElements|)
  }

  /** Position, in `candidates` from `k` on, of the first half-edge that starts at
      `target`; |candidates| when there is none. */
  function FirstFrom(halfEdges: seq<HalfEdge>, candidates: seq<nat>, target: nat, k: nat): (r: nat)
    requires IdsBelow(candidates, |halfEdges|)
    requires k <= |candidates|
    ensures k <= r <= |candidates|
    ensures r < |candidates| ==> halfEdges[candidates[r]].fromVertexId == target
    ensures forall j :: k <= j < r ==> halfEdges[candidates[j]].fromVertexId != target
    decreases |candidates| - k
  {
    if k == |candidates| then k
    else if halfEdges[candidates[k]].fromVertexId == target then k
    else FirstFrom(halfEdges, candidates, target, k + 1)
  }

  /** Iteration `i` of addFace's loop: fabricate half-edge `start + i` of face `faceId`. */
  function AddHalfEdge(d: MeshData, vertexIds: seq<nat>, start: nat, faceId: nat, i: nat): (r: MeshData)
    requires Indexable(d)
    requires 3 <= |vertexIds| && i < |vertexIds| && IdsBelow(vertexIds, |d.vertexElements|)
    requires |d.halfEdges| == start + i
    ensures Indexable(r)
    ensures |r.halfEdges| == |d.halfEdges| + 1 && |r.vertexElements| == |d.vertexElements|
    ensures r.vertices == d.vertices && r.faces == d.faces && r.faceElements == d.faceElements
  {
    var n := |vertexIds|;
    var cur := |d.halfEdges|;
    var from := vertexIds[i];
    var to := vertexIds[(i + 1) % n];
    var incoming := d.vertexElements[from].incomingHalfEdgeIds;
    var k := FirstFrom(d.halfEdges, incoming, to, 0);
    var opp := if k < |incoming| then incoming[k] else INVALID_INDEX;
    var hes := if k < |incoming| then d.halfEdges[opp := d.halfEdges[opp].(oppositeHalfEdgeId := cur)]
               else d.halfEdges;
    var ves1 := d.vertexElements[from := d.vertexElements[from].(
                  outgoingHalfEdgeIds := d.vertexElements[from].outgoingHalfEdgeIds + [cur])];
    var ves2 := ves1[to := ves1[to].(incomingHalfEdgeIds := ves1[to].incomingHalfEdgeIds + [cur])];
    var prev := if i == 0 then cur - 1 + n else cur - 1;
    var next := if i == n - 1 then cur + 1 - n else cur + 1;
    if opp != INVALID_INDEX then
      var edgeId := hes[opp].edgeId;
      d.(vertexElements := ves2,
         edgeElements := d.edgeElements[edgeId := d.edgeElements[edgeId].(halfEdge2Id := cur)],
         halfEdges := hes + [HalfEdge(cur, edgeId, prev, next, opp, to, from, faceId)],
         indices := d.indices + [ToU32(from)])
    else
      var edgeId := |d.edges|;
      d.(vertexElements := ves2,
         edgeElements := d.edgeElements + [EdgeElement(cur, INVALID_INDEX, to, from)],
         edges := d.edges + [Edge],
         halfEdges := hes + [HalfEdge(cur, edgeId, prev, next, opp, to, from, faceId)],
         indices := d.indices + [ToU32(from)])
  }

  /** The first `k` iterations of addFace's loop. */
  function AddHalfEdges(d: MeshData, vertexIds: seq<nat>, faceId: nat, k: nat): (r: MeshData)
    requires Indexable(d)
    requires 3 <= |vertexIds| && k <= |vertexIds| && IdsBelow(vertexIds, |d.vertexElements|)
    ensures Indexable(r)
    ensures |r.halfEdges| == |d.halfEdges| + k
    ensures |r.vertexElements| == |d.vertexElements|
    ensures r.vertices == d.vertices && r.faces == d.faces && r.faceElements == d.faceElements
    decreases k
  {
    if k == 0 then d
    else
      AddHalfEdge(AddHalfEdges(d, vertexIds, faceId, k - 1), vertexIds, |d.halfEdges|, faceId, k - 1)
  }

  /** addFace(vertexIds): the new state and the returned id of the first new half-edge. */
  function AddFaceSpec(d: MeshData, vertexIds: seq<nat>): (r: (MeshData, nat))
    requires Indexable(d)
    requires 3 <= |vertexIds| && IdsBelow(vertexIds, |d.vertexElements|)
    ensures Indexable(r.0)
    ensures r.1 == |d.halfEdges| && |r.0.halfEdges| == |d.halfEdges| + |vertexIds|
    ensures r.0.faceElements == d.faceElements + [FaceElement(r.1, vertexIds)]
    ensures |r.0.faces| == |d.faces| + 1
    ensures r.0.vertices == d.vertices && |r.0.vertexElements| == |d.vertexElements|
  {
    var start := |d.halfEdges|;
    var r := AddHalfEdges(d, vertexIds, |d.faceElements|, |vertexIds|);
    (r.(faceElements := r.faceElements + [FaceElement(start, vertexIds)],
        faces := r.faces + [Face(Zero)]),
     start)
  }

  // ---------------------------------------------------------------------------
  // Well-formedness

  /** Parallel containers grow together. */
  ghost predicate Lockstep(d: MeshData)
  {
    && |d.vertices| == |d.vertexElements|
    && |d.edges| == |d.edgeElements|
    && |d.faces| == |d.faceElements|
  }

  /** Ids never reach the sentinel (a size_t container cannot hold that many entries). */
  ghost predicate Capacity(d: MeshData)
  {
    && |d.vertexElements| < INVALID_INDEX
    && |d.halfEdges| < INVALID_INDEX
    && |d.faceElements| < INVALID_INDEX
    && |d.edgeElements| <= |d.halfEdges|
  }

  ghost predicate DenseIds(d: MeshData)
  {
    && (forall v :: 0 <= v < |d.vertexElements| ==> d.vertexElements[v].id == v)
    && (forall h :: 0 <= h < |d.halfEdges| ==> d.halfEdges[h].id == h)
  }

  /** Half-edge `h` has endpoints and an edge that exist, and its opposite (if any)
      runs the same edge in reverse. */
  ghost predicate HalfEdgeOk(d: MeshData, h: nat)
    requires h < |d.halfEdges|
  {
    var he := d.halfEdges[h];
    && he.fromVertexId < |d.vertexElements|
    && he.toVertexId < |d.vertexElements|
    && he.edgeId < |d.edgeElements|
    && (he.oppositeHalfEdgeId == INVALID_INDEX ||
        (&& he.oppositeHalfEdgeId < |d.halfEdges|
         && d.halfEdges[he.oppositeHalfEdgeId].fromVertexId == he.toVertexId
         && d.halfEdges[he.oppositeHalfEdgeId].toVertexId == he.fromVertexId
         && d.halfEdges[he.oppositeHalfEdgeId].edgeId == he.edgeId))
  }

  ghost predicate HalfEdgeLinks(d: MeshData)
  {
    forall h :: 0 <= h < |d.halfEdges| ==> HalfEdgeOk(d, h)
  }

  /** Edge `e` is owned by its first half-edge, caches that half-edge's endpoints,
      and its second half-edge (if any) is also on edge `e`. */
  ghost predicate EdgeOk(d: MeshData, e: nat)
    requires e < |d.edgeElements|
  {
    var ee := d.edgeElements[e];
    && ee.halfEdge1Id < |d.halfEdges|
    && d.halfEdges[ee.halfEdge1Id].edgeId == e
    && d.halfEdges[ee.halfEdge1Id].fromVertexId == ee.halfEdge1FromVertexId
    && d.halfEdges[ee.halfEdge1Id].toVertexId == ee.halfEdge1ToVertexId
    && (ee.halfEdge2Id == INVALID_INDEX ||
        (ee.halfEdge2Id < |d.halfEdges| && d.halfEdges[ee.halfEdge2Id].edgeId == e))
  }

  ghost predicate EdgeLinks(d: MeshData)
  {
    forall e :: 0 <= e < |d.edgeElements| ==> EdgeOk(d, e)
  }

  predicate Increasing(s: seq<nat>)
  {
    forall i, j :: 0 <= i < j < |s| ==> s[i] < s[j]
  }

  /** Vertex `v` lists, in increasing order, only half-edges leaving it (outgoing)
      and only half-edges entering it (incoming). */
  ghost predicate VertexListsOk(d: MeshData, v: nat)
    requires v < |d.vertexElements|
  {
    var ve := d.vertexElements[v];
    && Increasing(ve.outgoingHalfEdgeIds)
    && Increasing(ve.incomingHalfEdgeIds)
    && (forall k :: 0 <= k < |ve.outgoingHalfEdgeIds| ==>
          ve.outgoingHalfEdgeIds[k] < |d.halfEdges| &&
          d.halfEdges[ve.outgoingHalfEdgeIds[k]].fromVertexId == v)
    && (forall k :: 0 <= k < |ve.incomingHalfEdgeIds| ==>
          ve.incomingHalfEdgeIds[k] < |d.halfEdges| &&
          d.halfEdges[ve.incomingHalfEdgeIds[k]].toVertexId == v)
  }

  /** Every half-edge is listed, exactly once, by the vertex it leaves and by the
      vertex it enters. */
  ghost predicate Incidence(d: MeshData)
  {
    && (forall v :: 0 <= v < |d.vertexElements| ==> VertexListsOk(d, v))
    && (forall h :: 0 <= h < |d.halfEdges| ==>
          d.halfEdges[h].fromVertexId < |d.vertexElements| &&
          d.halfEdges[h].toVertexId < |d.vertexElements| &&
          h in d.vertexElements[d.halfEdges[h].fromVertexId].outgoingHalfEdgeIds &&
          h in d.vertexElements[d.halfEdges[h].toVertexId].incomingHalfEdgeIds)
  }

  /** The facts that hold between any two iterations of addFace's loop. */
  ghost predicate Links(d: MeshData)
  {
    DenseIds(d) && HalfEdgeLinks(d) && EdgeLinks(d) && Incidence(d)
  }

  /** Slot `i` of the ring that starts at half-edge `start` and runs through `vertexIds`. */
  ghost predicate SlotOk(halfEdges: seq<HalfEdge>, start: nat, vertexIds: seq<nat>, faceId: nat, i: nat)
    requires i < |vertexIds| && start + i < |halfEdges|
  {
    var n := |vertexIds|;
    var he := halfEdges[start + i];
    && he.fromVertexId == vertexIds[i]
    && he.toVertexId == vertexIds[(i + 1) % n]
    && he.faceId == faceId
    && he.nextHalfEdgeId == (if i == n - 1 then start else start + i + 1)
    && he.prevHalfEdgeId == (if i == 0 then start + n - 1 else start + i - 1)
  }

  /** Face `faceId` owns the N consecutive half-edges from its start, linked in one cycle. */
  ghost predicate RingOk(halfEdges: seq<HalfEdge>, face: FaceElement, faceId: nat)
  {
    && 3 <= |face.vertexIds|
    && face.startHalfEdgeId + |face.vertexIds| <= |halfEdges|
    && forall i :: 0 <= i < |face.vertexIds| ==> SlotOk(halfEdges, face.startHalfEdgeId, face.vertexIds, faceId, i)
  }

  ghost predicate FaceRings(d: MeshData)
  {
    forall f :: 0 <= f < |d.faceElements| ==> RingOk(d.halfEdges, d.faceElements[f], f)
  }

  /** Every half-edge below `bound` lies inside the ring of the face it names. */
  ghost predicate MembersBelow(d: MeshData, bound: nat)
  {
    forall h :: 0 <= h < |d.halfEdges| && h < bound ==>
      && d.halfEdges[h].faceId < |d.faceElements|
      && d.faceElements[d.halfEdges[h].faceId].startHalfEdgeId <= h
      && h < d.faceElements[d.halfEdges[h].faceId].startHalfEdgeId
             + |d.faceElements[d.halfEdges[h].faceId].vertexIds|
  }

  /** The index buffer: every face's vertex ids, in the order faces were added,
      each narrowed to 32 bits. */
  function FlatIndices(faces: seq<FaceElement>): (r: seq<nat>)
    ensures forall k :: 0 <= k < |r| ==> r[k] < U32_MODULUS
  {
    if faces == [] then []
    else FlatIndices(faces[..|faces| - 1]) + U32s(faces[|faces| - 1].vertexIds)
  }

  function U32s(ids: seq<nat>): (r: seq<nat>)
    ensures |r| == |ids|
    ensures forall k :: 0 <= k < |ids| ==> r[k] == ToU32(ids[k])
  {
    if ids == [] then [] else [ToU32(ids[0])] + U32s(ids[1..])
  }

  ghost predicate WellFormed(d: MeshData)
  {
    && Lockstep(d)
    && Capacity(d)
    && Links(d)
    && FaceRings(d)
    && MembersBelow(d, |d.halfEdges|)
    && d.indices == FlatIndices(d.faceElements)
  }
}
