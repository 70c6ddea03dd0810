// The combinatorial part of calcNormal (hwA/A.6/include/Mesh/Mesh.h): which vertices
// a face normal is computed from, which incoming half-edges of a vertex contribute
// to its normal, and which two neighbours span the angle each one is weighted by.
// The vector arithmetic (cross product, normalisation, acos of a clamped dot
// product) is passed in as functions.
module Normals {
  import opened Common
  import opened Geometry
  import opened MeshCore
  import opened MeshWellFormed
  import opened MeshFacts
  import opened MeshLoad

  // ---------------------------------------------------------------------------
  // Ring neighbours

  lemma ModBelow(a: nat, n: nat)
    requires a < n
    ensures a % n == a
  {
  }

  lemma ModSelf(n: nat)
    requires 0 < n
    ensures n % n == 0
  {
  }

  /** Slot `i` of a ring and the slot before it. */
  lemma SlotPrev(halfEdges: seq<HalfEdge>, face: FaceElement, f: nat, i: nat)
    requires RingOk(halfEdges, face, f) && i < |face.vertexIds|
    ensures var s := face.startHalfEdgeId;
      var pi := if i == 0 then |face.vertexIds| - 1 else i - 1;
      && halfEdges[s + i].prevHalfEdgeId == s + pi
      && halfEdges[s + i].fromVertexId == face.vertexIds[i]
      && halfEdges[s + pi].toVertexId == face.vertexIds[i]
      && halfEdges[s + pi].fromVertexId == face.vertexIds[pi]
      && halfEdges[s + pi].faceId == f
  {
    var n := |face.vertexIds|;
    var pi := if i == 0 then n - 1 else i - 1;
    assert SlotOk(halfEdges, face.startHalfEdgeId, face.vertexIds, f, i);
    assert SlotOk(halfEdges, face.startHalfEdgeId, face.vertexIds, f, pi);
    assert (pi + 1) % n == i by {
      if i == 0 { ModSelf(n); } else { ModBelow(i, n); }
    }
  }

  /** Slot `i` of a ring and the slot after it. */
  lemma SlotNext(halfEdges: seq<HalfEdge>, face: FaceElement, f: nat, i: nat)
    requires RingOk(halfEdges, face, f) && i < |face.vertexIds|
    ensures var s := face.startHalfEdgeId;
      var n := |face.vertexIds|;
      var xi := if i == n - 1 then 0 else i + 1;
      && halfEdges[s + i].nextHalfEdgeId == s + xi
      && halfEdges[s + xi].fromVertexId == halfEdges[s + i].toVertexId
      && halfEdges[s + xi].toVertexId == face.vertexIds[(xi + 1) % n]
      && halfEdges[s + xi].faceId == f
  {
    var n := |face.vertexIds|;
    var xi := if i == n - 1 then 0 else i + 1;
    assert SlotOk(halfEdges, face.startHalfEdgeId, face.vertexIds, f, i);
    assert SlotOk(halfEdges, face.startHalfEdgeId, face.vertexIds, f, xi);
    assert (i + 1) % n == xi by {
      if i == n - 1 { ModSelf(n); } else { ModBelow(i + 1, n); }
    }
  }

  /** On a triangle the slot after `i` ends where the slot before `i` starts. */
  lemma SlotTriangle(halfEdges: seq<HalfEdge>, face: FaceElement, f: nat, i: nat)
    requires RingOk(halfEdges, face, f) && i < |face.vertexIds| == 3
    ensures var s := face.startHalfEdgeId;
      var pi := if i == 0 then 2 else i - 1;
      var xi := if i == 2 then 0 else i + 1;
      halfEdges[s + xi].toVertexId == halfEdges[s + pi].fromVertexId
  {
    SlotPrev(halfEdges, face, f, i);
    SlotNext(halfEdges, face, f, i);
    var xi := if i == 2 then 0 else i + 1;
    var pi := if i == 0 then 2 else i - 1;
    assert (xi + 1) % 3 == pi;
  }

  /** In a well-formed store the half-edges before and after `h` on its ring meet it
      at its endpoints and lie on the same face; on a triangle the one before starts
      where the one after ends. */
  lemma RingNeighbours(d: MeshData, h: nat)
    requires WellFormed(d) && h < |d.halfEdges|
    ensures var he := d.halfEdges[h];
      && he.faceId < |d.faceElements|
      && he.prevHalfEdgeId < |d.halfEdges| && he.nextHalfEdgeId < |d.halfEdges|
      && d.halfEdges[he.prevHalfEdgeId].toVertexId == he.fromVertexId
      && d.halfEdges[he.nextHalfEdgeId].fromVertexId == he.toVertexId
      && d.halfEdges[he.prevHalfEdgeId].faceId == he.faceId
      && d.halfEdges[he.nextHalfEdgeId].faceId == he.faceId
      && d.halfEdges[he.prevHalfEdgeId].fromVertexId in d.faceElements[he.faceId].vertexIds
      && he.fromVertexId in d.faceElements[he.faceId].vertexIds
      && (|d.faceElements[he.faceId].vertexIds| == 3 ==>
            d.halfEdges[he.prevHalfEdgeId].fromVertexId == d.halfEdges[he.nextHalfEdgeId].toVertexId)
  {
    var f := d.halfEdges[h].faceId;
    var face := d.faceElements[f];
    assert RingOk(d.halfEdges, face, f);
    var i := h - face.startHalfEdgeId;
    SlotPrev(d.halfEdges, face, f, i);
    SlotNext(d.halfEdges, face, f, i);
    if |face.vertexIds| == 3 {
      SlotTriangle(d.halfEdges, face, f, i);
    }
  }

  /** Every id a face names is a vertex of the store. */
  lemma FaceIdsInRange(d: MeshData, f: nat)
    requires WellFormed(d) && f < |d.faceElements|
    ensures forall k :: 0 <= k < |d.faceElements[f].vertexIds| ==> d.faceElements[f].vertexIds[k] < |d.vertices|
  {
    var face := d.faceElements[f];
    assert RingOk(d.halfEdges, face, f);
    forall k | 0 <= k < |face.vertexIds| ensures face.vertexIds[k] < |d.vertices| {
      assert SlotOk(d.halfEdges, face.startHalfEdgeId, face.vertexIds, f, k);
      assert HalfEdgeOk(d, face.startHalfEdgeId + k);
    }
  }

  // ---------------------------------------------------------------------------
  // Face normals

  /** The three vertex ids the face-normal step reads: the from-vertices of the first
      three half-edges met walking `next` from the face's start. */
  function FaceCorners(d: MeshData, f: nat): (r: seq<nat>)
    requires WellFormed(d) && f < |d.faceElements|
    ensures |r| == 3
    ensures r == d.faceElements[f].vertexIds[..3]
  {
    var s := d.faceElements[f].startHalfEdgeId;
    RingWalk(d, f, 0);
    RingWalk(d, f, 1);
    RingWalk(d, f, 2);
    [d.halfEdges[Follow(d.halfEdges, s, 0)].fromVertexId,
     d.halfEdges[Follow(d.halfEdges, s, 1)].fromVertexId,
     d.halfEdges[Follow(d.halfEdges, s, 2)].fromVertexId]
  }

  /** Normal of face `f` from the positions of its corners; `faceNormal` stands for
      normalize(cross(p1 - p0, p2 - p0)). */
  function FaceNormal(d: MeshData, f: nat, faceNormal: (Vec3, Vec3, Vec3) -> Vec3): Vec3
    requires WellFormed(d) && f < |d.faceElements|
  {
    var c := FaceCorners(d, f);
    FaceIdsInRange(d, f);
    faceNormal(d.vertices[c[0]].position, d.vertices[c[1]].position, d.vertices[c[2]].position)
  }

  // ---------------------------------------------------------------------------
  // Which incoming half-edges contribute, and with which angle

  /** Incoming half-edge `h` contributes to its vertex's normal when it lies on a face
      and the half-edge before it on that face has an opposite. */
  predicate Contributes(d: MeshData, h: nat)
    requires h < |d.halfEdges| && d.halfEdges[h].prevHalfEdgeId < |d.halfEdges|
  {
    && d.halfEdges[h].faceId != INVALID_INDEX
    && d.halfEdges[d.halfEdges[h].prevHalfEdgeId].oppositeHalfEdgeId != INVALID_INDEX
  }

  /** The two ray ends of the angle at `h`'s to-vertex, as written: the from-vertex
      of the opposite of `prev`, and `h`'s own from-vertex. */
  function AsWrittenRayEnds(d: MeshData, h: nat): (r: (nat, nat))
    requires WellFormed(d) && h < |d.halfEdges|
    requires d.halfEdges[h].prevHalfEdgeId < |d.halfEdges| && Contributes(d, h)
    ensures r.0 < |d.vertices| && r.1 < |d.vertices|
  {
    var o := d.halfEdges[d.halfEdges[h].prevHalfEdgeId].oppositeHalfEdgeId;
    assert HalfEdgeOk(d, d.halfEdges[h].prevHalfEdgeId);
    assert HalfEdgeOk(d, o);
    assert HalfEdgeOk(d, h);
    (d.halfEdges[o].fromVertexId, d.halfEdges[h].fromVertexId)
  }

  /** As written, both rays end at the same vertex: the opposite of `prev` starts
      where `prev` ends, which is where `h` starts. The angle between them is
      acos(1) = 0 for every contributing half-edge. */
  lemma AsWrittenRaysCoincide(d: MeshData, h: nat)
    requires WellFormed(d) && h < |d.halfEdges|
    requires d.halfEdges[h].prevHalfEdgeId < |d.halfEdges| && Contributes(d, h)
    ensures AsWrittenRayEnds(d, h).0 == AsWrittenRayEnds(d, h).1
  {
    RingNeighbours(d, h);
    assert HalfEdgeOk(d, d.halfEdges[h].prevHalfEdgeId);
  }

  /** The ray ends as evidently intended: the far end of the opposite of `prev`,
      which is where `prev` starts. */
  function RayEnds(d: MeshData, h: nat): (r: (nat, nat))
    requires WellFormed(d) && h < |d.halfEdges|
    requires d.halfEdges[h].prevHalfEdgeId < |d.halfEdges| && Contributes(d, h)
    ensures r.0 < |d.vertices| && r.1 < |d.vertices|
  {
    var o := d.halfEdges[d.halfEdges[h].prevHalfEdgeId].oppositeHalfEdgeId;
    assert HalfEdgeOk(d, d.halfEdges[h].prevHalfEdgeId);
    assert HalfEdgeOk(d, o);
    assert HalfEdgeOk(d, h);
    (d.halfEdges[o].toVertexId, d.halfEdges[h].fromVertexId)
  }

  /** The corrected rays run from `h`'s to-vertex to two vertices of `h`'s own face:
      the start of `prev` and the start of `h`. On a triangle the first is the corner
      after the to-vertex, so with distinct corners the rays differ and span the
      face's interior angle. */
  lemma RaysSpanFaceAngle(d: MeshData, h: nat)
    requires WellFormed(d) && h < |d.halfEdges|
    requires d.halfEdges[h].prevHalfEdgeId < |d.halfEdges| && Contributes(d, h)
    ensures var (a, b) := RayEnds(d, h);
      var he := d.halfEdges[h];
      && he.faceId < |d.faceElements|
      && a == d.halfEdges[he.prevHalfEdgeId].fromVertexId
      && b == he.fromVertexId
      && a in d.faceElements[he.faceId].vertexIds && b in d.faceElements[he.faceId].vertexIds
      && (|d.faceElements[he.faceId].vertexIds| == 3 ==>
            he.nextHalfEdgeId < |d.halfEdges| && a == d.halfEdges[he.nextHalfEdgeId].toVertexId)
      && (|d.faceElements[he.faceId].vertexIds| == 3 && Distinct(d.faceElements[he.faceId].vertexIds) ==>
            a != b && a != he.toVertexId && b != he.toVertexId)
  {
    var he := d.halfEdges[h];
    RingNeighbours(d, h);
    var p := he.prevHalfEdgeId;
    assert HalfEdgeOk(d, p);
    var f := he.faceId;
    var face := d.faceElements[f];
    if |face.vertexIds| == 3 && Distinct(face.vertexIds) {
      TriangleCornersDiffer(d, h);
    }
  }

  /** On a triangle with distinct corners, the start of `prev`, the start of `h` and
      the end of `h` are three different vertices. */
  lemma TriangleCornersDiffer(d: MeshData, h: nat)
    requires WellFormed(d) && h < |d.halfEdges|
    requires d.halfEdges[h].faceId < |d.faceElements|
    requires |d.faceElements[d.halfEdges[h].faceId].vertexIds| == 3
    requires Distinct(d.faceElements[d.halfEdges[h].faceId].vertexIds)
    ensures var he := d.halfEdges[h];
      && he.prevHalfEdgeId < |d.halfEdges|
      && d.halfEdges[he.prevHalfEdgeId].fromVertexId != he.fromVertexId
      && d.halfEdges[he.prevHalfEdgeId].fromVertexId != he.toVertexId
      && he.fromVertexId != he.toVertexId
  {
    var f := d.halfEdges[h].faceId;
    var face := d.faceElements[f];
    var s := face.startHalfEdgeId;
    assert RingOk(d.halfEdges, face, f);
    var i := h - s;
    assert SlotOk(d.halfEdges, s, face.vertexIds, f, i);
    var pi := if i == 0 then 2 else i - 1;
    assert SlotOk(d.halfEdges, s, face.vertexIds, f, pi);
    assert (i + 1) % 3 != i && pi != i && pi != (i + 1) % 3;
  }

  // ---------------------------------------------------------------------------
  // Accumulating a vertex normal

  /** The weighted sum calcNormal accumulates for vertex `vh` over the incoming
      half-edges `ids`, in list order: each contributing half-edge adds its face's
      normal scaled by the angle its rays span at `vh`. */
  function Accumulate(d: MeshData, vh: nat, ids: seq<nat>, faceNormals: seq<Vec3>,
                      angle: (Vec3, Vec3, Vec3) -> real): (r: Vec3)
    requires WellFormed(d) && vh < |d.vertices| && |faceNormals| == |d.faceElements|
    requires forall k :: 0 <= k < |ids| ==> ids[k] < |d.halfEdges|
    ensures r.NaN? ==> exists f :: 0 <= f < |faceNormals| && faceNormals[f].NaN?
  {
    if ids == [] then Zero
    else
      var acc := Accumulate(d, vh, ids[..|ids| - 1], faceNormals, angle);
      var h := ids[|ids| - 1];
      RingNeighbours(d, h);
      if !Contributes(d, h) then acc
      else
        var (a, b) := RayEnds(d, h);
        var faceId := d.halfEdges[h].faceId;
        Plus(acc, Scale(angle(d.vertices[vh].position, d.vertices[a].position, d.vertices[b].position),
                        faceNormals[faceId]))
  }

  /** The incoming half-edges among `ids` that contribute, in order. */
  function Contributing(d: MeshData, ids: seq<nat>): (r: seq<nat>)
    requires WellFormed(d)
    requires forall k :: 0 <= k < |ids| ==> ids[k] < |d.halfEdges|
    ensures forall k :: 0 <= k < |r| ==> r[k] < |d.halfEdges|
    ensures forall k :: 0 <= k < |r| ==>
      r[k] in ids && d.halfEdges[r[k]].prevHalfEdgeId < |d.halfEdges| && Contributes(d, r[k])
    ensures forall k :: (0 <= k < |ids| && d.halfEdges[ids[k]].prevHalfEdgeId < |d.halfEdges|
                         && Contributes(d, ids[k])) ==> ids[k] in r
  {
    if ids == [] then []
    else
      var h := ids[|ids| - 1];
      RingNeighbours(d, h);
      var rest := Contributing(d, ids[..|ids| - 1]);
      assert forall k :: 0 <= k < |ids| - 1 ==> ids[..|ids| - 1][k] == ids[k];
      if Contributes(d, h) then rest + [h] else rest
  }

  /** Only contributing half-edges affect the sum: skipping the others changes nothing. */
  lemma {:induction false} AccumulateSkips(d: MeshData, vh: nat, ids: seq<nat>, faceNormals: seq<Vec3>,
                                           angle: (Vec3, Vec3, Vec3) -> real)
    requires WellFormed(d) && vh < |d.vertices| && |faceNormals| == |d.faceElements|
    requires forall k :: 0 <= k < |ids| ==> ids[k] < |d.halfEdges|
    ensures Accumulate(d, vh, ids, faceNormals, angle)
         == Accumulate(d, vh, Contributing(d, ids), faceNormals, angle)
  {
    if ids != [] {
      var h := ids[|ids| - 1];
      var init := ids[..|ids| - 1];
      AccumulateSkips(d, vh, init, faceNormals, angle);
      RingNeighbours(d, h);
      var rest := Contributing(d, init);
      if Contributes(d, h) {
        assert (rest + [h])[..|rest + [h]| - 1] == rest;
      }
    }
  }

  /** The sum as written, with the coinciding rays. */
  function AsWrittenAccumulate(d: MeshData, vh: nat, ids: seq<nat>, faceNormals: seq<Vec3>,
                               angle: (Vec3, Vec3, Vec3) -> real): (r: Vec3)
    requires WellFormed(d) && vh < |d.vertices| && |faceNormals| == |d.faceElements|
    requires forall k :: 0 <= k < |ids| ==> ids[k] < |d.halfEdges|
    ensures r.NaN? ==> exists f :: 0 <= f < |faceNormals| && faceNormals[f].NaN?
  {
    if ids == [] then Zero
    else
      var acc := AsWrittenAccumulate(d, vh, ids[..|ids| - 1], faceNormals, angle);
      var h := ids[|ids| - 1];
      RingNeighbours(d, h);
      if !Contributes(d, h) then acc
      else
        var (a, b) := AsWrittenRayEnds(d, h);
        AsWrittenRaysCoincide(d, h);
        RingNeighbours(d, h);
        assert HalfEdgeOk(d, h);
        var faceId := d.halfEdges[h].faceId;
        Plus(acc, Scale(angle(d.vertices[vh].position, d.vertices[b].position, d.vertices[b].position),
                        faceNormals[faceId]))
  }

  /** As written, with an angle function that gives 0 for coinciding rays (acos of the
      clamped dot product of a unit vector with itself), every vertex accumulates the
      zero vector, whose normalisation is undefined. */
  lemma {:induction false} AsWrittenSumIsZero(d: MeshData, vh: nat, ids: seq<nat>, faceNormals: seq<Vec3>,
                                              angle: (Vec3, Vec3, Vec3) -> real)
    requires WellFormed(d) && vh < |d.vertices| && |faceNormals| == |d.faceElements|
    requires forall k :: 0 <= k < |ids| ==> ids[k] < |d.halfEdges|
    requires forall k :: 0 <= k < |faceNormals| ==> !faceNormals[k].NaN?
    requires forall p, q :: angle(p, q, q) == 0.0
    ensures AsWrittenAccumulate(d, vh, ids, faceNormals, angle) == Zero
  {
    if ids != [] {
      AsWrittenSumIsZero(d, vh, ids[..|ids| - 1], faceNormals, angle);
    }
  }

  // ---------------------------------------------------------------------------
  // The whole pass

  /** Every face's normal, in face order. */
  function FaceNormals(d: MeshData, faceNormal: (Vec3, Vec3, Vec3) -> Vec3): (r: seq<Vec3>)
    requires WellFormed(d)
    ensures |r| == |d.faceElements|
  {
    seq(|d.faceElements|, f requires 0 <= f < |d.faceElements| => FaceNormal(d, f, faceNormal))
  }

  /** The incoming half-edges a vertex lists are half-edges of the store. */
  lemma IncomingInRange(d: MeshData, vh: nat)
    requires WellFormed(d) && vh < |d.vertexElements|
    ensures forall k :: 0 <= k < |d.vertexElements[vh].incomingHalfEdgeIds| ==>
      d.vertexElements[vh].incomingHalfEdgeIds[k] < |d.halfEdges|
  {
    assert VertexListsOk(d, vh);
  }

  /** The weighted sum over all incoming half-edges of `vh`. */
  function VertexSum(d: MeshData, vh: nat, faceNormals: seq<Vec3>, angle: (Vec3, Vec3, Vec3) -> real): (r: Vec3)
    requires WellFormed(d) && vh < |d.vertices| && |faceNormals| == |d.faceElements|
    ensures r.NaN? ==> exists f :: 0 <= f < |faceNormals| && faceNormals[f].NaN?
    ensures d.vertexElements[vh].incomingHalfEdgeIds == [] ==> r == Zero
  {
    IncomingInRange(d, vh);
    Accumulate(d, vh, d.vertexElements[vh].incomingHalfEdgeIds, faceNormals, angle)
  }

  /** The normal calcNormal gives vertex `vh`; `normalize` stands for glm::normalize. */
  function VertexNormal(d: MeshData, vh: nat, faceNormal: (Vec3, Vec3, Vec3) -> Vec3,
                        angle: (Vec3, Vec3, Vec3) -> real, normalize: Vec3 -> Vec3): Vec3
    requires WellFormed(d) && vh < |d.vertices|
  {
    normalize(VertexSum(d, vh, FaceNormals(d, faceNormal), angle))
  }

  /** The store after calcNormal: every face normal and every vertex normal replaced,
      nothing else touched. */
  function CalcNormalSpec(d: MeshData, faceNormal: (Vec3, Vec3, Vec3) -> Vec3,
                          angle: (Vec3, Vec3, Vec3) -> real, normalize: Vec3 -> Vec3): (r: MeshData)
    requires WellFormed(d)
    ensures r.(faces := d.faces, vertices := d.vertices) == d
    ensures |r.faces| == |d.faces| && |r.vertices| == |d.vertices|
    ensures forall v :: 0 <= v < |d.vertices| ==> r.vertices[v].position == d.vertices[v].position
  {
    var normals := FaceNormals(d, faceNormal);
    d.(faces := seq(|d.faces|, f requires 0 <= f < |d.faces| => Face(normals[f])),
       vertices := seq(|d.vertices|, v requires 0 <= v < |d.vertices| =>
                     d.vertices[v].(normal := VertexNormal(d, v, faceNormal, angle, normalize))))
  }

  /** calcNormal changes normals only: the topology, the positions and well-formedness
      stay. */
  lemma CalcNormalKeepsTopology(d: MeshData, faceNormal: (Vec3, Vec3, Vec3) -> Vec3,
                                angle: (Vec3, Vec3, Vec3) -> real, normalize: Vec3 -> Vec3)
    requires WellFormed(d)
    ensures var m := CalcNormalSpec(d, faceNormal, angle, normalize);
      && WellFormed(m)
      && m.(faces := d.faces, vertices := d.vertices) == d
      && Positions(m.vertices) == Positions(d.vertices)
  {
    SameTopology(d, CalcNormalSpec(d, faceNormal, angle, normalize));
  }

  /** Face `f`'s new normal is computed from the positions of its first three vertex ids. */
  lemma CalcNormalFace(d: MeshData, faceNormal: (Vec3, Vec3, Vec3) -> Vec3,
                       angle: (Vec3, Vec3, Vec3) -> real, normalize: Vec3 -> Vec3, f: nat)
    requires WellFormed(d) && f < |d.faceElements|
    ensures var ids := d.faceElements[f].vertexIds;
      && 3 <= |ids| && ids[0] < |d.vertices| && ids[1] < |d.vertices| && ids[2] < |d.vertices|
      && CalcNormalSpec(d, faceNormal, angle, normalize).faces[f].normal ==
           faceNormal(d.vertices[ids[0]].position, d.vertices[ids[1]].position, d.vertices[ids[2]].position)
  {
    assert RingOk(d.halfEdges, d.faceElements[f], f);
    FaceIdsInRange(d, f);
    var c := FaceCorners(d, f);
  }

  /** A vertex's new normal is the normalized sum over its contributing incoming
      half-edges alone. */
  lemma CalcNormalVertex(d: MeshData, faceNormal: (Vec3, Vec3, Vec3) -> Vec3,
                         angle: (Vec3, Vec3, Vec3) -> real, normalize: Vec3 -> Vec3, v: nat)
    requires WellFormed(d) && v < |d.vertices|
    ensures var ids := d.vertexElements[v].incomingHalfEdgeIds;
      && (forall k :: 0 <= k < |ids| ==> ids[k] < |d.halfEdges|)
      && CalcNormalSpec(d, faceNormal, angle, normalize).vertices[v].normal ==
           normalize(Accumulate(d, v, Contributing(d, ids), FaceNormals(d, faceNormal), angle))
  {
    IncomingInRange(d, v);
    AccumulateSkips(d, v, d.vertexElements[v].incomingHalfEdgeIds, FaceNormals(d, faceNormal), angle);
  }

  /** The weighted sum over all incoming half-edges of `vh`, as written. */
  function AsWrittenVertexSum(d: MeshData, vh: nat, faceNormals: seq<Vec3>,
                              angle: (Vec3, Vec3, Vec3) -> real): (r: Vec3)
    requires WellFormed(d) && vh < |d.vertices| && |faceNormals| == |d.faceElements|
    ensures r.NaN? ==> exists f :: 0 <= f < |faceNormals| && faceNormals[f].NaN?
    ensures d.vertexElements[vh].incomingHalfEdgeIds == [] ==> r == Zero
  {
    IncomingInRange(d, vh);
    AsWrittenAccumulate(d, vh, d.vertexElements[vh].incomingHalfEdgeIds, faceNormals, angle)
  }

  /** The store after calcNormal as written: the same face normals as `CalcNormalSpec`,
      and every vertex normal from the coinciding rays. */
  function AsWrittenCalcNormalSpec(d: MeshData, faceNormal: (Vec3, Vec3, Vec3) -> Vec3,
                                   angle: (Vec3, Vec3, Vec3) -> real, normalize: Vec3 -> Vec3): (r: MeshData)
    requires WellFormed(d)
    ensures r.(faces := d.faces, vertices := d.vertices) == d
    ensures |r.faces| == |d.faces| && |r.vertices| == |d.vertices|
    ensures forall v :: 0 <= v < |d.vertices| ==> r.vertices[v].position == d.vertices[v].position
  {
    var normals := FaceNormals(d, faceNormal);
    d.(faces := seq(|d.faces|, f requires 0 <= f < |d.faces| => Face(normals[f])),
       vertices := seq(|d.vertices|, v requires 0 <= v < |d.vertices| =>
                     d.vertices[v].(normal := normalize(AsWrittenVertexSum(d, v, normals, angle)))))
  }

  /** As written, once no face normal is not-a-number and coinciding rays span the
      angle 0, calcNormal gives every vertex normalize of the zero vector, whatever
      the mesh; the face normals agree with the corrected pass. */
  lemma AsWrittenCalcNormalDegenerate(d: MeshData, faceNormal: (Vec3, Vec3, Vec3) -> Vec3,
                                      angle: (Vec3, Vec3, Vec3) -> real, normalize: Vec3 -> Vec3)
    requires WellFormed(d)
    requires forall f :: 0 <= f < |d.faceElements| ==> !FaceNormals(d, faceNormal)[f].NaN?
    requires forall p, q :: angle(p, q, q) == 0.0
    ensures var w := AsWrittenCalcNormalSpec(d, faceNormal, angle, normalize);
      && w.faces == CalcNormalSpec(d, faceNormal, angle, normalize).faces
      && forall v :: 0 <= v < |d.vertices| ==> w.vertices[v] == d.vertices[v].(normal := normalize(Zero))
  {
    var normals := FaceNormals(d, faceNormal);
    forall v | 0 <= v < |d.vertices| ensures AsWrittenVertexSum(d, v, normals, angle) == Zero {
      IncomingInRange(d, v);
      AsWrittenSumIsZero(d, v, d.vertexElements[v].incomingHalfEdgeIds, normals, angle);
    }
  }

  /** Well-formedness reads the counts of vertices and faces, never their contents. */
  lemma SameTopology(d: MeshData, m: MeshData)
    requires WellFormed(d)
    requires m.(faces := d.faces, vertices := d.vertices) == d
    requires |m.faces| == |d.faces| && |m.vertices| == |d.vertices|
    ensures WellFormed(m)
  {
    assert HalfEdgeLinks(m) by {
      forall h | 0 <= h < |m.halfEdges| ensures HalfEdgeOk(m, h) { assert HalfEdgeOk(d, h); }
    }
    assert EdgeLinks(m) by {
      forall e | 0 <= e < |m.edgeElements| ensures EdgeOk(m, e) { assert EdgeOk(d, e); }
    }
    assert Incidence(m) by {
      forall v | 0 <= v < |m.vertexElements| ensures VertexListsOk(m, v) { assert VertexListsOk(d, v); }
    }
  }
}
