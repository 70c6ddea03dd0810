// addFace keeps the mesh store well formed: proved one loop iteration at a time,
// then for the whole face.
module MeshWellFormed {
  import opened Common
  import opened Geometry
  import opened MeshCore

  /** The fields a later iteration never touches: only `oppositeHalfEdgeId` of an
      existing half-edge is ever rewritten. */
  ghost predicate SameExceptOpposite(a: HalfEdge, b: HalfEdge)
  {
    a == b.(oppositeHalfEdgeId := a.oppositeHalfEdgeId)
  }

  /** One iteration, spelled out: the new half-edge, the possibly re-linked opposite,
      the edge it is recorded on, and the vertex lists it is appended to. */
  ghost predicate IsStep(d: MeshData, r: MeshData, vertexIds: seq<nat>, start: nat, faceId: nat, i: nat)
    requires Indexable(d)
    requires 3 <= |vertexIds| && i < |vertexIds| && IdsBelow(vertexIds, |d.vertexElements|)
  {
    var n := |vertexIds|;
    var cur := |d.halfEdges|;
    var from := vertexIds[i];
    var to := vertexIds[(i + 1) % n];
    var incoming := d.vertexElements[from].incomingHalfEdgeIds;
    var k := FirstFrom(d.halfEdges, incoming, to, 0);
    && |r.halfEdges| == cur + 1
    && r.halfEdges[cur].id == cur
    && r.halfEdges[cur].fromVertexId == from
    && r.halfEdges[cur].toVertexId == to
    && r.halfEdges[cur].faceId == faceId
    && r.halfEdges[cur].nextHalfEdgeId == (if i == n - 1 then start else cur + 1)
    && r.halfEdges[cur].prevHalfEdgeId == (if i == 0 then start + n - 1 else cur - 1)
    && (forall h :: 0 <= h < cur ==> SameExceptOpposite(r.halfEdges[h], d.halfEdges[h]))
    && (k < |incoming| ==>
          && incoming[k] < cur
          && d.halfEdges[incoming[k]].fromVertexId == to
          && d.halfEdges[incoming[k]].toVertexId == from
          && r.halfEdges[cur].oppositeHalfEdgeId == incoming[k]
          && r.halfEdges[incoming[k]].oppositeHalfEdgeId == cur
          && r.halfEdges[cur].edgeId == d.halfEdges[incoming[k]].edgeId
          && (forall h :: 0 <= h < cur && h != incoming[k] ==> r.halfEdges[h] == d.halfEdges[h])
          && r.edges == d.edges
          && r.edgeElements == d.edgeElements[d.halfEdges[incoming[k]].edgeId :=
               d.edgeElements[d.halfEdges[incoming[k]].edgeId].(halfEdge2Id := cur)])
    && (k == |incoming| ==>
          && r.halfEdges[cur].oppositeHalfEdgeId == INVALID_INDEX
          && r.halfEdges[cur].edgeId == |d.edgeElements|
          && r.halfEdges[..cur] == d.halfEdges
          && r.edges == d.edges + [Edge]
          && r.edgeElements == d.edgeElements + [EdgeElement(cur, INVALID_INDEX, to, from)])
    && |r.vertexElements| == |d.vertexElements|
    && (forall v :: 0 <= v < |d.vertexElements| ==>
          && r.vertexElements[v].id == d.vertexElements[v].id
          && r.vertexElements[v].outgoingHalfEdgeIds ==
               d.vertexElements[v].outgoingHalfEdgeIds + (if v == from then [cur] else [])
          && r.vertexElements[v].incomingHalfEdgeIds ==
               d.vertexElements[v].incomingHalfEdgeIds + (if v == to then [cur] else []))
    && r.indices == d.indices + [ToU32(from)]
    && r.vertices == d.vertices && r.faces == d.faces && r.faceElements == d.faceElements
  }

  lemma StepShape(d: MeshData, vertexIds: seq<nat>, start: nat, faceId: nat, i: nat)
    requires Indexable(d) && Capacity(d) && Incidence(d)
    requires 3 <= |vertexIds| && i < |vertexIds| && IdsBelow(vertexIds, |d.vertexElements|)
    requires |d.halfEdges| == start + i
    ensures IsStep(d, AddHalfEdge(d, vertexIds, start, faceId, i), vertexIds, start, faceId, i)
  {
    var n := |vertexIds|;
    var from := vertexIds[i];
    var to := vertexIds[(i + 1) % n];
    var incoming := d.vertexElements[from].incomingHalfEdgeIds;
    var k := FirstFrom(d.halfEdges, incoming, to, 0);
    if k < |incoming| {
      assert VertexListsOk(d, from);
    }
  }

  lemma StepKeepsHalfEdgeLinks(d: MeshData, r: MeshData, vertexIds: seq<nat>, start: nat, faceId: nat, i: nat)
    requires Indexable(d) && Capacity(d) && Links(d)
    requires 3 <= |vertexIds| && i < |vertexIds| && IdsBelow(vertexIds, |d.vertexElements|)
    requires |d.halfEdges| == start + i
    requires IsStep(d, r, vertexIds, start, faceId, i)
    ensures HalfEdgeLinks(r) && DenseIds(r)
  {
    var cur := |d.halfEdges|;
    forall h | 0 <= h < |r.halfEdges| ensures HalfEdgeOk(r, h) {
      if h < cur {
        assert HalfEdgeOk(d, h);
        var o := d.halfEdges[h].oppositeHalfEdgeId;
        if o != INVALID_INDEX && o != cur {
          assert SameExceptOpposite(r.halfEdges[o], d.halfEdges[o]);
        }
      }
    }
  }

  lemma StepKeepsEdgeLinks(d: MeshData, r: MeshData, vertexIds: seq<nat>, start: nat, faceId: nat, i: nat)
    requires Indexable(d) && Capacity(d) && Links(d)
    requires 3 <= |vertexIds| && i < |vertexIds| && IdsBelow(vertexIds, |d.vertexElements|)
    requires |d.halfEdges| == start + i
    requires IsStep(d, r, vertexIds, start, faceId, i)
    ensures EdgeLinks(r)
  {
    var cur := |d.halfEdges|;
    forall e | 0 <= e < |r.edgeElements| ensures EdgeOk(r, e) {
      if e < |d.edgeElements| {
        assert EdgeOk(d, e);
        var h1 := d.edgeElements[e].halfEdge1Id;
        assert SameExceptOpposite(r.halfEdges[h1], d.halfEdges[h1]);
        var h2 := d.edgeElements[e].halfEdge2Id;
        if h2 != INVALID_INDEX {
          assert SameExceptOpposite(r.halfEdges[h2], d.halfEdges[h2]);
        }
      }
    }
  }

  /** Vertex `v`'s lists after one iteration: at most the new half-edge appended. */
  lemma StepKeepsVertexList(d: MeshData, r: MeshData, cur: nat, from: nat, to: nat, v: nat)
    requires v < |d.vertexElements| && v < |r.vertexElements| && VertexListsOk(d, v)
    requires |d.halfEdges| == cur && |r.halfEdges| == cur + 1
    requires r.halfEdges[cur].fromVertexId == from && r.halfEdges[cur].toVertexId == to
    requires forall h :: 0 <= h < cur ==> SameExceptOpposite(r.halfEdges[h], d.halfEdges[h])
    requires r.vertexElements[v].outgoingHalfEdgeIds
             == d.vertexElements[v].outgoingHalfEdgeIds + (if v == from then [cur] else [])
    requires r.vertexElements[v].incomingHalfEdgeIds
             == d.vertexElements[v].incomingHalfEdgeIds + (if v == to then [cur] else [])
    ensures VertexListsOk(r, v)
  {
    var out := d.vertexElements[v].outgoingHalfEdgeIds;
    var inc := d.vertexElements[v].incomingHalfEdgeIds;
    IncreasingAppend(out, cur, v == from);
    IncreasingAppend(inc, cur, v == to);
    forall j | 0 <= j < |out| ensures r.halfEdges[out[j]].fromVertexId == v {
      assert SameExceptOpposite(r.halfEdges[out[j]], d.halfEdges[out[j]]);
    }
    forall j | 0 <= j < |inc| ensures r.halfEdges[inc[j]].toVertexId == v {
      assert SameExceptOpposite(r.halfEdges[inc[j]], d.halfEdges[inc[j]]);
    }
  }

  lemma IncreasingAppend(s: seq<nat>, x: nat, add: bool)
    requires Increasing(s) && forall j :: 0 <= j < |s| ==> s[j] < x
    ensures Increasing(s + (if add then [x] else []))
  {
    if !add { assert s + [] == s; }
  }

  lemma StepKeepsMembership(d: MeshData, r: MeshData, vertexIds: seq<nat>, start: nat, faceId: nat, i: nat, h: nat)
    requires Indexable(d) && Capacity(d) && Links(d)
    requires 3 <= |vertexIds| && i < |vertexIds| && IdsBelow(vertexIds, |d.vertexElements|)
    requires |d.halfEdges| == start + i
    requires IsStep(d, r, vertexIds, start, faceId, i)
    requires h < |r.halfEdges|
    ensures r.halfEdges[h].fromVertexId < |r.vertexElements|
    ensures r.halfEdges[h].toVertexId < |r.vertexElements|
    ensures h in r.vertexElements[r.halfEdges[h].fromVertexId].outgoingHalfEdgeIds
    ensures h in r.vertexElements[r.halfEdges[h].toVertexId].incomingHalfEdgeIds
  {
    if h < |d.halfEdges| {
      assert SameExceptOpposite(r.halfEdges[h], d.halfEdges[h]);
    }
  }

  lemma StepKeepsIncidence(d: MeshData, r: MeshData, vertexIds: seq<nat>, start: nat, faceId: nat, i: nat)
    requires Indexable(d) && Capacity(d) && Links(d)
    requires 3 <= |vertexIds| && i < |vertexIds| && IdsBelow(vertexIds, |d.vertexElements|)
    requires |d.halfEdges| == start + i
    requires IsStep(d, r, vertexIds, start, faceId, i)
    ensures Incidence(r)
  {
    forall v | 0 <= v < |r.vertexElements| ensures VertexListsOk(r, v) {
      assert VertexListsOk(d, v);
      StepKeepsVertexList(d, r, |d.halfEdges|, vertexIds[i], vertexIds[(i + 1) % |vertexIds|], v);
    }
    forall h | 0 <= h < |r.halfEdges|
      ensures r.halfEdges[h].fromVertexId < |r.vertexElements|
      ensures r.halfEdges[h].toVertexId < |r.vertexElements|
      ensures h in r.vertexElements[r.halfEdges[h].fromVertexId].outgoingHalfEdgeIds
      ensures h in r.vertexElements[r.halfEdges[h].toVertexId].incomingHalfEdgeIds
    {
      StepKeepsMembership(d, r, vertexIds, start, faceId, i, h);
    }
  }

  lemma StepKeepsLinks(d: MeshData, vertexIds: seq<nat>, start: nat, faceId: nat, i: nat)
    requires Indexable(d) && Capacity(d) && Links(d)
    requires 3 <= |vertexIds| && i < |vertexIds| && IdsBelow(vertexIds, |d.vertexElements|)
    requires |d.halfEdges| == start + i
    ensures Links(AddHalfEdge(d, vertexIds, start, faceId, i))
  {
    var r := AddHalfEdge(d, vertexIds, start, faceId, i);
    StepShape(d, vertexIds, start, faceId, i);
    StepKeepsHalfEdgeLinks(d, r, vertexIds, start, faceId, i);
    StepKeepsEdgeLinks(d, r, vertexIds, start, faceId, i);
    StepKeepsIncidence(d, r, vertexIds, start, faceId, i);
  }

  lemma WellFormedIndexable(d: MeshData)
    requires WellFormed(d)
    ensures Indexable(d)
  {
    forall v | 0 <= v < |d.vertexElements|
      ensures IdsBelow(d.vertexElements[v].incomingHalfEdgeIds, |d.halfEdges|)
    {
      assert VertexListsOk(d, v);
    }
    forall h | 0 <= h < |d.halfEdges| ensures d.halfEdges[h].edgeId < |d.edgeElements| {
      assert HalfEdgeOk(d, h);
    }
  }

  /** The half-edges a step leaves alone keep every field but the opposite link, so
      the ring slots they fill stay filled. */
  lemma SlotKept(old_: seq<HalfEdge>, new_: seq<HalfEdge>, start: nat, vertexIds: seq<nat>, faceId: nat, i: nat)
    requires i < |vertexIds| && start + i < |old_| <= |new_|
    requires SameExceptOpposite(new_[start + i], old_[start + i])
    requires SlotOk(old_, start, vertexIds, faceId, i)
    ensures SlotOk(new_, start, vertexIds, faceId, i)
  {
  }

  lemma U32sSnoc(ids: seq<nat>, k: nat)
    requires 0 < k <= |ids|
    ensures U32s(ids[..k]) == U32s(ids[..k - 1]) + [ToU32(ids[k - 1])]
  {
    var a := U32s(ids[..k]);
    var b := U32s(ids[..k - 1]) + [ToU32(ids[k - 1])];
    assert |a| == |b|;
    forall j | 0 <= j < |a| ensures a[j] == b[j] {
      assert ids[..k][j] == ids[j];
    }
  }

  /** What one more iteration adds to the progress of the loop: the untouched
      half-edges, the filled slots and the index buffer. */
  lemma StepProgress(d: MeshData, r0: MeshData, r: MeshData, vertexIds: seq<nat>, faceId: nat, k: nat)
    requires Indexable(r0) && Capacity(r0)
    requires 3 <= |vertexIds| && 0 < k <= |vertexIds| && IdsBelow(vertexIds, |r0.vertexElements|)
    requires |r0.halfEdges| == |d.halfEdges| + k - 1
    requires |d.halfEdges| + |vertexIds| < INVALID_INDEX
    requires IsStep(r0, r, vertexIds, |d.halfEdges|, faceId, k - 1)
    requires forall h :: 0 <= h < |d.halfEdges| ==> SameExceptOpposite(r0.halfEdges[h], d.halfEdges[h])
    requires forall j :: 0 <= j < k - 1 ==> SlotOk(r0.halfEdges, |d.halfEdges|, vertexIds, faceId, j)
    requires r0.indices == d.indices + U32s(vertexIds[..k - 1])
    ensures Capacity(r)
    ensures forall h :: 0 <= h < |d.halfEdges| ==> SameExceptOpposite(r.halfEdges[h], d.halfEdges[h])
    ensures forall j :: 0 <= j < k ==> SlotOk(r.halfEdges, |d.halfEdges|, vertexIds, faceId, j)
    ensures r.indices == d.indices + U32s(vertexIds[..k])
  {
    var start := |d.halfEdges|;
    forall h | 0 <= h < start ensures SameExceptOpposite(r.halfEdges[h], d.halfEdges[h]) {
      assert SameExceptOpposite(r.halfEdges[h], r0.halfEdges[h]);
    }
    forall j | 0 <= j < k ensures SlotOk(r.halfEdges, start, vertexIds, faceId, j) {
      if j < k - 1 {
        SlotKept(r0.halfEdges, r.halfEdges, start, vertexIds, faceId, j);
      }
    }
    U32sSnoc(vertexIds, k);
  }

  /** The first `k` iterations of addFace's loop keep the links, fill ring slots
      0..k-1 and append the first `k` ids to the index buffer. */
  lemma {:induction false} AddHalfEdgesKeeps(d: MeshData, vertexIds: seq<nat>, faceId: nat, k: nat)
    requires Indexable(d) && Capacity(d) && Links(d)
    requires 3 <= |vertexIds| && k <= |vertexIds| && IdsBelow(vertexIds, |d.vertexElements|)
    requires |d.halfEdges| + |vertexIds| < INVALID_INDEX
    ensures var r := AddHalfEdges(d, vertexIds, faceId, k);
      && Links(r) && Capacity(r)
      && (forall h :: 0 <= h < |d.halfEdges| ==> SameExceptOpposite(r.halfEdges[h], d.halfEdges[h]))
      && (forall j :: 0 <= j < k ==> SlotOk(r.halfEdges, |d.halfEdges|, vertexIds, faceId, j))
      && r.indices == d.indices + U32s(vertexIds[..k])
    decreases k
  {
    if k == 0 {
      assert vertexIds[..0] == [];
    } else {
      var start := |d.halfEdges|;
      var r0 := AddHalfEdges(d, vertexIds, faceId, k - 1);
      AddHalfEdgesKeeps(d, vertexIds, faceId, k - 1);
      var r := AddHalfEdge(r0, vertexIds, start, faceId, k - 1);
      StepShape(r0, vertexIds, start, faceId, k - 1);
      KeepsStep(d, r0, r, vertexIds, faceId, k);
      assert AddHalfEdges(d, vertexIds, faceId, k) == r;
    }
  }

  /** The inductive step of AddHalfEdgesKeeps: from the first `k - 1` half-edges to `k`. */
  lemma KeepsStep(d: MeshData, r0: MeshData, r: MeshData, vertexIds: seq<nat>, faceId: nat, k: nat)
    requires Indexable(r0) && Capacity(r0) && Links(r0)
    requires 3 <= |vertexIds| && 0 < k <= |vertexIds| && IdsBelow(vertexIds, |r0.vertexElements|)
    requires |r0.halfEdges| == |d.halfEdges| + k - 1
    requires |d.halfEdges| + |vertexIds| < INVALID_INDEX
    requires IsStep(r0, r, vertexIds, |d.halfEdges|, faceId, k - 1)
    requires forall h :: 0 <= h < |d.halfEdges| ==> SameExceptOpposite(r0.halfEdges[h], d.halfEdges[h])
    requires forall j :: 0 <= j < k - 1 ==> SlotOk(r0.halfEdges, |d.halfEdges|, vertexIds, faceId, j)
    requires r0.indices == d.indices + U32s(vertexIds[..k - 1])
    ensures Links(r) && Capacity(r)
    ensures forall h :: 0 <= h < |d.halfEdges| ==> SameExceptOpposite(r.halfEdges[h], d.halfEdges[h])
    ensures forall j :: 0 <= j < k ==> SlotOk(r.halfEdges, |d.halfEdges|, vertexIds, faceId, j)
    ensures r.indices == d.indices + U32s(vertexIds[..k])
  {
    var start := |d.halfEdges|;
    StepKeepsHalfEdgeLinks(r0, r, vertexIds, start, faceId, k - 1);
    StepKeepsEdgeLinks(r0, r, vertexIds, start, faceId, k - 1);
    StepKeepsIncidence(r0, r, vertexIds, start, faceId, k - 1);
    StepProgress(d, r0, r, vertexIds, faceId, k);
  }

  lemma RingKept(old_: seq<HalfEdge>, new_: seq<HalfEdge>, face: FaceElement, faceId: nat)
    requires |old_| <= |new_|
    requires forall h :: 0 <= h < |old_| ==> SameExceptOpposite(new_[h], old_[h])
    requires RingOk(old_, face, faceId)
    ensures RingOk(new_, face, faceId)
  {
    forall i | 0 <= i < |face.vertexIds| ensures SlotOk(new_, face.startHalfEdgeId, face.vertexIds, faceId, i) {
      SlotKept(old_, new_, face.startHalfEdgeId, face.vertexIds, faceId, i);
    }
  }

  lemma FlatIndicesSnoc(faces: seq<FaceElement>, face: FaceElement)
    ensures FlatIndices(faces + [face]) == FlatIndices(faces) + U32s(face.vertexIds)
  {
    assert (faces + [face])[..|faces|] == faces;
  }

  lemma CloseFaceRings(d: MeshData, r: MeshData, vertexIds: seq<nat>)
    requires FaceRings(d) && r.faceElements == d.faceElements
    requires 3 <= |vertexIds| && |r.halfEdges| == |d.halfEdges| + |vertexIds|
    requires forall h :: 0 <= h < |d.halfEdges| ==> SameExceptOpposite(r.halfEdges[h], d.halfEdges[h])
    requires forall j :: 0 <= j < |vertexIds| ==>
               SlotOk(r.halfEdges, |d.halfEdges|, vertexIds, |d.faceElements|, j)
    ensures FaceRings(r.(faceElements := r.faceElements + [FaceElement(|d.halfEdges|, vertexIds)]))
  {
    var fes := r.faceElements + [FaceElement(|d.halfEdges|, vertexIds)];
    forall f | 0 <= f < |fes| ensures RingOk(r.halfEdges, fes[f], f) {
      if f < |d.faceElements| {
        RingKept(d.halfEdges, r.halfEdges, d.faceElements[f], f);
      }
    }
  }

  lemma CloseFaceMembers(d: MeshData, r: MeshData, vertexIds: seq<nat>)
    requires MembersBelow(d, |d.halfEdges|) && r.faceElements == d.faceElements
    requires 3 <= |vertexIds| && |r.halfEdges| == |d.halfEdges| + |vertexIds|
    requires forall h :: 0 <= h < |d.halfEdges| ==> SameExceptOpposite(r.halfEdges[h], d.halfEdges[h])
    requires forall j :: 0 <= j < |vertexIds| ==>
               SlotOk(r.halfEdges, |d.halfEdges|, vertexIds, |d.faceElements|, j)
    ensures var m := r.(faceElements := r.faceElements + [FaceElement(|d.halfEdges|, vertexIds)]);
      MembersBelow(m, |m.halfEdges|)
  {
    var start := |d.halfEdges|;
    var m := r.(faceElements := r.faceElements + [FaceElement(start, vertexIds)]);
    forall h | 0 <= h < |m.halfEdges|
      ensures m.halfEdges[h].faceId < |m.faceElements|
      ensures m.faceElements[m.halfEdges[h].faceId].startHalfEdgeId <= h
      ensures h < m.faceElements[m.halfEdges[h].faceId].startHalfEdgeId
                  + |m.faceElements[m.halfEdges[h].faceId].vertexIds|
    {
      if h < start {
        assert SameExceptOpposite(r.halfEdges[h], d.halfEdges[h]);
      } else {
        assert SlotOk(r.halfEdges, start, vertexIds, |d.faceElements|, h - start);
      }
    }
  }

  /** The links never mention faces, so appending a face keeps them. */
  lemma LinksIgnoreFaces(r: MeshData, fes: seq<FaceElement>, faces: seq<Face>)
    requires Links(r)
    ensures Links(r.(faceElements := fes, faces := faces))
  {
    var m := r.(faceElements := fes, faces := faces);
    assert HalfEdgeLinks(m) by {
      forall h | 0 <= h < |m.halfEdges| ensures HalfEdgeOk(m, h) { assert HalfEdgeOk(r, h); }
    }
    assert EdgeLinks(m) by {
      forall e | 0 <= e < |m.edgeElements| ensures EdgeOk(m, e) { assert EdgeOk(r, e); }
    }
    assert Incidence(m) by {
      forall v | 0 <= v < |m.vertexElements| ensures VertexListsOk(m, v) { assert VertexListsOk(r, v); }
    }
  }

  /** addFace keeps the store well formed, for any 3 or more existing vertex ids,
      provided the containers have room for the new elements. */
  lemma AddFacePreservesWellFormed(d: MeshData, vertexIds: seq<nat>)
    requires WellFormed(d)
    requires 3 <= |vertexIds| && IdsBelow(vertexIds, |d.vertexElements|)
    requires |d.halfEdges| + |vertexIds| < INVALID_INDEX && |d.faceElements| + 1 < INVALID_INDEX
    ensures Indexable(d)
    ensures WellFormed(AddFaceSpec(d, vertexIds).0)
  {
    WellFormedIndexable(d);
    var start := |d.halfEdges|;
    var faceId := |d.faceElements|;
    var r := AddHalfEdges(d, vertexIds, faceId, |vertexIds|);
    AddHalfEdgesKeeps(d, vertexIds, faceId, |vertexIds|);
    CloseFaceRings(d, r, vertexIds);
    CloseFaceMembers(d, r, vertexIds);
    LinksIgnoreFaces(r, r.faceElements + [FaceElement(start, vertexIds)], r.faces + [Face(Zero)]);
    assert vertexIds[..|vertexIds|] == vertexIds;
    FlatIndicesSnoc(d.faceElements, FaceElement(start, vertexIds));
  }

  /** The state after clearData() is well formed. */
  lemma EmptyMeshWellFormed()
    ensures WellFormed(EmptyMesh)
  {
  }

  /** addVertex keeps the store well formed while there is room for another id. */
  lemma AddVertexPreservesWellFormed(d: MeshData, position: Vec3)
    requires WellFormed(d)
    requires |d.vertexElements| + 1 < INVALID_INDEX
    ensures WellFormed(AddVertexSpec(d, position).0)
  {
    var m := AddVertexSpec(d, position).0;
    var n := |d.vertexElements|;
    forall h | 0 <= h < |m.halfEdges| ensures HalfEdgeOk(m, h) {
      assert HalfEdgeOk(d, h);
    }
    forall e | 0 <= e < |m.edgeElements| ensures EdgeOk(m, e) {
      assert EdgeOk(d, e);
    }
    forall v | 0 <= v < |m.vertexElements| ensures VertexListsOk(m, v) {
      if v < n {
        assert VertexListsOk(d, v);
      }
    }
    forall h | 0 <= h < |m.halfEdges|
      ensures m.halfEdges[h].fromVertexId < |m.vertexElements|
      ensures m.halfEdges[h].toVertexId < |m.vertexElements|
      ensures h in m.vertexElements[m.halfEdges[h].fromVertexId].outgoingHalfEdgeIds
      ensures h in m.vertexElements[m.halfEdges[h].toVertexId].incomingHalfEdgeIds
    {
    }
    forall f | 0 <= f < |m.faceElements| ensures RingOk(m.halfEdges, m.faceElements[f], f) {
      assert RingOk(d.halfEdges, d.faceElements[f], f);
    }
  }
}
