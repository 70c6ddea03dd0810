// What addFace promises about the new face, about the opposite links it makes, and
// about walking a face's ring; stated on the value model of mesh_core.dfy.
module MeshFacts {
  import opened Common
  import opened Geometry
  import opened MeshCore
  import opened MeshWellFormed

  // ---------------------------------------------------------------------------
  // One iteration: opposite search, edge reuse or allocation

  /** Iteration `i` of addFace finds an opposite exactly when some half-edge entering
      the from-vertex starts at the to-vertex; the two are then linked both ways and
      share an edge, and nothing else changes. Otherwise a new edge is allocated. */
  lemma OppositeLinking(d: MeshData, vertexIds: seq<nat>, start: nat, faceId: nat, i: nat)
    requires Indexable(d) && Capacity(d) && Links(d)
    requires 3 <= |vertexIds| && i < |vertexIds| && IdsBelow(vertexIds, |d.vertexElements|)
    requires |d.halfEdges| == start + i
    ensures var r := AddHalfEdge(d, vertexIds, start, faceId, i);
      var cur := |d.halfEdges|;
      var from := vertexIds[i];
      var to := vertexIds[(i + 1) % |vertexIds|];
      var incoming := d.vertexElements[from].incomingHalfEdgeIds;
      var o := r.halfEdges[cur].oppositeHalfEdgeId;
      && |r.halfEdges| == cur + 1
      && (o != INVALID_INDEX <==>
            exists j :: 0 <= j < |incoming| && d.halfEdges[incoming[j]].fromVertexId == to)
      && (o != INVALID_INDEX ==>
            && o < cur
            && r.halfEdges[o].oppositeHalfEdgeId == cur
            && r.halfEdges[o].fromVertexId == to && r.halfEdges[o].toVertexId == from
            && r.halfEdges[cur].edgeId == r.halfEdges[o].edgeId
            && r.halfEdges[cur].edgeId < |d.edgeElements|
            && r.edgeElements[r.halfEdges[cur].edgeId].halfEdge2Id == cur
            && |r.edgeElements| == |d.edgeElements| && r.edges == d.edges
            && (forall h :: 0 <= h < cur && h != o ==> r.halfEdges[h] == d.halfEdges[h]))
      && (o == INVALID_INDEX ==>
            && r.halfEdges[cur].edgeId == |d.edgeElements|
            && r.edgeElements == d.edgeElements + [EdgeElement(cur, INVALID_INDEX, to, from)]
            && r.edges == d.edges + [Edge]
            && r.halfEdges[..cur] == d.halfEdges)
  {
    var r := AddHalfEdge(d, vertexIds, start, faceId, i);
    StepShape(d, vertexIds, start, faceId, i);
    var cur := |d.halfEdges|;
    var from := vertexIds[i];
    var to := vertexIds[(i + 1) % |vertexIds|];
    var incoming := d.vertexElements[from].incomingHalfEdgeIds;
    var k := FirstFrom(d.halfEdges, incoming, to, 0);
    if k < |incoming| {
      var o := incoming[k];
      assert SameExceptOpposite(r.halfEdges[o], d.halfEdges[o]);
    }
  }

  // ---------------------------------------------------------------------------
  // A whole face

  /** addFace returns the old half-edge count and appends N half-edges, N narrowed
      ids to the index buffer, one face record holding (start, ids) and one face; the
      vertices stay, and edges and edge records keep growing together, by at most N. */
  lemma AddFaceCounts(d: MeshData, vertexIds: seq<nat>)
    requires Indexable(d)
    requires 3 <= |vertexIds| && IdsBelow(vertexIds, |d.vertexElements|)
    ensures var (m, start) := AddFaceSpec(d, vertexIds);
      && start == |d.halfEdges|
      && |m.halfEdges| == start + |vertexIds|
      && m.indices == d.indices + U32s(vertexIds)
      && m.faceElements == d.faceElements + [FaceElement(start, vertexIds)]
      && |m.faces| == |d.faces| + 1
      && m.vertices == d.vertices && |m.vertexElements| == |d.vertexElements|
      && |m.edges| == |m.edgeElements|
      && |d.edgeElements| <= |m.edgeElements| <= |d.edgeElements| + |vertexIds|
  {
    AddFaceIndices(d, vertexIds);
    AddHalfEdgesEdgeCount(d, vertexIds, |d.faceElements|, |vertexIds|);
  }

  /** The ring slots, read half-edge by half-edge. */
  ghost predicate NewRing(d: MeshData, start: nat, vertexIds: seq<nat>, faceId: nat)
    requires 3 <= |vertexIds| && start + |vertexIds| <= |d.halfEdges|
  {
    var n := |vertexIds|;
    forall h :: start <= h < start + n ==>
      && d.halfEdges[h].id == h
      && d.halfEdges[h].fromVertexId == vertexIds[h - start]
      && d.halfEdges[h].toVertexId == vertexIds[(h - start + 1) % n]
      && d.halfEdges[h].faceId == faceId
      && d.halfEdges[h].nextHalfEdgeId == (if h == start + n - 1 then start else h + 1)
      && d.halfEdges[h].prevHalfEdgeId == (if h == start then start + n - 1 else h - 1)
      && d.halfEdges[h].fromVertexId < |d.vertexElements|
      && d.halfEdges[h].toVertexId < |d.vertexElements|
      && h in d.vertexElements[d.halfEdges[h].fromVertexId].outgoingHalfEdgeIds
      && h in d.vertexElements[d.halfEdges[h].toVertexId].incomingHalfEdgeIds
  }

  lemma SlotsGiveRing(r: MeshData, start: nat, vertexIds: seq<nat>, faceId: nat)
    requires Links(r)
    requires 3 <= |vertexIds| && |r.halfEdges| == start + |vertexIds|
    requires forall j :: 0 <= j < |vertexIds| ==> SlotOk(r.halfEdges, start, vertexIds, faceId, j)
    ensures NewRing(r, start, vertexIds, faceId)
  {
    forall h | start <= h < start + |vertexIds|
      ensures r.halfEdges[h].fromVertexId == vertexIds[h - start]
      ensures r.halfEdges[h].toVertexId == vertexIds[(h - start + 1) % |vertexIds|]
      ensures r.halfEdges[h].faceId == faceId
      ensures r.halfEdges[h].nextHalfEdgeId == (if h == start + |vertexIds| - 1 then start else h + 1)
      ensures r.halfEdges[h].prevHalfEdgeId == (if h == start then start + |vertexIds| - 1 else h - 1)
    {
      assert SlotOk(r.halfEdges, start, vertexIds, faceId, h - start);
    }
  }

  /** The N new half-edges of a face form one next/prev cycle through its ids, carry
      the new face id and are listed by both their endpoints; the existing half-edges
      change at most in their opposite link. */
  lemma AddFaceRing(d: MeshData, vertexIds: seq<nat>)
    requires WellFormed(d)
    requires 3 <= |vertexIds| && IdsBelow(vertexIds, |d.vertexElements|)
    requires |d.halfEdges| + |vertexIds| < INVALID_INDEX
    ensures Indexable(d)
    ensures var (m, start) := AddFaceSpec(d, vertexIds);
      && |m.halfEdges| == start + |vertexIds|
      && (forall h :: 0 <= h < start ==> SameExceptOpposite(m.halfEdges[h], d.halfEdges[h]))
      && NewRing(m, start, vertexIds, |d.faceElements|)
  {
    WellFormedIndexable(d);
    var faceId := |d.faceElements|;
    var r := AddHalfEdges(d, vertexIds, faceId, |vertexIds|);
    AddHalfEdgesKeeps(d, vertexIds, faceId, |vertexIds|);
    SlotsGiveRing(r, |d.halfEdges|, vertexIds, faceId);
    var m := AddFaceSpec(d, vertexIds).0;
    assert m.halfEdges == r.halfEdges && m.vertexElements == r.vertexElements;
  }

  /** Each iteration allocates at most one edge. */
  lemma {:induction false} AddHalfEdgesEdgeCount(d: MeshData, vertexIds: seq<nat>, faceId: nat, k: nat)
    requires Indexable(d)
    requires 3 <= |vertexIds| && k <= |vertexIds| && IdsBelow(vertexIds, |d.vertexElements|)
    ensures var r := AddHalfEdges(d, vertexIds, faceId, k);
      |d.edgeElements| <= |r.edgeElements| <= |d.edgeElements| + k
    decreases k
  {
    if k > 0 {
      AddHalfEdgesEdgeCount(d, vertexIds, faceId, k - 1);
    }
  }

  /** The index buffer gains the face's ids, narrowed to 32 bits, in order. Unlike
      the other facts this needs no well-formedness. */
  lemma {:induction false} AddHalfEdgesIndices(d: MeshData, vertexIds: seq<nat>, faceId: nat, k: nat)
    requires Indexable(d)
    requires 3 <= |vertexIds| && k <= |vertexIds| && IdsBelow(vertexIds, |d.vertexElements|)
    ensures AddHalfEdges(d, vertexIds, faceId, k).indices == d.indices + U32s(vertexIds[..k])
    decreases k
  {
    if k == 0 {
      assert vertexIds[..0] == [];
    } else {
      AddHalfEdgesIndices(d, vertexIds, faceId, k - 1);
      U32sSnoc(vertexIds, k);
    }
  }

  lemma AddFaceIndices(d: MeshData, vertexIds: seq<nat>)
    requires Indexable(d)
    requires 3 <= |vertexIds| && IdsBelow(vertexIds, |d.vertexElements|)
    ensures AddFaceSpec(d, vertexIds).0.indices == d.indices + U32s(vertexIds)
  {
    AddHalfEdgesIndices(d, vertexIds, |d.faceElements|, |vertexIds|);
    assert vertexIds[..|vertexIds|] == vertexIds;
  }

  // ---------------------------------------------------------------------------
  // Opposite symmetry on manifold input

  /** Every opposite link is returned. */
  ghost predicate OppositeSymmetric(d: MeshData)
  {
    forall h :: 0 <= h < |d.halfEdges| && d.halfEdges[h].oppositeHalfEdgeId != INVALID_INDEX ==>
      && d.halfEdges[h].oppositeHalfEdgeId < |d.halfEdges|
      && d.halfEdges[d.halfEdges[h].oppositeHalfEdgeId].oppositeHalfEdgeId == h
  }

  /** No half-edge runs from `from` to `to` yet. */
  ghost predicate Unused(halfEdges: seq<HalfEdge>, from: nat, to: nat)
  {
    forall h :: 0 <= h < |halfEdges| ==>
      !(halfEdges[h].fromVertexId == from && halfEdges[h].toVertexId == to)
  }

  /** Side `i` of the face through `vertexIds` is not yet run in its own direction. */
  ghost predicate SideUnused(halfEdges: seq<HalfEdge>, vertexIds: seq<nat>, i: nat)
    requires i < |vertexIds|
  {
    Unused(halfEdges, vertexIds[i], vertexIds[(i + 1) % |vertexIds|])
  }

  predicate Distinct(ids: seq<nat>)
  {
    forall i, j :: 0 <= i < j < |ids| ==> ids[i] != ids[j]
  }

  lemma StepKeepsSymmetry(d: MeshData, r: MeshData, vertexIds: seq<nat>, start: nat, faceId: nat, i: nat)
    requires Indexable(d) && Capacity(d) && Links(d) && OppositeSymmetric(d)
    requires 3 <= |vertexIds| && i < |vertexIds| && IdsBelow(vertexIds, |d.vertexElements|)
    requires |d.halfEdges| == start + i
    requires Unused(d.halfEdges, vertexIds[i], vertexIds[(i + 1) % |vertexIds|])
    requires IsStep(d, r, vertexIds, start, faceId, i)
    ensures OppositeSymmetric(r)
  {
    var cur := |d.halfEdges|;
    var from := vertexIds[i];
    var to := vertexIds[(i + 1) % |vertexIds|];
    var incoming := d.vertexElements[from].incomingHalfEdgeIds;
    var k := FirstFrom(d.halfEdges, incoming, to, 0);
    if k < |incoming| {
      var o := incoming[k];
      assert d.halfEdges[o].oppositeHalfEdgeId == INVALID_INDEX by {
        assert HalfEdgeOk(d, o);
      }
      forall h | 0 <= h < |r.halfEdges| && r.halfEdges[h].oppositeHalfEdgeId != INVALID_INDEX
        ensures r.halfEdges[h].oppositeHalfEdgeId < |r.halfEdges|
        ensures r.halfEdges[r.halfEdges[h].oppositeHalfEdgeId].oppositeHalfEdgeId == h
      {
        if h < cur && h != o {
          var q := d.halfEdges[h].oppositeHalfEdgeId;
          assert q != o && q < cur;
        }
      }
    } else {
      forall h | 0 <= h < |r.halfEdges| && r.halfEdges[h].oppositeHalfEdgeId != INVALID_INDEX
        ensures r.halfEdges[h].oppositeHalfEdgeId < |r.halfEdges|
        ensures r.halfEdges[r.halfEdges[h].oppositeHalfEdgeId].oppositeHalfEdgeId == h
      {
        assert r.halfEdges[h] == d.halfEdges[h];
      }
    }
  }

  /** The half-edges built so far never run along the side still to come. */
  lemma SideStillUnused(d: MeshData, r: MeshData, vertexIds: seq<nat>, faceId: nat, k: nat)
    requires 3 <= |vertexIds| && k < |vertexIds| && Distinct(vertexIds)
    requires |r.halfEdges| == |d.halfEdges| + k
    requires forall i :: 0 <= i < |vertexIds| ==> SideUnused(d.halfEdges, vertexIds, i)
    requires forall h :: 0 <= h < |d.halfEdges| ==> SameExceptOpposite(r.halfEdges[h], d.halfEdges[h])
    requires forall j :: 0 <= j < k ==> SlotOk(r.halfEdges, |d.halfEdges|, vertexIds, faceId, j)
    ensures Unused(r.halfEdges, vertexIds[k], vertexIds[(k + 1) % |vertexIds|])
  {
    var start := |d.halfEdges|;
    forall h | 0 <= h < |r.halfEdges|
      ensures !(r.halfEdges[h].fromVertexId == vertexIds[k] &&
                r.halfEdges[h].toVertexId == vertexIds[(k + 1) % |vertexIds|])
    {
      if h < start {
        assert SameExceptOpposite(r.halfEdges[h], d.halfEdges[h]);
        assert SideUnused(d.halfEdges, vertexIds, k);
      } else {
        assert SlotOk(r.halfEdges, start, vertexIds, faceId, h - start);
      }
    }
  }

  lemma SymmetryStep(d: MeshData, vertexIds: seq<nat>, start: nat, faceId: nat, i: nat)
    requires Indexable(d) && Capacity(d) && Links(d) && OppositeSymmetric(d)
    requires 3 <= |vertexIds| && i < |vertexIds| && IdsBelow(vertexIds, |d.vertexElements|)
    requires |d.halfEdges| == start + i
    requires Unused(d.halfEdges, vertexIds[i], vertexIds[(i + 1) % |vertexIds|])
    ensures OppositeSymmetric(AddHalfEdge(d, vertexIds, start, faceId, i))
  {
    StepShape(d, vertexIds, start, faceId, i);
    StepKeepsSymmetry(d, AddHalfEdge(d, vertexIds, start, faceId, i), vertexIds, start, faceId, i);
  }

  lemma {:induction false} AddHalfEdgesSymmetric(d: MeshData, vertexIds: seq<nat>, faceId: nat, k: nat)
    requires Indexable(d) && Capacity(d) && Links(d) && OppositeSymmetric(d)
    requires 3 <= |vertexIds| && k <= |vertexIds| && IdsBelow(vertexIds, |d.vertexElements|)
    requires |d.halfEdges| + |vertexIds| < INVALID_INDEX
    requires Distinct(vertexIds)
    requires forall i :: 0 <= i < |vertexIds| ==> SideUnused(d.halfEdges, vertexIds, i)
    ensures OppositeSymmetric(AddHalfEdges(d, vertexIds, faceId, k))
    decreases k
  {
    if k > 0 {
      var r0 := AddHalfEdges(d, vertexIds, faceId, k - 1);
      AddHalfEdgesSymmetric(d, vertexIds, faceId, k - 1);
      SymmetryAt(d, r0, vertexIds, faceId, k);
    } else {
      assert AddHalfEdges(d, vertexIds, faceId, k) == d;
    }
  }

  /** One more half-edge of the face keeps every opposite link returned. */
  lemma SymmetryAt(d: MeshData, r0: MeshData, vertexIds: seq<nat>, faceId: nat, k: nat)
    requires Indexable(d) && Capacity(d) && Links(d)
    requires 3 <= |vertexIds| && 0 < k <= |vertexIds| && IdsBelow(vertexIds, |d.vertexElements|)
    requires |d.halfEdges| + |vertexIds| < INVALID_INDEX
    requires Distinct(vertexIds)
    requires forall j :: 0 <= j < |vertexIds| ==> SideUnused(d.halfEdges, vertexIds, j)
    requires r0 == AddHalfEdges(d, vertexIds, faceId, k - 1) && OppositeSymmetric(r0)
    ensures OppositeSymmetric(AddHalfEdges(d, vertexIds, faceId, k))
  {
    var i := k - 1;
    assert Links(r0) && Capacity(r0)
        && Unused(r0.halfEdges, vertexIds[i], vertexIds[(i + 1) % |vertexIds|]) by {
      AddHalfEdgesKeeps(d, vertexIds, faceId, i);
      SideStillUnused(d, r0, vertexIds, faceId, i);
    }
    SymmetryStep(r0, vertexIds, |d.halfEdges|, faceId, i);
    assert AddHalfEdges(d, vertexIds, faceId, k) == AddHalfEdge(r0, vertexIds, |d.halfEdges|, faceId, i);
  }

  /** On manifold input -- distinct ids, and no existing half-edge already running
      along a side of the new face in the same direction -- every opposite link stays
      returned: `opp(opp(h)) == h`. */
  lemma AddFaceKeepsSymmetry(d: MeshData, vertexIds: seq<nat>)
    requires WellFormed(d) && OppositeSymmetric(d)
    requires 3 <= |vertexIds| && IdsBelow(vertexIds, |d.vertexElements|) && Distinct(vertexIds)
    requires forall i :: 0 <= i < |vertexIds| ==> SideUnused(d.halfEdges, vertexIds, i)
    requires |d.halfEdges| + |vertexIds| < INVALID_INDEX
    ensures Indexable(d)
    ensures OppositeSymmetric(AddFaceSpec(d, vertexIds).0)
  {
    WellFormedIndexable(d);
    AddHalfEdgesSymmetric(d, vertexIds, |d.faceElements|, |vertexIds|);
  }

  // ---------------------------------------------------------------------------
  // Edge cardinality on manifold input

  /** Edge `e` has a second half-edge exactly when its creator has an opposite, and
      then the two are each other's opposites. */
  ghost predicate EdgeCardinalityOk(d: MeshData, e: nat)
    requires e < |d.edgeElements|
  {
    var ee := d.edgeElements[e];
    && ee.halfEdge1Id < |d.halfEdges|
    && (ee.halfEdge2Id == INVALID_INDEX <==> d.halfEdges[ee.halfEdge1Id].oppositeHalfEdgeId == INVALID_INDEX)
    && (ee.halfEdge2Id != INVALID_INDEX ==>
          && ee.halfEdge2Id < |d.halfEdges|
          && d.halfEdges[ee.halfEdge1Id].oppositeHalfEdgeId == ee.halfEdge2Id
          && d.halfEdges[ee.halfEdge2Id].oppositeHalfEdgeId == ee.halfEdge1Id)
  }

  /** Every edge has one half-edge (a boundary edge) or two mutually opposite ones,
      and every half-edge is one of the two its edge records. */
  ghost predicate EdgeCardinality(d: MeshData)
  {
    && (forall e :: 0 <= e < |d.edgeElements| ==> EdgeCardinalityOk(d, e))
    && (forall h :: 0 <= h < |d.halfEdges| ==>
          && d.halfEdges[h].edgeId < |d.edgeElements|
          && (h == d.edgeElements[d.halfEdges[h].edgeId].halfEdge1Id ||
              h == d.edgeElements[d.halfEdges[h].edgeId].halfEdge2Id))
  }

  /** One iteration keeps the edge cardinality when the new direction is unused. */
  lemma StepKeepsCardinality(d: MeshData, r: MeshData, vertexIds: seq<nat>, start: nat, faceId: nat, i: nat)
    requires Indexable(d) && Capacity(d) && Links(d) && EdgeCardinality(d)
    requires 3 <= |vertexIds| && i < |vertexIds| && IdsBelow(vertexIds, |d.vertexElements|)
    requires |d.halfEdges| == start + i
    requires Unused(d.halfEdges, vertexIds[i], vertexIds[(i + 1) % |vertexIds|])
    requires IsStep(d, r, vertexIds, start, faceId, i)
    ensures EdgeCardinality(r)
  {
    var incoming := d.vertexElements[vertexIds[i]].incomingHalfEdgeIds;
    if FirstFrom(d.halfEdges, incoming, vertexIds[(i + 1) % |vertexIds|], 0) < |incoming| {
      JoinKeepsCardinality(d, r, vertexIds, start, faceId, i);
    } else {
      NewEdgeKeepsCardinality(d, r, vertexIds, start, faceId, i);
    }
  }

  /** The new half-edge joins the edge of its opposite, a boundary edge until now. */
  lemma JoinKeepsCardinality(d: MeshData, r: MeshData, vertexIds: seq<nat>, start: nat, faceId: nat, i: nat)
    requires Indexable(d) && Capacity(d) && Links(d) && EdgeCardinality(d)
    requires 3 <= |vertexIds| && i < |vertexIds| && IdsBelow(vertexIds, |d.vertexElements|)
    requires |d.halfEdges| == start + i
    requires Unused(d.halfEdges, vertexIds[i], vertexIds[(i + 1) % |vertexIds|])
    requires IsStep(d, r, vertexIds, start, faceId, i)
    requires var incoming := d.vertexElements[vertexIds[i]].incomingHalfEdgeIds;
      FirstFrom(d.halfEdges, incoming, vertexIds[(i + 1) % |vertexIds|], 0) < |incoming|
    ensures EdgeCardinality(r)
  {
    var cur := |d.halfEdges|;
    var from := vertexIds[i];
    var to := vertexIds[(i + 1) % |vertexIds|];
    var incoming := d.vertexElements[from].incomingHalfEdgeIds;
    var k := FirstFrom(d.halfEdges, incoming, to, 0);
    var o := incoming[k];
    var e := d.halfEdges[o].edgeId;
    assert d.halfEdges[o].oppositeHalfEdgeId == INVALID_INDEX by {
      assert HalfEdgeOk(d, o);
    }
    assert EdgeCardinalityOk(d, e);
    assert d.edgeElements[e].halfEdge1Id == o && d.edgeElements[e].halfEdge2Id == INVALID_INDEX;
    assert SameExceptOpposite(r.halfEdges[o], d.halfEdges[o]);
    forall e' | 0 <= e' < |r.edgeElements| ensures EdgeCardinalityOk(r, e') {
      if e' != e {
        assert EdgeOk(d, e') && EdgeCardinalityOk(d, e');
      }
    }
    forall h | 0 <= h < |r.halfEdges|
      ensures r.halfEdges[h].edgeId < |r.edgeElements|
      ensures h == r.edgeElements[r.halfEdges[h].edgeId].halfEdge1Id ||
              h == r.edgeElements[r.halfEdges[h].edgeId].halfEdge2Id
    {
      if h < cur && h != o {
        assert d.halfEdges[h].edgeId != e;
      }
    }
  }

  /** The new half-edge has no opposite and creates a boundary edge of its own. */
  lemma NewEdgeKeepsCardinality(d: MeshData, r: MeshData, vertexIds: seq<nat>, start: nat, faceId: nat, i: nat)
    requires Indexable(d) && Capacity(d) && Links(d) && EdgeCardinality(d)
    requires 3 <= |vertexIds| && i < |vertexIds| && IdsBelow(vertexIds, |d.vertexElements|)
    requires |d.halfEdges| == start + i
    requires IsStep(d, r, vertexIds, start, faceId, i)
    requires var incoming := d.vertexElements[vertexIds[i]].incomingHalfEdgeIds;
      FirstFrom(d.halfEdges, incoming, vertexIds[(i + 1) % |vertexIds|], 0) == |incoming|
    ensures EdgeCardinality(r)
  {
    var cur := |d.halfEdges|;
    forall e' | 0 <= e' < |r.edgeElements| ensures EdgeCardinalityOk(r, e') {
      if e' < |d.edgeElements| {
        assert EdgeCardinalityOk(d, e');
      }
    }
    forall h | 0 <= h < |r.halfEdges|
      ensures r.halfEdges[h].edgeId < |r.edgeElements|
      ensures h == r.edgeElements[r.halfEdges[h].edgeId].halfEdge1Id ||
              h == r.edgeElements[r.halfEdges[h].edgeId].halfEdge2Id
    {
      if h < cur {
        assert r.halfEdges[h] == d.halfEdges[h];
      }
    }
  }

  lemma CardinalityAt(d: MeshData, r0: MeshData, vertexIds: seq<nat>, faceId: nat, k: nat)
    requires Indexable(d) && Capacity(d) && Links(d)
    requires 3 <= |vertexIds| && 0 < k <= |vertexIds| && IdsBelow(vertexIds, |d.vertexElements|)
    requires |d.halfEdges| + |vertexIds| < INVALID_INDEX
    requires Distinct(vertexIds)
    requires forall j :: 0 <= j < |vertexIds| ==> SideUnused(d.halfEdges, vertexIds, j)
    requires r0 == AddHalfEdges(d, vertexIds, faceId, k - 1) && EdgeCardinality(r0)
    ensures EdgeCardinality(AddHalfEdges(d, vertexIds, faceId, k))
  {
    var i := k - 1;
    assert Links(r0) && Capacity(r0)
        && Unused(r0.halfEdges, vertexIds[i], vertexIds[(i + 1) % |vertexIds|]) by {
      AddHalfEdgesKeeps(d, vertexIds, faceId, i);
      SideStillUnused(d, r0, vertexIds, faceId, i);
    }
    CardinalityStep(r0, vertexIds, |d.halfEdges|, faceId, i);
    assert AddHalfEdges(d, vertexIds, faceId, k) == AddHalfEdge(r0, vertexIds, |d.halfEdges|, faceId, i);
  }

  lemma CardinalityStep(d: MeshData, vertexIds: seq<nat>, start: nat, faceId: nat, i: nat)
    requires Indexable(d) && Capacity(d) && Links(d) && EdgeCardinality(d)
    requires 3 <= |vertexIds| && i < |vertexIds| && IdsBelow(vertexIds, |d.vertexElements|)
    requires |d.halfEdges| == start + i
    requires Unused(d.halfEdges, vertexIds[i], vertexIds[(i + 1) % |vertexIds|])
    ensures EdgeCardinality(AddHalfEdge(d, vertexIds, start, faceId, i))
  {
    StepShape(d, vertexIds, start, faceId, i);
    StepKeepsCardinality(d, AddHalfEdge(d, vertexIds, start, faceId, i), vertexIds, start, faceId, i);
  }

  lemma {:induction false} AddHalfEdgesCardinality(d: MeshData, vertexIds: seq<nat>, faceId: nat, k: nat)
    requires Indexable(d) && Capacity(d) && Links(d) && EdgeCardinality(d)
    requires 3 <= |vertexIds| && k <= |vertexIds| && IdsBelow(vertexIds, |d.vertexElements|)
    requires |d.halfEdges| + |vertexIds| < INVALID_INDEX
    requires Distinct(vertexIds)
    requires forall i :: 0 <= i < |vertexIds| ==> SideUnused(d.halfEdges, vertexIds, i)
    ensures EdgeCardinality(AddHalfEdges(d, vertexIds, faceId, k))
    decreases k
  {
    if k > 0 {
      AddHalfEdgesCardinality(d, vertexIds, faceId, k - 1);
      CardinalityAt(d, AddHalfEdges(d, vertexIds, faceId, k - 1), vertexIds, faceId, k);
    } else {
      assert AddHalfEdges(d, vertexIds, faceId, k) == d;
    }
  }

  /** On manifold input (the hypotheses of AddFaceKeepsSymmetry) addFace keeps every
      edge either a boundary edge, whose creator has no opposite and whose
      `halfEdge2Id` is the sentinel, or an interior edge, whose two half-edges are
      each other's opposites; the empty store starts that way. */
  lemma AddFaceKeepsEdgeCardinality(d: MeshData, vertexIds: seq<nat>)
    requires WellFormed(d) && EdgeCardinality(d)
    requires 3 <= |vertexIds| && IdsBelow(vertexIds, |d.vertexElements|) && Distinct(vertexIds)
    requires forall i :: 0 <= i < |vertexIds| ==> SideUnused(d.halfEdges, vertexIds, i)
    requires |d.halfEdges| + |vertexIds| < INVALID_INDEX
    ensures EdgeCardinality(EmptyMesh)
    ensures Indexable(d)
    ensures var m := AddFaceSpec(d, vertexIds).0;
      forall e :: 0 <= e < |m.edgeElements| ==>
        var ee := m.edgeElements[e];
        && ee.halfEdge1Id < |m.halfEdges|
        && (ee.halfEdge2Id == INVALID_INDEX <==> m.halfEdges[ee.halfEdge1Id].oppositeHalfEdgeId == INVALID_INDEX)
        && (ee.halfEdge2Id != INVALID_INDEX ==>
              && ee.halfEdge2Id < |m.halfEdges|
              && m.halfEdges[ee.halfEdge1Id].oppositeHalfEdgeId == ee.halfEdge2Id
              && m.halfEdges[ee.halfEdge2Id].oppositeHalfEdgeId == ee.halfEdge1Id)
    ensures EdgeCardinality(AddFaceSpec(d, vertexIds).0)
  {
    WellFormedIndexable(d);
    AddHalfEdgesCardinality(d, vertexIds, |d.faceElements|, |vertexIds|);
    var r := AddHalfEdges(d, vertexIds, |d.faceElements|, |vertexIds|);
    var m := AddFaceSpec(d, vertexIds).0;
    assert m.edgeElements == r.edgeElements && m.halfEdges == r.halfEdges;
    forall e | 0 <= e < |m.edgeElements|
      ensures var ee := m.edgeElements[e];
        && ee.halfEdge1Id < |m.halfEdges|
        && (ee.halfEdge2Id == INVALID_INDEX <==> m.halfEdges[ee.halfEdge1Id].oppositeHalfEdgeId == INVALID_INDEX)
        && (ee.halfEdge2Id != INVALID_INDEX ==>
              && ee.halfEdge2Id < |m.halfEdges|
              && m.halfEdges[ee.halfEdge1Id].oppositeHalfEdgeId == ee.halfEdge2Id
              && m.halfEdges[ee.halfEdge2Id].oppositeHalfEdgeId == ee.halfEdge1Id)
    {
      assert EdgeCardinalityOk(r, e);
    }
  }

  // ---------------------------------------------------------------------------
  // Walking a face's ring

  /** The half-edge reached from `h` after `k` steps along `next`. */
  function Follow(halfEdges: seq<HalfEdge>, h: nat, k: nat): nat
  {
    if k == 0 then h
    else
      var p := Follow(halfEdges, h, k - 1);
      if p < |halfEdges| then halfEdges[p].nextHalfEdgeId else p
  }

  /** Walking `next` from a face's start half-edge visits its N half-edges in order,
      reading off its vertex ids, and first returns to the start after exactly N steps. */
  lemma {:induction false} RingWalk(d: MeshData, f: nat, k: nat)
    requires FaceRings(d) && f < |d.faceElements|
    requires k <= |d.faceElements[f].vertexIds|
    ensures var face := d.faceElements[f];
      var n := |face.vertexIds|;
      && (k < n ==> Follow(d.halfEdges, face.startHalfEdgeId, k) == face.startHalfEdgeId + k)
      && (k < n ==> d.halfEdges[face.startHalfEdgeId + k].fromVertexId == face.vertexIds[k])
      && (k == n ==> Follow(d.halfEdges, face.startHalfEdgeId, k) == face.startHalfEdgeId)
  {
    var face := d.faceElements[f];
    assert RingOk(d.halfEdges, face, f);
    if k > 0 {
      RingWalk(d, f, k - 1);
      assert SlotOk(d.halfEdges, face.startHalfEdgeId, face.vertexIds, f, k - 1);
    }
    if k < |face.vertexIds| {
      assert SlotOk(d.halfEdges, face.startHalfEdgeId, face.vertexIds, f, k);
    }
  }
}
