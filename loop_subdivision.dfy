// Loop subdivision of hwA/A.4/src/main.cpp (addEdgeVertex, LoopSubdivideNative):
// every triangle is split into four through one new "odd" vertex per edge, the odd
// vertices are allocated lazily through a map keyed by the unordered vertex pair,
// and old ("even") and odd vertices are repositioned with Loop's weights.
module LoopSubdivision {
  import opened Common
  import opened Geometry
  import opened MeshCore
  import opened MeshWellFormed
  import opened MeshFacts
  import opened MeshLoad
  import opened Normals
  import opened MeshStore

  /** `PI` as the source spells it (a float literal, taken here as the exact decimal). */
  const PI: real := 3.1415926

  /** An edge key: two vertex ids, the smaller first once canonicalised. */
  datatype IndexPair2 = IndexPair2(v1: nat, v2: nat)

  /** What the map records for an edge: its odd vertex and the third corners of the
      (up to two) triangles seen on it. */
  datatype IndexPair3 = IndexPair3(vN: nat, vOpp1: nat, vOpp2: nat)

  type EdgeVertices = map<IndexPair2, IndexPair3>

  /** The canonical key of the edge between `a` and `b`. */
  function Key(a: nat, b: nat): (k: IndexPair2)
    ensures k.v1 <= k.v2
    ensures (k.v1 == a && k.v2 == b) || (k.v1 == b && k.v2 == a)
  {
    if a > b then IndexPair2(b, a) else IndexPair2(a, b)
  }

  // ---------------------------------------------------------------------------
  // addEdgeVertex

  /** addEdgeVertex(edgeVertices, v1, v2, v3, newIndex): the updated map, the updated
      `newIndex` and the returned odd-vertex id (returned through an `int`). The first
      sighting of an edge allocates `newIndex` with `v3` as first opposite corner; a
      later one only records `v3` as the second opposite corner. */
  function AddEdgeVertex(edgeVertices: EdgeVertices, v1Index: nat, v2Index: nat, v3Index: nat,
                         newIndex: nat): (r: (EdgeVertices, nat, nat))
    ensures var k := Key(v1Index, v2Index);
      && r.0.Keys == edgeVertices.Keys + {k}
      && (forall other :: other in edgeVertices && other != k ==> r.0[other] == edgeVertices[other])
      && (k !in edgeVertices ==> r.0[k] == IndexPair3(newIndex, v3Index, INVALID_INDEX) && r.1 == newIndex + 1)
      && (k in edgeVertices ==> r.0[k] == edgeVertices[k].(vOpp2 := v3Index) && r.1 == newIndex)
      && r.2 == ViaInt(r.0[k].vN)
  {
    var k := Key(v1Index, v2Index);
    if k !in edgeVertices then
      (edgeVertices[k := IndexPair3(newIndex, v3Index, INVALID_INDEX)], newIndex + 1, ViaInt(newIndex))
    else
      (edgeVertices[k := edgeVertices[k].(vOpp2 := v3Index)], newIndex, ViaInt(edgeVertices[k].vN))
  }

  /** Calling with the endpoints swapped touches the same entry and returns the same id. */
  lemma AddEdgeVertexSymmetric(edgeVertices: EdgeVertices, a: nat, b: nat, c: nat, newIndex: nat)
    ensures AddEdgeVertex(edgeVertices, a, b, c, newIndex) == AddEdgeVertex(edgeVertices, b, a, c, newIndex)
  {
    assert Key(a, b) == Key(b, a);
  }

  /** The map's invariant over `base` original vertices: canonical keys between
      original vertices, odd ids exactly filling [base, newIndex), one per key, and
      opposite corners that are original vertices. */
  ghost predicate TableOk(t: EdgeVertices, base: nat, newIndex: nat)
  {
    && newIndex == base + |t|
    && (forall k :: k in t ==> EntryOk(k, t[k], base, newIndex))
    && OddIdsDistinct(t)
  }

  ghost predicate OddIdsDistinct(t: EdgeVertices)
  {
    forall k1, k2 :: k1 in t && k2 in t && k1 != k2 ==> t[k1].vN != t[k2].vN
  }

  predicate EntryOk(k: IndexPair2, e: IndexPair3, base: nat, newIndex: nat)
  {
    && k.v1 <= k.v2 < base
    && base <= e.vN < newIndex
    && e.vOpp1 < base
    && (e.vOpp2 == INVALID_INDEX || e.vOpp2 < base)
  }

  /** addEdgeVertex on original vertices keeps the invariant, and never moves the
      odd id of an edge already in the map. */
  lemma AddEdgeVertexKeepsTable(t: EdgeVertices, base: nat, newIndex: nat, a: nat, b: nat, c: nat)
    requires TableOk(t, base, newIndex) && a < base && b < base && c < base
    ensures var r := AddEdgeVertex(t, a, b, c, newIndex);
      && TableOk(r.0, base, r.1)
      && r.0[Key(a, b)].vN < r.1
      && (r.0[Key(a, b)].vN == newIndex <==> Key(a, b) !in t)
      && (forall k :: k in t ==> r.0[k].vN == t[k].vN)
  {
    var k := Key(a, b);
    var r := AddEdgeVertex(t, a, b, c, newIndex);
    if k !in t {
      assert |r.0| == |t| + 1;
      forall k1 | k1 in r.0 ensures EntryOk(k1, r.0[k1], base, r.1) {
        if k1 != k { assert EntryOk(k1, t[k1], base, newIndex); }
      }
    } else {
      assert r.0.Keys == t.Keys;
      assert EntryOk(k, t[k], base, newIndex);
      forall k1 | k1 in r.0 ensures EntryOk(k1, r.0[k1], base, r.1) {
        if k1 != k { assert EntryOk(k1, t[k1], base, newIndex); }
      }
    }
  }

  // ---------------------------------------------------------------------------
  // The face loop

  /** The map, the next free vertex id and the flat list of emitted triangles. */
  datatype Split = Split(edgeVertices: EdgeVertices, newIndex: nat, newFaces: seq<nat>)

  /** One face of the face loop: a face that is not a triangle is skipped; a triangle
      (v0, v1, v2) with odd vertices p, q, r on its edges v0v1, v1v2, v2v0 emits
      (v0, p, r), (p, v1, q), (r, q, v2), (r, p, q). */
  function SplitFace(s: Split, ids: seq<nat>): (r: Split)
    ensures |ids| != 3 ==> r == s
    ensures |ids| == 3 ==> |r.newFaces| == |s.newFaces| + 12 && r.newFaces[..|s.newFaces|] == s.newFaces
    ensures s.newIndex <= r.newIndex <= s.newIndex + (if |ids| == 3 then 3 else 0)
  {
    if |ids| != 3 then s
    else
      var (t1, n1, p) := AddEdgeVertex(s.edgeVertices, ids[0], ids[1], ids[2], s.newIndex);
      var (t2, n2, q) := AddEdgeVertex(t1, ids[1], ids[2], ids[0], n1);
      var (t3, n3, r) := AddEdgeVertex(t2, ids[2], ids[0], ids[1], n2);
      Split(t3, n3, s.newFaces + [ids[0], p, r, p, ids[1], q, r, q, ids[2], r, p, q])
  }

  /** The face loop over `faces`, starting from `base` copied vertices: twelve
      emitted ids and at most three new vertex ids per triangle. */
  function SplitFaces(faces: seq<FaceElement>, base: nat): (r: Split)
    ensures |r.newFaces| == 12 * TriangleCount(faces)
    ensures base <= r.newIndex <= base + 3 * TriangleCount(faces)
  {
    if faces == [] then Split(map[], base, [])
    else SplitFace(SplitFaces(faces[..|faces| - 1], base), faces[|faces| - 1].vertexIds)
  }

  function TriangleCount(faces: seq<FaceElement>): nat
  {
    if faces == [] then 0
    else TriangleCount(faces[..|faces| - 1]) + (if |faces[|faces| - 1].vertexIds| == 3 then 1 else 0)
  }

  predicate FacesBelow(faces: seq<FaceElement>, base: nat)
  {
    forall f :: 0 <= f < |faces| ==> IdsBelow(faces[f].vertexIds, base)
  }

  /** One triangle: the map keeps its invariant, keeps every odd id it had, gains
      the triangle's three edges, and hands out at most three new ids. */
  lemma SplitFaceTable(s: Split, ids: seq<nat>, base: nat)
    requires TableOk(s.edgeVertices, base, s.newIndex) && IdsBelow(ids, base)
    ensures var r := SplitFace(s, ids);
      && TableOk(r.edgeVertices, base, r.newIndex)
      && s.newIndex <= r.newIndex <= s.newIndex + 3
      && s.edgeVertices.Keys <= r.edgeVertices.Keys
      && (forall k :: k in s.edgeVertices ==> r.edgeVertices[k].vN == s.edgeVertices[k].vN)
      && (|ids| == 3 ==>
            Key(ids[0], ids[1]) in r.edgeVertices && Key(ids[1], ids[2]) in r.edgeVertices &&
            Key(ids[2], ids[0]) in r.edgeVertices)
  {
    if |ids| == 3 {
      var t0 := s.edgeVertices;
      var e1 := AddEdgeVertex(t0, ids[0], ids[1], ids[2], s.newIndex);
      AddEdgeVertexKeepsTable(t0, base, s.newIndex, ids[0], ids[1], ids[2]);
      var e2 := AddEdgeVertex(e1.0, ids[1], ids[2], ids[0], e1.1);
      AddEdgeVertexKeepsTable(e1.0, base, e1.1, ids[1], ids[2], ids[0]);
      AddEdgeVertexKeepsTable(e2.0, base, e2.1, ids[2], ids[0], ids[1]);
    }
  }

  /** One triangle emits its corners and the odd ids the map now holds for its
      edges v0v1 (p), v1v2 (q) and v2v0 (r), as (v0, p, r), (p, v1, q), (r, q, v2),
      (r, p, q); all emitted ids are below the new vertex count. */
  lemma SplitFaceEmits(s: Split, ids: seq<nat>, base: nat)
    requires TableOk(s.edgeVertices, base, s.newIndex) && IdsBelow(ids, base) && |ids| == 3
    requires s.newIndex + 3 < 0x8000_0000
    ensures var r := SplitFace(s, ids);
      && Key(ids[0], ids[1]) in r.edgeVertices && Key(ids[1], ids[2]) in r.edgeVertices
      && Key(ids[2], ids[0]) in r.edgeVertices
      && var p := r.edgeVertices[Key(ids[0], ids[1])].vN;
         var q := r.edgeVertices[Key(ids[1], ids[2])].vN;
         var rr := r.edgeVertices[Key(ids[2], ids[0])].vN;
         && p < r.newIndex && q < r.newIndex && rr < r.newIndex
         && r.newFaces == s.newFaces + [ids[0], p, rr, p, ids[1], q, rr, q, ids[2], rr, p, q]
  {
    var t0 := s.edgeVertices;
    var k01, k12, k20 := Key(ids[0], ids[1]), Key(ids[1], ids[2]), Key(ids[2], ids[0]);
    var e1 := AddEdgeVertex(t0, ids[0], ids[1], ids[2], s.newIndex);
    assert TableOk(e1.0, base, e1.1) && e1.0[k01].vN < e1.1 <= s.newIndex + 1 by {
      AddEdgeVertexKeepsTable(t0, base, s.newIndex, ids[0], ids[1], ids[2]);
    }
    var e2 := AddEdgeVertex(e1.0, ids[1], ids[2], ids[0], e1.1);
    assert && TableOk(e2.0, base, e2.1) && e2.0[k12].vN < e2.1 <= e1.1 + 1
           && k01 in e2.0 && e2.0[k01].vN == e1.0[k01].vN by {
      AddEdgeVertexKeepsTable(e1.0, base, e1.1, ids[1], ids[2], ids[0]);
    }
    var e3 := AddEdgeVertex(e2.0, ids[2], ids[0], ids[1], e2.1);
    assert && e3.0[k20].vN < e3.1 <= e2.1 + 1 && k01 in e3.0 && k12 in e3.0
           && e3.0[k01].vN == e1.0[k01].vN && e3.0[k12].vN == e2.0[k12].vN by {
      AddEdgeVertexKeepsTable(e2.0, base, e2.1, ids[2], ids[0], ids[1]);
    }
    assert e1.2 == e1.0[k01].vN && e2.2 == e2.0[k12].vN && e3.2 == e3.0[k20].vN;
    assert SplitFace(s, ids) == Split(e3.0, e3.1, s.newFaces + [ids[0], e1.2, e3.2, e1.2, ids[1], e2.2, e3.2, e2.2, ids[2], e3.2, e1.2, e2.2]);
  }

  /** The whole face loop: the map's invariant, one odd vertex per distinct edge key
      (so the new mesh has base + |map| vertices, at most three new per triangle),
      twelve emitted ids per triangle, all below the new vertex count. */
  lemma {:induction false} SplitFacesShape(faces: seq<FaceElement>, base: nat)
    requires FacesBelow(faces, base) && base + 3 * |faces| < 0x8000_0000
    ensures var s := SplitFaces(faces, base);
      && TableOk(s.edgeVertices, base, s.newIndex)
      && s.newIndex <= base + 3 * TriangleCount(faces)
      && |s.newFaces| == 12 * TriangleCount(faces)
      && IdsBelow(s.newFaces, s.newIndex)
    decreases |faces|
  {
    if faces != [] {
      var init := faces[..|faces| - 1];
      FacesBelowPrefix(faces, base);
      SplitFacesShape(init, base);
      TriangleCountBound(init);
      var s := SplitFaces(init, base);
      var last := faces[|faces| - 1].vertexIds;
      assert IdsBelow(last, base);
      assert SplitFaces(faces, base) == SplitFace(s, last);
      assert TriangleCount(faces) == TriangleCount(init) + (if |last| == 3 then 1 else 0);
      SplitFaceTable(s, last, base);
      if |last| == 3 {
        SplitFaceEmits(s, last, base);
        var r := SplitFace(s, last);
        var p := r.edgeVertices[Key(last[0], last[1])].vN;
        var q := r.edgeVertices[Key(last[1], last[2])].vN;
        var rr := r.edgeVertices[Key(last[2], last[0])].vN;
        var emitted := [last[0], p, rr, p, last[1], q, rr, q, last[2], rr, p, q];
        assert last[0] < base && last[1] < base && last[2] < base;
        EmittedBelow(last[0], last[1], last[2], p, q, rr, r.newIndex);
        AppendBelow(s.newFaces, emitted, s.newIndex, r.newIndex);
      }
    }
  }

  lemma EmittedBelow(v0: nat, v1: nat, v2: nat, p: nat, q: nat, r: nat, bound: nat)
    requires v0 < bound && v1 < bound && v2 < bound && p < bound && q < bound && r < bound
    ensures IdsBelow([v0, p, r, p, v1, q, r, q, v2, r, p, q], bound)
  {
  }

  lemma AppendBelow(a: seq<nat>, b: seq<nat>, low: nat, bound: nat)
    requires IdsBelow(a, low) && low <= bound && IdsBelow(b, bound)
    ensures IdsBelow(a + b, bound)
  {
  }

  lemma FacesBelowPrefix(faces: seq<FaceElement>, base: nat)
    requires FacesBelow(faces, base) && faces != []
    ensures FacesBelow(faces[..|faces| - 1], base)
  {
    var init := faces[..|faces| - 1];
    forall f | 0 <= f < |init| ensures IdsBelow(init[f].vertexIds, base) {
      assert init[f] == faces[f];
    }
  }

  /** Every edge of every triangle of `faces` has a key in `keys`. */
  ghost predicate Covered(faces: seq<FaceElement>, keys: set<IndexPair2>)
  {
    forall f :: 0 <= f < |faces| && |faces[f].vertexIds| == 3 ==>
      var ids := faces[f].vertexIds;
      Key(ids[0], ids[1]) in keys && Key(ids[1], ids[2]) in keys && Key(ids[2], ids[0]) in keys
  }

  /** Every edge of every triangle gets an odd vertex. */
  lemma {:induction false} SplitFacesCover(faces: seq<FaceElement>, base: nat)
    requires FacesBelow(faces, base)
    ensures var s := SplitFaces(faces, base);
      TableOk(s.edgeVertices, base, s.newIndex) && Covered(faces, s.edgeVertices.Keys)
    decreases |faces|
  {
    if faces != [] {
      var init := faces[..|faces| - 1];
      FacesBelowPrefix(faces, base);
      SplitFacesCover(init, base);
      var s := SplitFaces(init, base);
      var last := faces[|faces| - 1].vertexIds;
      assert SplitFaces(faces, base) == SplitFace(s, last) && IdsBelow(last, base);
      SplitFaceTable(s, last, base);
      var r := SplitFace(s, last);
      CoverStep(faces, s.edgeVertices.Keys, r.edgeVertices.Keys);
    }
  }

  /** Covering all faces but the last, plus the last one's edges, covers them all. */
  lemma CoverStep(faces: seq<FaceElement>, before: set<IndexPair2>, after: set<IndexPair2>)
    requires faces != [] && Covered(faces[..|faces| - 1], before) && before <= after
    requires var ids := faces[|faces| - 1].vertexIds;
      |ids| == 3 ==> Key(ids[0], ids[1]) in after && Key(ids[1], ids[2]) in after && Key(ids[2], ids[0]) in after
    ensures Covered(faces, after)
  {
    var init := faces[..|faces| - 1];
    forall f | 0 <= f < |faces| && |faces[f].vertexIds| == 3
      ensures var ids := faces[f].vertexIds;
        Key(ids[0], ids[1]) in after && Key(ids[1], ids[2]) in after && Key(ids[2], ids[0]) in after
    {
      if f < |init| {
        assert init[f] == faces[f];
      }
    }
  }

  lemma {:induction false} TriangleCountBound(faces: seq<FaceElement>)
    ensures TriangleCount(faces) <= |faces|
    decreases |faces|
  {
    if faces != [] { TriangleCountBound(faces[..|faces| - 1]); }
  }

  // ---------------------------------------------------------------------------
  // Vertex positions

  /** An odd vertex: the midpoint of a boundary edge, otherwise 3/8 of each endpoint
      plus 1/8 of each opposite corner. */
  function OddRule(v1Pos: Vec3, v2Pos: Vec3, opp1Pos: Vec3, opp2Pos: Option<Vec3>): (r: Vec3)
    ensures r.NaN? <==> v1Pos.NaN? || v2Pos.NaN? || (opp2Pos.Some? && (opp1Pos.NaN? || opp2Pos.value.NaN?))
  {
    match opp2Pos
    case None => Scale(0.5, Plus(v1Pos, v2Pos))
    case Some(o2) => Plus(Scale(0.375, Plus(v1Pos, v2Pos)), Scale(0.125, Plus(opp1Pos, o2)))
  }

  /** The odd rule is an affine combination: if the edge and its opposite corners
      all sit at one point, so does the odd vertex. */
  lemma OddRuleAffine(p: Vec3, opp2: bool)
    ensures OddRule(p, p, p, if opp2 then Some(p) else None) == p
  {
  }

  /** Where the odd vertex of entry `e` on key `k` goes, from original positions. */
  function OddPosition(d: MeshData, k: IndexPair2, e: IndexPair3): (r: Vec3)
    requires k.v1 < |d.vertices| && k.v2 < |d.vertices| && e.vOpp1 < |d.vertices|
    requires e.vOpp2 == INVALID_INDEX || e.vOpp2 < |d.vertices|
    ensures e.vOpp2 == INVALID_INDEX ==>
      r == Scale(0.5, Plus(d.vertices[k.v1].position, d.vertices[k.v2].position))
    ensures r == OddRule(d.vertices[k.v2].position, d.vertices[k.v1].position, d.vertices[e.vOpp1].position,
                         if e.vOpp2 == INVALID_INDEX then None else Some(d.vertices[e.vOpp2].position))
  {
    OddRule(d.vertices[k.v1].position, d.vertices[k.v2].position, d.vertices[e.vOpp1].position,
            if e.vOpp2 == INVALID_INDEX then None else Some(d.vertices[e.vOpp2].position))
  }

  /** The neighbourhood an even vertex sees: how many neighbours and their position
      sum, and how many of them lie across a boundary edge and their position sum. */
  datatype Ring = Ring(count: nat, sum: Vec3, boundaryCount: nat, boundarySum: Vec3)

  /** An edge is a boundary edge when no second triangle was seen on it. */
  predicate IsBoundary(t: EdgeVertices, v: nat, w: nat)
  {
    Key(v, w) !in t || t[Key(v, w)].vOpp2 == INVALID_INDEX
  }

  /** The even rule: 3/4 of the vertex and 1/8 of each of exactly two boundary
      neighbours, otherwise Loop's beta = (5/8 - (3/8 + 1/4 cos(2 pi / n))^2) / n
      over all n neighbours; n = 0 divides by zero. */
  function EvenRule(position: Vec3, ring: Ring, cos: real -> real): (r: Vec3)
    ensures ring.boundaryCount == 2 ==> (r.NaN? <==> position.NaN? || ring.boundarySum.NaN?)
    ensures ring.boundaryCount != 2 && ring.count == 0 ==> r.NaN?
    ensures ring.boundaryCount != 2 && ring.count > 0 ==> (r.NaN? <==> position.NaN? || ring.sum.NaN?)
  {
    if ring.boundaryCount == 2 then Plus(Scale(0.75, position), Scale(0.125, ring.boundarySum))
    else if ring.count == 0 then NaN
    else
      var n := ring.count as real;
      var val := 0.375 + 0.25 * cos(2.0 * PI / n);
      var beta := (0.625 - val * val) / n;
      Plus(Scale(1.0 - beta * n, position), Scale(beta, ring.sum))
  }

  /** Both even rules are affine combinations: when every neighbour counted sits
      at the vertex itself, the vertex stays where it is. */
  lemma EvenRuleAffine(p: Vec3, ring: Ring, cos: real -> real)
    requires p.Vec3?
    requires ring.sum == Scale(ring.count as real, p)
    requires ring.boundarySum == Scale(ring.boundaryCount as real, p)
    requires ring.count > 0 || ring.boundaryCount == 2
    ensures EvenRule(p, ring, cos) == p
  {
    if ring.boundaryCount != 2 {
      var n := ring.count as real;
      var val := 0.375 + 0.25 * cos(2.0 * PI / n);
      var beta := (0.625 - val * val) / n;
      assert (1.0 - beta * n) * p.x + beta * (n * p.x) == p.x;
      assert (1.0 - beta * n) * p.y + beta * (n * p.y) == p.y;
      assert (1.0 - beta * n) * p.z + beta * (n * p.z) == p.z;
    }
  }

  /** The source's loop over the outgoing half-edges `ids` of `v`: every neighbour
      counts, and it is a boundary neighbour when the edge is a boundary edge. */
  function OutgoingRing(d: MeshData, t: EdgeVertices, v: nat, ids: seq<nat>): (r: Ring)
    requires forall k :: 0 <= k < |ids| ==> ids[k] < |d.halfEdges| && d.halfEdges[ids[k]].toVertexId < |d.vertices|
    ensures r.count == |ids| && r.boundaryCount <= r.count
  {
    if ids == [] then Ring(0, Zero, 0, Zero)
    else
      var r := OutgoingRing(d, t, v, ids[..|ids| - 1]);
      var h := ids[|ids| - 1];
      var w := d.halfEdges[h].toVertexId;
      var p := d.vertices[w].position;
      if IsBoundary(t, v, w) then Ring(r.count + 1, Plus(r.sum, p), r.boundaryCount + 1, Plus(r.boundarySum, p))
      else Ring(r.count + 1, Plus(r.sum, p), r.boundaryCount, r.boundarySum)
  }

  /** The boundary neighbours reached only through incoming half-edges `ids` of `v`:
      their from-vertices across boundary edges. */
  function IncomingBoundary(d: MeshData, t: EdgeVertices, v: nat, ids: seq<nat>, r0: Ring): (r: Ring)
    requires forall k :: 0 <= k < |ids| ==> ids[k] < |d.halfEdges| && d.halfEdges[ids[k]].fromVertexId < |d.vertices|
    ensures r.count == r0.count && r.sum == r0.sum
    ensures r0.boundaryCount <= r.boundaryCount <= r0.boundaryCount + |ids|
  {
    if ids == [] then r0
    else
      var r := IncomingBoundary(d, t, v, ids[..|ids| - 1], r0);
      var h := ids[|ids| - 1];
      var u := d.halfEdges[h].fromVertexId;
      if IsBoundary(t, v, u) then r.(boundaryCount := r.boundaryCount + 1, boundarySum := Plus(r.boundarySum, d.vertices[u].position))
      else r
  }

  /** Vertex `v`'s lists name half-edges whose far ends are vertices. */
  ghost predicate Resolves(d: MeshData, v: nat)
  {
    && v < |d.vertices| && v < |d.vertexElements|
    && (forall k :: 0 <= k < |d.vertexElements[v].outgoingHalfEdgeIds| ==>
          var h := d.vertexElements[v].outgoingHalfEdgeIds[k];
          h < |d.halfEdges| && d.halfEdges[h].toVertexId < |d.vertices|)
    && (forall k :: 0 <= k < |d.vertexElements[v].incomingHalfEdgeIds| ==>
          var h := d.vertexElements[v].incomingHalfEdgeIds[k];
          h < |d.halfEdges| && d.halfEdges[h].fromVertexId < |d.vertices|)
  }

  lemma WellFormedResolves(d: MeshData, v: nat)
    requires WellFormed(d) && v < |d.vertices|
    ensures Resolves(d, v)
  {
    assert VertexListsOk(d, v);
    forall h | 0 <= h < |d.halfEdges| ensures d.halfEdges[h].toVertexId < |d.vertices| && d.halfEdges[h].fromVertexId < |d.vertices| {
      assert HalfEdgeOk(d, h);
    }
  }

  /** The even rule as written: boundary edges are counted among the outgoing
      half-edges only. */
  function AsWrittenEvenPosition(d: MeshData, t: EdgeVertices, v: nat, cos: real -> real): (r: Vec3)
    requires Resolves(d, v)
    ensures d.vertexElements[v].outgoingHalfEdgeIds == [] ==> r.NaN?
  {
    EvenRule(d.vertices[v].position, OutgoingRing(d, t, v, d.vertexElements[v].outgoingHalfEdgeIds), cos)
  }

  /** The even rule as intended: a boundary edge entering `v` is a boundary edge of
      `v` too, so its from-vertex is counted as a boundary neighbour. */
  function EvenPosition(d: MeshData, t: EdgeVertices, v: nat, cos: real -> real): (r: Vec3)
    requires Resolves(d, v)
    ensures d.vertexElements[v].outgoingHalfEdgeIds == [] && d.vertexElements[v].incomingHalfEdgeIds == [] ==> r.NaN?
  {
    var out := OutgoingRing(d, t, v, d.vertexElements[v].outgoingHalfEdgeIds);
    EvenRule(d.vertices[v].position, IncomingBoundary(d, t, v, d.vertexElements[v].incomingHalfEdgeIds, out), cos)
  }

  /** Where no incoming edge is a boundary edge (in particular in a closed mesh)
      the corrected rule is the rule as written. */
  lemma EvenPositionAgrees(d: MeshData, t: EdgeVertices, v: nat, cos: real -> real)
    requires Resolves(d, v)
    requires forall k :: 0 <= k < |d.vertexElements[v].incomingHalfEdgeIds| ==>
      !IsBoundary(t, v, d.halfEdges[d.vertexElements[v].incomingHalfEdgeIds[k]].fromVertexId)
    ensures EvenPosition(d, t, v, cos) == AsWrittenEvenPosition(d, t, v, cos)
  {
    var out := OutgoingRing(d, t, v, d.vertexElements[v].outgoingHalfEdgeIds);
    IncomingInteriorKeeps(d, t, v, d.vertexElements[v].incomingHalfEdgeIds, out);
  }

  lemma {:induction false} IncomingInteriorKeeps(d: MeshData, t: EdgeVertices, v: nat, ids: seq<nat>, r0: Ring)
    requires forall k :: 0 <= k < |ids| ==> ids[k] < |d.halfEdges| && d.halfEdges[ids[k]].fromVertexId < |d.vertices|
    requires forall k :: 0 <= k < |ids| ==> !IsBoundary(t, v, d.halfEdges[ids[k]].fromVertexId)
    ensures IncomingBoundary(d, t, v, ids, r0) == r0
    decreases |ids|
  {
    if ids != [] {
      IncomingInteriorKeeps(d, t, v, ids[..|ids| - 1], r0);
    }
  }

  // ---------------------------------------------------------------------------
  // The even rule on a lone triangle

  /** One triangle (0, 1, 2) over three vertices (LoneTriangleBuilt shows that
      addVertex and addFace build exactly this). */
  function LoneTriangle(p0: Vec3, p1: Vec3, p2: Vec3): MeshData
  {
    MeshData(
      [Vertex(p0, Zero), Vertex(p1, Zero), Vertex(p2, Zero)],
      [VertexElement(0, [0], [2]), VertexElement(1, [1], [0]), VertexElement(2, [2], [1])],
      [Edge, Edge, Edge],
      [EdgeElement(0, INVALID_INDEX, 1, 0), EdgeElement(1, INVALID_INDEX, 2, 1), EdgeElement(2, INVALID_INDEX, 0, 2)],
      [Face(Zero)],
      [FaceElement(0, [0, 1, 2])],
      [HalfEdge(0, 0, 2, 1, INVALID_INDEX, 1, 0, 0), HalfEdge(1, 1, 0, 2, INVALID_INDEX, 2, 1, 0),
       HalfEdge(2, 2, 1, 0, INVALID_INDEX, 0, 2, 0)],
      [0, 1, 2])
  }

  /** Three vertices and nothing else, as three addVertex calls leave the store. */
  function ThreeVertices(p0: Vec3, p1: Vec3, p2: Vec3): MeshData
  {
    MeshData([Vertex(p0, Zero), Vertex(p1, Zero), Vertex(p2, Zero)],
             [VertexElement(0, [], []), VertexElement(1, [], []), VertexElement(2, [], [])],
             [], [], [], [], [], [])
  }

  lemma ThreeVerticesBuilt(p0: Vec3, p1: Vec3, p2: Vec3)
    ensures AddVertexSpec(AddVertexSpec(AddVertexSpec(EmptyMesh, p0).0, p1).0, p2).0 == ThreeVertices(p0, p1, p2)
  {
    var d3 := AddVertexSpec(AddVertexSpec(AddVertexSpec(EmptyMesh, p0).0, p1).0, p2).0;
    assert d3.vertices == ThreeVertices(p0, p1, p2).vertices;
    assert d3.vertexElements == ThreeVertices(p0, p1, p2).vertexElements;
  }

  lemma ThreeVerticesWellFormed(p0: Vec3, p1: Vec3, p2: Vec3)
    ensures WellFormed(ThreeVertices(p0, p1, p2))
  {
    var d1 := AddVertexSpec(EmptyMesh, p0).0;
    var d2 := AddVertexSpec(d1, p1).0;
    EmptyMeshWellFormed();
    AddVertexPreservesWellFormed(EmptyMesh, p0);
    AddVertexPreservesWellFormed(d1, p1);
    AddVertexPreservesWellFormed(d2, p2);
    ThreeVerticesBuilt(p0, p1, p2);
  }

  /** The store after the first pass of addFace's loop over [0, 1, 2]. */
  function AfterFirstPass(p0: Vec3, p1: Vec3, p2: Vec3): MeshData
  {
    ThreeVertices(p0, p1, p2).(
      vertexElements := [VertexElement(0, [0], []), VertexElement(1, [], [0]), VertexElement(2, [], [])],
      edges := [Edge], edgeElements := [EdgeElement(0, INVALID_INDEX, 1, 0)],
      halfEdges := [HalfEdge(0, 0, 2, 1, INVALID_INDEX, 1, 0, 0)], indices := [0])
  }

  /** The store after the second pass. */
  function AfterSecondPass(p0: Vec3, p1: Vec3, p2: Vec3): MeshData
  {
    ThreeVertices(p0, p1, p2).(
      vertexElements := [VertexElement(0, [0], []), VertexElement(1, [1], [0]), VertexElement(2, [], [1])],
      edges := [Edge, Edge],
      edgeElements := [EdgeElement(0, INVALID_INDEX, 1, 0), EdgeElement(1, INVALID_INDEX, 2, 1)],
      halfEdges := [HalfEdge(0, 0, 2, 1, INVALID_INDEX, 1, 0, 0), HalfEdge(1, 1, 0, 2, INVALID_INDEX, 2, 1, 0)],
      indices := [0, 1])
  }

  lemma FirstPass(p0: Vec3, p1: Vec3, p2: Vec3)
    ensures Indexable(ThreeVertices(p0, p1, p2))
    ensures AddHalfEdge(ThreeVertices(p0, p1, p2), [0, 1, 2], 0, 0, 0) == AfterFirstPass(p0, p1, p2)
  {
    var d := ThreeVertices(p0, p1, p2);
    var e := AfterFirstPass(p0, p1, p2);
    assert FirstFrom(d.halfEdges, [], 1, 0) == 0;
    assert ToU32(0) == 0;
    assert (0 + 1) % 3 == 1;
    var r := AddHalfEdge(d, [0, 1, 2], 0, 0, 0);
    var empty: seq<nat> := [];
    assert empty + [0] == [0];
    assert r.vertexElements == e.vertexElements;
    assert r.edgeElements == e.edgeElements;
    assert r.halfEdges == e.halfEdges;
    assert r.indices == e.indices;
  }

  /** The vertex records after pass 2. */
  lemma SecondPassVertexElements(p0: Vec3, p1: Vec3, p2: Vec3)
    requires Indexable(AfterFirstPass(p0, p1, p2))
    ensures AddHalfEdge(AfterFirstPass(p0, p1, p2), [0, 1, 2], 0, 0, 1).vertexElements == AfterSecondPass(p0, p1, p2).vertexElements
  {
    var d := AfterFirstPass(p0, p1, p2);
    var e := AfterSecondPass(p0, p1, p2);
    assert FirstFrom(d.halfEdges, [0], 2, 0) == 1 by {
      assert FirstFrom(d.halfEdges, [0], 2, 1) == 1;
    }
    assert ToU32(1) == 1;
    assert (1 + 1) % 3 == 2;
    var r := AddHalfEdge(d, [0, 1, 2], 0, 0, 1);
    var empty: seq<nat> := [];
    assert empty + [1] == [1];
    assert r.vertexElements[0] == e.vertexElements[0];
    assert r.vertexElements[1] == e.vertexElements[1];
    assert r.vertexElements[2] == e.vertexElements[2];
  }

  lemma SecondPass(p0: Vec3, p1: Vec3, p2: Vec3)
    ensures Indexable(AfterFirstPass(p0, p1, p2))
    ensures AddHalfEdge(AfterFirstPass(p0, p1, p2), [0, 1, 2], 0, 0, 1) == AfterSecondPass(p0, p1, p2)
  {
    var d := AfterFirstPass(p0, p1, p2);
    var e := AfterSecondPass(p0, p1, p2);
    assert FirstFrom(d.halfEdges, [0], 2, 0) == 1 by {
      assert FirstFrom(d.halfEdges, [0], 2, 1) == 1;
    }
    assert ToU32(1) == 1;
    assert (1 + 1) % 3 == 2;
    var r := AddHalfEdge(d, [0, 1, 2], 0, 0, 1);
    SecondPassVertexElements(p0, p1, p2);
    assert r.edgeElements == e.edgeElements;
    assert r.halfEdges == e.halfEdges;
    assert r.indices == e.indices;
  }

  /** The vertex records after pass 3. */
  lemma ThirdPassVertexElements(p0: Vec3, p1: Vec3, p2: Vec3)
    requires Indexable(AfterSecondPass(p0, p1, p2))
    ensures AddHalfEdge(AfterSecondPass(p0, p1, p2), [0, 1, 2], 0, 0, 2).vertexElements == LoneTriangle(p0, p1, p2).vertexElements
  {
    var d := AfterSecondPass(p0, p1, p2);
    var e := LoneTriangle(p0, p1, p2);
    assert FirstFrom(d.halfEdges, [1], 0, 0) == 1 by {
      assert FirstFrom(d.halfEdges, [1], 0, 1) == 1;
    }
    assert ToU32(2) == 2;
    assert (2 + 1) % 3 == 0;
    var r := AddHalfEdge(d, [0, 1, 2], 0, 0, 2);
    var empty: seq<nat> := [];
    assert empty + [2] == [2];
    assert r.vertexElements[0] == e.vertexElements[0];
    assert r.vertexElements[1] == e.vertexElements[1];
    assert r.vertexElements[2] == e.vertexElements[2];
  }

  lemma ThirdPass(p0: Vec3, p1: Vec3, p2: Vec3)
    ensures Indexable(AfterSecondPass(p0, p1, p2))
    ensures AddHalfEdge(AfterSecondPass(p0, p1, p2), [0, 1, 2], 0, 0, 2)
            == LoneTriangle(p0, p1, p2).(faces := [], faceElements := [])
  {
    var d := AfterSecondPass(p0, p1, p2);
    var e := LoneTriangle(p0, p1, p2);
    assert FirstFrom(d.halfEdges, [1], 0, 0) == 1 by {
      assert FirstFrom(d.halfEdges, [1], 0, 1) == 1;
    }
    assert ToU32(2) == 2;
    assert (2 + 1) % 3 == 0;
    var r := AddHalfEdge(d, [0, 1, 2], 0, 0, 2);
    ThirdPassVertexElements(p0, p1, p2);
    assert r.edgeElements == e.edgeElements;
    assert r.halfEdges == e.halfEdges;
    assert r.indices == e.indices;
  }

  /** addFace's loop on [0, 1, 2] over three fresh vertices lays down the lone
      triangle's three half-edges. */
  lemma LoneTriangleRing(p0: Vec3, p1: Vec3, p2: Vec3)
    ensures Indexable(ThreeVertices(p0, p1, p2))
    ensures AddHalfEdges(ThreeVertices(p0, p1, p2), [0, 1, 2], 0, 3)
            == LoneTriangle(p0, p1, p2).(faces := [], faceElements := [])
  {
    var d := ThreeVertices(p0, p1, p2);
    var ids: seq<nat> := [0, 1, 2];
    var first := AfterFirstPass(p0, p1, p2);
    var second := AfterSecondPass(p0, p1, p2);
    FirstPass(p0, p1, p2);
    HalfEdgesNext(d, ids, 0, 0);
    SecondPass(p0, p1, p2);
    HalfEdgesNext(d, ids, 0, 1);
    ThirdPass(p0, p1, p2);
    HalfEdgesNext(d, ids, 0, 2);
  }

  /** addFace([0, 1, 2]) on three vertices builds the lone triangle. */
  lemma LoneTriangleFace(p0: Vec3, p1: Vec3, p2: Vec3)
    ensures Indexable(ThreeVertices(p0, p1, p2))
    ensures AddFaceSpec(ThreeVertices(p0, p1, p2), [0, 1, 2]).0 == LoneTriangle(p0, p1, p2)
  {
    LoneTriangleRing(p0, p1, p2);
    FaceFromRing(ThreeVertices(p0, p1, p2), [0, 1, 2], LoneTriangle(p0, p1, p2));
  }

  /** addFace closes a ring of half-edges into the store `m` when the ring is `m`
      without its new face. */
  lemma FaceFromRing(d: MeshData, ids: seq<nat>, m: MeshData)
    requires Indexable(d) && 3 <= |ids| && IdsBelow(ids, |d.vertexElements|)
    requires AddHalfEdges(d, ids, |d.faceElements|, |ids|) == m.(faces := d.faces, faceElements := d.faceElements)
    requires m.faceElements == d.faceElements + [FaceElement(|d.halfEdges|, ids)]
    requires m.faces == d.faces + [Face(Zero)]
    ensures AddFaceSpec(d, ids).0 == m
  {
  }

  /** The lone triangle is well formed. */
  lemma LoneTriangleWellFormed(p0: Vec3, p1: Vec3, p2: Vec3)
    ensures WellFormed(LoneTriangle(p0, p1, p2))
  {
    LoneTriangleFace(p0, p1, p2);
    ThreeVerticesWellFormed(p0, p1, p2);
    AddFacePreservesWellFormed(ThreeVertices(p0, p1, p2), [0, 1, 2]);
  }

  /** The lone triangle is exactly what three addVertex calls and addFace([0, 1, 2])
      build, and it is well formed. */
  lemma LoneTriangleBuilt(p0: Vec3, p1: Vec3, p2: Vec3)
    ensures var d3 := AddVertexSpec(AddVertexSpec(AddVertexSpec(EmptyMesh, p0).0, p1).0, p2).0;
      && Indexable(d3) && AddFaceSpec(d3, [0, 1, 2]).0 == LoneTriangle(p0, p1, p2)
      && WellFormed(LoneTriangle(p0, p1, p2))
  {
    LoneTriangleFace(p0, p1, p2);
    LoneTriangleWellFormed(p0, p1, p2);
    ThreeVerticesBuilt(p0, p1, p2);
  }

  /** Corners of the lone triangle used below. */
  function Corners(): MeshData
  {
    LoneTriangle(Vec3(0.0, 0.0, 0.0), Vec3(1.0, 0.0, 0.0), Vec3(0.0, 1.0, 0.0))
  }

  /** The lone triangle's two edges at corner 0 are both boundary edges. */
  lemma LoneTriangleEdges()
    ensures var t := SplitFaces(Corners().faceElements, 3).edgeVertices;
      IsBoundary(t, 0, 1) && IsBoundary(t, 0, 2)
  {
    LoneTriangleSplit();
  }

  /** The map the face loop builds for the lone triangle: odd vertices 3, 4 and 5 on
      its edges 01, 12 and 20, each seen from one triangle only. */
  const LoneTriangleMap: EdgeVertices :=
    map[IndexPair2(0, 1) := IndexPair3(3, 2, INVALID_INDEX),
        IndexPair2(1, 2) := IndexPair3(4, 0, INVALID_INDEX),
        IndexPair2(0, 2) := IndexPair3(5, 1, INVALID_INDEX)]

  /** The face loop on the lone triangle: three new odd vertices, and the four
      triangles (0, 3, 5), (3, 1, 4), (5, 4, 2), (5, 3, 4). */
  lemma LoneTriangleSplit()
    ensures SplitFaces(Corners().faceElements, 3)
         == Split(LoneTriangleMap, 6, [0, 3, 5, 3, 1, 4, 5, 4, 2, 5, 3, 4])
  {
    var d := Corners();
    var s0 := Split(map[], 3, []);
    assert SplitFaces(d.faceElements, 3) == SplitFace(s0, [0, 1, 2]) by {
      assert d.faceElements[..0] == [];
    }
    var e1 := AddEdgeVertex(map[], 0, 1, 2, 3);
    assert e1 == (map[IndexPair2(0, 1) := IndexPair3(3, 2, INVALID_INDEX)], 4, 3);
    var e2 := AddEdgeVertex(e1.0, 1, 2, 0, 4);
    assert e2 == (e1.0[IndexPair2(1, 2) := IndexPair3(4, 0, INVALID_INDEX)], 5, 4);
    var e3 := AddEdgeVertex(e2.0, 2, 0, 1, 5);
    assert e3 == (e2.0[IndexPair2(0, 2) := IndexPair3(5, 1, INVALID_INDEX)], 6, 5);
    assert e3.0 == LoneTriangleMap;
  }

  /** As written, corner 0 of a lone triangle sees one neighbour and one boundary
      edge, so the boundary rule is skipped and the beta rule with n = 1 drags the
      corner towards corner 1 alone: with corners at (0,0,0), (1,0,0) and (0,1,0)
      it stays on the x axis, whatever cos returns. */
  lemma AsWrittenLoneTriangle(cos: real -> real)
    ensures var d := Corners();
      var t := SplitFaces(d.faceElements, 3).edgeVertices;
      && Resolves(d, 0)
      && OutgoingRing(d, t, 0, d.vertexElements[0].outgoingHalfEdgeIds).boundaryCount == 1
      && AsWrittenEvenPosition(d, t, 0, cos).Vec3? && AsWrittenEvenPosition(d, t, 0, cos).y == 0.0
  {
    var d := Corners();
    var t := SplitFaces(d.faceElements, 3).edgeVertices;
    LoneTriangleEdges();
    assert [0][..0] == [];
    assert OutgoingRing(d, t, 0, []) == Ring(0, Zero, 0, Zero);
    assert OutgoingRing(d, t, 0, [0]) == Ring(1, Vec3(1.0, 0.0, 0.0), 1, Vec3(1.0, 0.0, 0.0));
  }

  /** The corrected rule sees both boundary edges at corner 0 and moves it to
      (1/8, 1/8, 0), off the x axis. */
  lemma CorrectedLoneTriangle(cos: real -> real)
    ensures var d := Corners();
      var t := SplitFaces(d.faceElements, 3).edgeVertices;
      Resolves(d, 0) && EvenPosition(d, t, 0, cos) == Vec3(0.125, 0.125, 0.0)
  {
    LoneTriangleEdges();
    CornerZeroMoves(SplitFaces(Corners().faceElements, 3).edgeVertices, cos);
  }

  /** The corrected rule moves the other two corners the same way: each keeps 3/4 of
      itself and takes 1/8 of each of its two boundary neighbours. */
  lemma CorrectedLoneTriangleCorners(cos: real -> real)
    ensures var d := Corners();
      var t := SplitFaces(d.faceElements, 3).edgeVertices;
      && Resolves(d, 1) && EvenPosition(d, t, 1, cos) == Vec3(0.75, 0.125, 0.0)
      && Resolves(d, 2) && EvenPosition(d, t, 2, cos) == Vec3(0.125, 0.75, 0.0)
  {
    var t := SplitFaces(Corners().faceElements, 3).edgeVertices;
    LoneTriangleSplit();
    assert IsBoundary(t, 1, 2) && IsBoundary(t, 1, 0) && IsBoundary(t, 2, 0) && IsBoundary(t, 2, 1);
    CornerOneMoves(t, cos);
    CornerTwoMoves(t, cos);
  }

  lemma CornerZeroMoves(t: EdgeVertices, cos: real -> real)
    requires IsBoundary(t, 0, 1) && IsBoundary(t, 0, 2)
    ensures Resolves(Corners(), 0) && EvenPosition(Corners(), t, 0, cos) == Vec3(0.125, 0.125, 0.0)
  {
    var d := Corners();
    LoneTriangleWellFormed(Vec3(0.0, 0.0, 0.0), Vec3(1.0, 0.0, 0.0), Vec3(0.0, 1.0, 0.0));
    WellFormedResolves(d, 0);
    BoundaryCorner(d, t, 0, cos, Vec3(0.0, 0.0, 0.0), Vec3(1.0, 0.0, 0.0), Vec3(0.0, 1.0, 0.0));
  }

  lemma CornerOneMoves(t: EdgeVertices, cos: real -> real)
    requires IsBoundary(t, 1, 2) && IsBoundary(t, 1, 0)
    ensures Resolves(Corners(), 1) && EvenPosition(Corners(), t, 1, cos) == Vec3(0.75, 0.125, 0.0)
  {
    var d := Corners();
    LoneTriangleWellFormed(Vec3(0.0, 0.0, 0.0), Vec3(1.0, 0.0, 0.0), Vec3(0.0, 1.0, 0.0));
    WellFormedResolves(d, 1);
    BoundaryCorner(d, t, 1, cos, Vec3(1.0, 0.0, 0.0), Vec3(0.0, 1.0, 0.0), Vec3(0.0, 0.0, 0.0));
  }

  lemma CornerTwoMoves(t: EdgeVertices, cos: real -> real)
    requires IsBoundary(t, 2, 0) && IsBoundary(t, 2, 1)
    ensures Resolves(Corners(), 2) && EvenPosition(Corners(), t, 2, cos) == Vec3(0.125, 0.75, 0.0)
  {
    var d := Corners();
    LoneTriangleWellFormed(Vec3(0.0, 0.0, 0.0), Vec3(1.0, 0.0, 0.0), Vec3(0.0, 1.0, 0.0));
    WellFormedResolves(d, 2);
    BoundaryCorner(d, t, 2, cos, Vec3(0.0, 1.0, 0.0), Vec3(0.0, 0.0, 0.0), Vec3(1.0, 0.0, 0.0));
  }

  /** A vertex with one outgoing and one incoming half-edge, both on boundary edges,
      takes 3/4 of its own position and 1/8 of each neighbour under the corrected
      rule. */
  lemma BoundaryCorner(d: MeshData, t: EdgeVertices, v: nat, cos: real -> real, p: Vec3, a: Vec3, b: Vec3)
    requires Resolves(d, v)
    requires |d.vertexElements[v].outgoingHalfEdgeIds| == 1 && |d.vertexElements[v].incomingHalfEdgeIds| == 1
    requires var w := d.halfEdges[d.vertexElements[v].outgoingHalfEdgeIds[0]].toVertexId;
      IsBoundary(t, v, w) && d.vertices[w].position == a
    requires var u := d.halfEdges[d.vertexElements[v].incomingHalfEdgeIds[0]].fromVertexId;
      IsBoundary(t, v, u) && d.vertices[u].position == b
    requires d.vertices[v].position == p && p.Vec3? && a.Vec3? && b.Vec3?
    ensures EvenPosition(d, t, v, cos)
         == Vec3(0.75 * p.x + 0.125 * (a.x + b.x), 0.75 * p.y + 0.125 * (a.y + b.y), 0.75 * p.z + 0.125 * (a.z + b.z))
  {
    var outs := d.vertexElements[v].outgoingHalfEdgeIds;
    var ins := d.vertexElements[v].incomingHalfEdgeIds;
    assert outs[..|outs| - 1] == [] && ins[..|ins| - 1] == [];
    assert OutgoingRing(d, t, v, []) == Ring(0, Zero, 0, Zero);
    var out := OutgoingRing(d, t, v, outs);
    assert out == Ring(1, Plus(Zero, a), 1, Plus(Zero, a));
    assert IncomingBoundary(d, t, v, [], out) == out;
    var ring := IncomingBoundary(d, t, v, ins, out);
    assert ring == Ring(1, Plus(Zero, a), 2, Plus(Plus(Zero, a), b));
  }
}
