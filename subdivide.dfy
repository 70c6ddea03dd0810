// LoopSubdivideNative of hwA/A.4/src/main.cpp: a fresh Mesh is filled phase by
// phase (copy the vertices, split the faces while allocating odd vertices, place
// the odd vertices, move the even vertices, add the new faces), and the whole run
// is proved to leave the mesh SubdivideSpec describes.
module Subdivide {
  import opened Common
  import opened Geometry
  import opened MeshCore
  import opened MeshWellFormed
  import opened MeshFacts
  import opened Normals
  import opened MeshStore
  import opened LoopSubdivision

  // ---------------------------------------------------------------------------
  // The specification

  /** The store after addVertex(p) for each p of `ps`, in order, on an empty mesh. */
  function Seeded(ps: seq<Vec3>): (r: MeshData)
    ensures |r.vertices| == |r.vertexElements| == |ps|
    ensures Indexable(r) && r.halfEdges == [] && r.faceElements == []
  {
    MeshData(seq(|ps|, i requires 0 <= i < |ps| => Vertex(ps[i], Zero)),
             seq(|ps|, i requires 0 <= i < |ps| => VertexElement(i, [], [])), [], [], [], [], [], [])
  }

  /** One more addVertex extends the seeded store by one position. */
  lemma SeededGrows(ps: seq<Vec3>, p: Vec3)
    ensures AddVertexSpec(Seeded(ps), p).0 == Seeded(ps + [p])
  {
    var a := AddVertexSpec(Seeded(ps), p).0;
    var b := Seeded(ps + [p]);
    assert a.vertices == b.vertices;
    assert a.vertexElements == b.vertexElements;
  }

  lemma {:induction false} SeededWellFormed(ps: seq<Vec3>)
    requires |ps| < INVALID_INDEX
    ensures WellFormed(Seeded(ps))
    decreases |ps|
  {
    if ps == [] {
      EmptyMeshWellFormed();
      assert Seeded(ps) == EmptyMesh;
    } else {
      var init := ps[..|ps| - 1];
      SeededWellFormed(init);
      AddVertexPreservesWellFormed(Seeded(init), ps[|ps| - 1]);
      SeededGrows(init, ps[|ps| - 1]);
      assert init + [ps[|ps| - 1]] == ps;
    }
  }

  /** Every entry of the map names original vertices only. */
  ghost predicate CornersBelow(t: EdgeVertices, base: nat)
  {
    forall k :: k in t ==>
      && k.v1 < base && k.v2 < base && t[k].vOpp1 < base
      && (t[k].vOpp2 == INVALID_INDEX || t[k].vOpp2 < base)
  }

  lemma TableCorners(t: EdgeVertices, base: nat, n: nat)
    requires TableOk(t, base, n)
    ensures CornersBelow(t, base)
  {
    forall k | k in t ensures k.v1 < base && k.v2 < base && t[k].vOpp1 < base
      && (t[k].vOpp2 == INVALID_INDEX || t[k].vOpp2 < base)
    {
      assert EntryOk(k, t[k], base, n);
    }
  }

  /** The position the odd loop has given vertex `i` once the keys in `done` are
      processed: that of the key whose odd vertex `i` is, or still zero. */
  ghost function OddAt(d: MeshData, t: EdgeVertices, done: set<IndexPair2>, i: nat): Vec3
    requires CornersBelow(t, |d.vertices|) && done <= t.Keys
  {
    if exists k :: k in done && t[k].vN == i then
      var k :| k in done && t[k].vN == i;
      OddPosition(d, k, t[k])
    else Zero
  }

  /** The positions after the vertex copy and `n - |d.vertices|` allocations of odd
      vertices: the original positions, then zeros. */
  function Copied(d: MeshData, n: nat): (r: seq<Vec3>)
    ensures |r| == n
  {
    seq(n, i requires 0 <= i < n => if i < |d.vertices| then d.vertices[i].position else Zero)
  }

  lemma CopiedGrows(d: MeshData, n: nat)
    ensures Copied(d, n + 1) == Copied(d, n) + [if n < |d.vertices| then d.vertices[n].position else Zero]
  {
  }

  /** The positions once the odd loop has processed the keys in `done`. */
  ghost function Placed(d: MeshData, t: EdgeVertices, done: set<IndexPair2>, n: nat): (r: seq<Vec3>)
    requires CornersBelow(t, |d.vertices|) && done <= t.Keys
    ensures |r| == n
    ensures forall i :: 0 <= i < n && i < |d.vertices| ==> r[i] == d.vertices[i].position
    ensures OddIdsDistinct(t) ==>
      forall k :: k in done && |d.vertices| <= t[k].vN < n ==> r[t[k].vN] == OddPosition(d, k, t[k])
  {
    OddAtKeys(d, t, done);
    seq(n, i requires 0 <= i < n => if i < |d.vertices| then d.vertices[i].position else OddAt(d, t, done, i))
  }

  /** With distinct odd ids, each processed key's odd id holds that key's odd position. */
  lemma OddAtKeys(d: MeshData, t: EdgeVertices, done: set<IndexPair2>)
    requires CornersBelow(t, |d.vertices|) && done <= t.Keys
    ensures OddIdsDistinct(t) ==>
      forall k :: k in done ==> OddAt(d, t, done, t[k].vN) == OddPosition(d, k, t[k])
  {
    if OddIdsDistinct(t) {
      forall k | k in done ensures OddAt(d, t, done, t[k].vN) == OddPosition(d, k, t[k]) {
        var k' :| k' in done && t[k'].vN == t[k].vN;
        assert k' == k;
      }
    }
  }

  /** The positions once the even loop has moved the first `evens` vertices. */
  ghost function Moved(d: MeshData, t: EdgeVertices, cos: real -> real, evens: nat, ps: seq<Vec3>): (r: seq<Vec3>)
    requires evens <= |d.vertices| && evens <= |ps| && forall v :: 0 <= v < evens ==> Resolves(d, v)
    ensures |r| == |ps|
    ensures forall i :: evens <= i < |ps| ==> r[i] == ps[i]
  {
    seq(|ps|, i requires 0 <= i < |ps| => if i < evens then EvenPosition(d, t, i, cos) else ps[i])
  }

  /** The last loop: addFace on each consecutive triple of `flat`, the first `count`
      of them; the store gains one face per triple, in order, and keeps its vertices. */
  function AddTriangles(m: MeshData, flat: seq<nat>, count: nat): (r: MeshData)
    requires Indexable(m) && 3 * count <= |flat| && IdsBelow(flat, |m.vertexElements|)
    ensures Indexable(r) && r.vertices == m.vertices && |r.vertexElements| == |m.vertexElements|
    ensures |r.halfEdges| == |m.halfEdges| + 3 * count && |r.faceElements| == |m.faceElements| + count
    decreases count
  {
    if count == 0 then m
    else
      var prev := AddTriangles(m, flat, count - 1);
      var k := 3 * (count - 1);
      SliceBelow(flat, k, k + 3, |m.vertexElements|);
      AddFaceSpec(prev, flat[k .. k + 3]).0
  }

  lemma SliceBelow(ids: seq<nat>, lo: nat, hi: nat, bound: nat)
    requires lo <= hi <= |ids| && IdsBelow(ids, bound)
    ensures IdsBelow(ids[lo .. hi], bound)
  {
    forall k | 0 <= k < hi - lo ensures ids[lo .. hi][k] < bound {
      assert ids[lo .. hi][k] == ids[lo + k];
    }
  }

  /** `faces` is `old0` followed by one face per triple of `flat`, the first `count` of them. */
  predicate TrianglesListed(old0: seq<FaceElement>, faces: seq<FaceElement>, flat: seq<nat>, count: nat)
  {
    && 3 * count <= |flat|
    && |faces| == |old0| + count && faces[..|old0|] == old0
    && forall g :: 0 <= g < count ==> faces[|old0| + g].vertexIds == flat[3 * g .. 3 * g + 3]
  }

  lemma FacesExtend(old0: seq<FaceElement>, prev: seq<FaceElement>, next: seq<FaceElement>, start: nat,
                    flat: seq<nat>, count: nat)
    requires count > 0 && 3 * count <= |flat| && TrianglesListed(old0, prev, flat, count - 1)
    requires next == prev + [FaceElement(start, flat[3 * (count - 1) .. 3 * count])]
    ensures TrianglesListed(old0, next, flat, count)
  {
    forall g | 0 <= g < count ensures next[|old0| + g].vertexIds == flat[3 * g .. 3 * g + 3] {
      if g < count - 1 {
        assert next[|old0| + g] == prev[|old0| + g];
      }
    }
    assert next[..|old0|] == prev[..|old0|];
  }

  /** What LoopSubdivideNative accepts: a well-formed mesh whose new vertex ids stay
      below 2^31, so that they survive being returned through an `int`. */
  ghost predicate Subdividable(d: MeshData)
  {
    WellFormed(d) && |d.vertices| + 3 * |d.faceElements| < 0x8000_0000
  }

  lemma SubdividableFacts(d: MeshData)
    requires Subdividable(d)
    ensures FacesBelow(d.faceElements, |d.vertices|)
    ensures var s := SplitFaces(d.faceElements, |d.vertices|);
      && TableOk(s.edgeVertices, |d.vertices|, s.newIndex)
      && CornersBelow(s.edgeVertices, |d.vertices|)
      && IdsBelow(s.newFaces, s.newIndex)
      && |s.newFaces| == 12 * TriangleCount(d.faceElements)
      && s.newIndex <= |d.vertices| + 3 * |d.faceElements|
    ensures TriangleCount(d.faceElements) <= |d.faceElements|
    ensures forall v :: 0 <= v < |d.vertices| ==> Resolves(d, v)
  {
    forall f | 0 <= f < |d.faceElements| ensures IdsBelow(d.faceElements[f].vertexIds, |d.vertices|) {
      FaceIdsInRange(d, f);
    }
    SplitFacesShape(d.faceElements, |d.vertices|);
    TriangleCountBound(d.faceElements);
    var s := SplitFaces(d.faceElements, |d.vertices|);
    TableCorners(s.edgeVertices, |d.vertices|, s.newIndex);
    forall v | 0 <= v < |d.vertices| ensures Resolves(d, v) {
      WellFormedResolves(d, v);
    }
  }

  /** The mesh LoopSubdivideNative returns: the copied and allocated vertices, every
      odd vertex placed and every even vertex moved, then the emitted triangles added
      in order. */
  ghost function SubdivideSpec(d: MeshData, cos: real -> real): (r: MeshData)
    requires Subdividable(d)
    ensures |r.vertices| == |r.vertexElements| == SplitFaces(d.faceElements, |d.vertices|).newIndex
  {
    SubdividableFacts(d);
    var s := SplitFaces(d.faceElements, |d.vertices|);
    var ps := Moved(d, s.edgeVertices, cos, |d.vertices|, Placed(d, s.edgeVertices, s.edgeVertices.Keys, s.newIndex));
    AddTriangles(Seeded(ps), s.newFaces, |s.newFaces| / 3)
  }

  // ---------------------------------------------------------------------------
  // What the subdivided mesh is

  /** Triple f is added on top of the ones before it. */
  lemma AddTrianglesNext(m: MeshData, flat: seq<nat>, f: nat)
    requires Indexable(m) && 3 * (f + 1) <= |flat| && IdsBelow(flat, |m.vertexElements|)
    ensures IdsBelow(flat[3 * f .. 3 * f + 3], |AddTriangles(m, flat, f).vertexElements|)
    ensures AddTriangles(m, flat, f + 1) == AddFaceSpec(AddTriangles(m, flat, f), flat[3 * f .. 3 * f + 3]).0
  {
    SliceBelow(flat, 3 * f, 3 * f + 3, |m.vertexElements|);
  }

  /** The faces after one more triple. */
  lemma AddTrianglesFaceStep(m: MeshData, flat: seq<nat>, count: nat)
    requires Indexable(m) && 3 * count <= |flat| && IdsBelow(flat, |m.vertexElements|) && count > 0
    ensures var prev := AddTriangles(m, flat, count - 1);
      AddTriangles(m, flat, count).faceElements
        == prev.faceElements + [FaceElement(|prev.halfEdges|, flat[3 * (count - 1) .. 3 * count])]
  {
    AddTrianglesNext(m, flat, count - 1);
  }

  /** addFace appends one face per triple, in order, and keeps the faces it had. */
  lemma AddTrianglesFaces(m: MeshData, flat: seq<nat>, count: nat)
    requires Indexable(m) && 3 * count <= |flat| && IdsBelow(flat, |m.vertexElements|)
    ensures TrianglesListed(m.faceElements, AddTriangles(m, flat, count).faceElements, flat, count)
  {
    var c := 0;
    while c < count
      invariant c <= count && TrianglesListed(m.faceElements, AddTriangles(m, flat, c).faceElements, flat, c)
    {
      AddTrianglesFaceStep(m, flat, c + 1);
      FacesExtend(m.faceElements, AddTriangles(m, flat, c).faceElements, AddTriangles(m, flat, c + 1).faceElements,
                  |AddTriangles(m, flat, c).halfEdges|, flat, c + 1);
      c := c + 1;
    }
  }

  /** Adding the triangles of a well-formed store keeps it well formed. */
  lemma AddTrianglesWellFormed(m: MeshData, flat: seq<nat>, count: nat)
    requires WellFormed(m) && Indexable(m) && 3 * count <= |flat| && IdsBelow(flat, |m.vertexElements|)
    requires |m.halfEdges| + 3 * count < INVALID_INDEX && |m.faceElements| + count < INVALID_INDEX
    ensures WellFormed(AddTriangles(m, flat, count))
  {
    var c := 0;
    while c < count
      invariant c <= count && WellFormed(AddTriangles(m, flat, c))
    {
      TrianglesWellFormedStep(m, flat, count, c);
      c := c + 1;
    }
  }

  lemma TrianglesWellFormedStep(m: MeshData, flat: seq<nat>, count: nat, c: nat)
    requires Indexable(m) && 3 * count <= |flat| && IdsBelow(flat, |m.vertexElements|) && c < count
    requires |m.halfEdges| + 3 * count < INVALID_INDEX && |m.faceElements| + count < INVALID_INDEX
    requires WellFormed(AddTriangles(m, flat, c))
    ensures WellFormed(AddTriangles(m, flat, c + 1))
  {
    AddTrianglesNext(m, flat, c);
    WellFormedStep(AddTriangles(m, flat, c), flat[3 * c .. 3 * c + 3], AddTriangles(m, flat, c + 1));
  }

  /** One addFace call keeps a store well formed (AddFacePreservesWellFormed, with
      the new store named). */
  lemma WellFormedStep(prev: MeshData, ids: seq<nat>, next: MeshData)
    requires WellFormed(prev) && 3 <= |ids| && IdsBelow(ids, |prev.vertexElements|)
    requires |prev.halfEdges| + |ids| < INVALID_INDEX && |prev.faceElements| + 1 < INVALID_INDEX
    requires Indexable(prev) && next == AddFaceSpec(prev, ids).0
    ensures WellFormed(next)
  {
    AddFacePreservesWellFormed(prev, ids);
  }

  /** The subdivided mesh's vertices are the moved positions, with zero normals. */
  lemma SubdividedPositions(d: MeshData, cos: real -> real)
    requires Subdividable(d)
    ensures var s := SplitFaces(d.faceElements, |d.vertices|);
      var t := s.edgeVertices;
      && CornersBelow(t, |d.vertices|) && TableOk(t, |d.vertices|, s.newIndex)
      && (forall v :: 0 <= v < |d.vertices| ==> Resolves(d, v))
      && SubdivideSpec(d, cos).vertices
         == Seeded(Moved(d, t, cos, |d.vertices|, Placed(d, t, t.Keys, s.newIndex))).vertices
  {
    SubdividableFacts(d);
  }

  /** Every original vertex keeps its id and moves to its even-rule position. */
  lemma SubdivideEvenVertices(d: MeshData, cos: real -> real)
    requires Subdividable(d)
    ensures var s := SplitFaces(d.faceElements, |d.vertices|);
      var t := s.edgeVertices;
      var r := SubdivideSpec(d, cos);
      && |r.vertices| == s.newIndex == |d.vertices| + |t|
      && (forall v :: 0 <= v < |d.vertices| ==>
            Resolves(d, v) && r.vertices[v] == Vertex(EvenPosition(d, t, v, cos), Zero))
  {
    SubdividableFacts(d);
    SubdividedPositions(d, cos);
  }

  /** Every distinct edge of a triangle gets a new vertex at its odd-rule position. */
  lemma SubdivideOddVertices(d: MeshData, cos: real -> real)
    requires Subdividable(d)
    ensures var s := SplitFaces(d.faceElements, |d.vertices|);
      var t := s.edgeVertices;
      var r := SubdivideSpec(d, cos);
      forall k :: k in t ==>
        EntryOk(k, t[k], |d.vertices|, s.newIndex) && t[k].vN < |r.vertices|
        && r.vertices[t[k].vN] == Vertex(OddPosition(d, k, t[k]), Zero)
  {
    var s := SplitFaces(d.faceElements, |d.vertices|);
    var t := s.edgeVertices;
    SubdividedPositions(d, cos);
    forall k | k in t
      ensures EntryOk(k, t[k], |d.vertices|, s.newIndex) && t[k].vN < |SubdivideSpec(d, cos).vertices|
        && SubdivideSpec(d, cos).vertices[t[k].vN] == Vertex(OddPosition(d, k, t[k]), Zero)
    {
      OddPlacedAt(d, t, cos, s.newIndex, k);
    }
  }

  /** The subdivided mesh has one vertex per original vertex, at its even-rule
      position, and one per distinct edge of a triangle, at its odd-rule position;
      there is no other vertex. */
  lemma SubdivideVertices(d: MeshData, cos: real -> real)
    requires Subdividable(d)
    ensures var s := SplitFaces(d.faceElements, |d.vertices|);
      var t := s.edgeVertices;
      var r := SubdivideSpec(d, cos);
      && |r.vertices| == s.newIndex == |d.vertices| + |t|
      && (forall v :: 0 <= v < |d.vertices| ==>
            Resolves(d, v) && r.vertices[v] == Vertex(EvenPosition(d, t, v, cos), Zero))
      && (forall k :: k in t ==>
            EntryOk(k, t[k], |d.vertices|, s.newIndex) && r.vertices[t[k].vN] == Vertex(OddPosition(d, k, t[k]), Zero))
      && (forall i :: |d.vertices| <= i < |r.vertices| ==> i in OddIds(t))
  {
    var s := SplitFaces(d.faceElements, |d.vertices|);
    SubdivideEvenVertices(d, cos);
    SubdivideOddVertices(d, cos);
    SubdividedPositions(d, cos);
    OddIdsCover(s.edgeVertices, |d.vertices|, s.newIndex);
  }

  /** The odd vertex of key `k` sits at its id once both vertex loops are done. */
  lemma OddPlacedAt(d: MeshData, t: EdgeVertices, cos: real -> real, n: nat, k: IndexPair2)
    requires CornersBelow(t, |d.vertices|) && TableOk(t, |d.vertices|, n) && k in t
    requires forall v :: 0 <= v < |d.vertices| ==> Resolves(d, v)
    ensures EntryOk(k, t[k], |d.vertices|, n)
    ensures var ps := Moved(d, t, cos, |d.vertices|, Placed(d, t, t.Keys, n));
      t[k].vN < |ps| && ps[t[k].vN] == OddPosition(d, k, t[k])
  {
    assert EntryOk(k, t[k], |d.vertices|, n);
    var i := t[k].vN;
    var k' :| k' in t.Keys && t[k'].vN == i;
    assert OddIdsDistinct(t);
    assert k' == k;
  }

  /** The new faces are the emitted ids taken three at a time: four per triangle. */
  lemma SubdivideFaces(d: MeshData, cos: real -> real)
    requires Subdividable(d)
    ensures var s := SplitFaces(d.faceElements, |d.vertices|);
      var r := SubdivideSpec(d, cos);
      && |s.newFaces| == 12 * TriangleCount(d.faceElements)
      && |r.faceElements| == 4 * TriangleCount(d.faceElements)
      && forall g :: 0 <= g < |r.faceElements| ==> r.faceElements[g].vertexIds == s.newFaces[3 * g .. 3 * g + 3]
  {
    SubdividableFacts(d);
    var s := SplitFaces(d.faceElements, |d.vertices|);
    var t := s.edgeVertices;
    var ps := Moved(d, t, cos, |d.vertices|, Placed(d, t, t.Keys, s.newIndex));
    AddTrianglesFaces(Seeded(ps), s.newFaces, |s.newFaces| / 3);
  }

  /** The subdivided mesh is a well-formed half-edge store. */
  lemma SubdivideWellFormed(d: MeshData, cos: real -> real)
    requires Subdividable(d)
    ensures WellFormed(SubdivideSpec(d, cos))
  {
    SubdividableFacts(d);
    var s := SplitFaces(d.faceElements, |d.vertices|);
    var t := s.edgeVertices;
    var ps := Moved(d, t, cos, |d.vertices|, Placed(d, t, t.Keys, s.newIndex));
    SeededWellFormed(ps);
    WellFormedIndexable(Seeded(ps));
    AddTrianglesWellFormed(Seeded(ps), s.newFaces, |s.newFaces| / 3);
  }

  // ---------------------------------------------------------------------------
  // Every new vertex is an odd vertex

  /** The odd vertex ids the map hands out. */
  ghost function OddIds(t: EdgeVertices): set<nat>
  {
    set k | k in t :: t[k].vN
  }

  /** Distinct keys have distinct odd ids, so there are as many ids as keys. */
  lemma {:induction false} OddIdsCount(t: EdgeVertices)
    requires OddIdsDistinct(t)
    ensures |OddIds(t)| == |t|
    decreases |t|
  {
    if |t| == 0 {
      assert t.Keys == {};
      assert OddIds(t) == {};
    } else {
      var k0 :| k0 in t;
      var rest := t - {k0};
      assert rest.Keys == t.Keys - {k0};
      assert |rest| == |t| - 1;
      OddIdsCount(rest);
      forall x | x in OddIds(t) ensures x in OddIds(rest) + {t[k0].vN} {
        var k :| k in t && t[k].vN == x;
        if k != k0 {
          assert k in rest;
        }
      }
      forall x | x in OddIds(rest) ensures x in OddIds(t) && x != t[k0].vN {
        var k :| k in rest && rest[k].vN == x;
        assert k in t && k != k0;
      }
      assert OddIds(t) == OddIds(rest) + {t[k0].vN};
    }
  }

  /** A set of ids inside [base, n) has at most n - base members... */
  lemma {:induction false} IdsInRangeBound(ids: set<nat>, base: nat, n: nat)
    requires base <= n && forall x :: x in ids ==> base <= x < n
    ensures |ids| <= n - base
    decreases n - base
  {
    if base < n {
      IdsInRangeBound(ids - {n - 1}, base, n - 1);
    } else {
      assert ids == {};
    }
  }

  /** ... and exactly n - base only when it holds all of them. */
  lemma {:induction false} IdsInRangeFull(ids: set<nat>, base: nat, n: nat)
    requires base <= n && forall x :: x in ids ==> base <= x < n
    requires |ids| == n - base
    ensures forall i :: base <= i < n ==> i in ids
    decreases n - base
  {
    if base < n {
      if n - 1 !in ids {
        IdsInRangeBound(ids, base, n - 1);
        assert false;
      }
      assert |ids - {n - 1}| == |ids| - 1;
      IdsInRangeFull(ids - {n - 1}, base, n - 1);
      forall i | base <= i < n ensures i in ids {
        if i < n - 1 {
          assert i in ids - {n - 1};
        }
      }
    }
  }

  /** Odd ids are handed out without gaps: every id from `base` to `n` is the odd
      vertex of some edge. */
  lemma OddIdsCover(t: EdgeVertices, base: nat, n: nat)
    requires TableOk(t, base, n)
    ensures forall i :: base <= i < n ==> i in OddIds(t)
  {
    OddIdsCount(t);
    forall x | x in OddIds(t) ensures base <= x < n {
      var k :| k in t && t[k].vN == x;
      assert EntryOk(k, t[k], base, n);
    }
    IdsInRangeFull(OddIds(t), base, n);
  }

  // ---------------------------------------------------------------------------
  // The subdivision as written

  /** The positions once the even loop as written, which counts boundary edges among
      the outgoing half-edges only, has moved the first `evens` vertices. */
  ghost function AsWrittenMoved(d: MeshData, t: EdgeVertices, cos: real -> real, evens: nat, ps: seq<Vec3>): (r: seq<Vec3>)
    requires evens <= |d.vertices| && evens <= |ps| && forall v :: 0 <= v < evens ==> Resolves(d, v)
    ensures |r| == |ps|
    ensures forall i :: evens <= i < |ps| ==> r[i] == ps[i]
  {
    seq(|ps|, i requires 0 <= i < |ps| => if i < evens then AsWrittenEvenPosition(d, t, i, cos) else ps[i])
  }

  /** The mesh the source's LoopSubdivideNative returns: SubdivideSpec, but with the
      even loop as written. */
  ghost function AsWrittenSubdivideSpec(d: MeshData, cos: real -> real): (r: MeshData)
    requires Subdividable(d)
    ensures |r.vertices| == |r.vertexElements| == SplitFaces(d.faceElements, |d.vertices|).newIndex
  {
    SubdividableFacts(d);
    var s := SplitFaces(d.faceElements, |d.vertices|);
    var ps := AsWrittenMoved(d, s.edgeVertices, cos, |d.vertices|, Placed(d, s.edgeVertices, s.edgeVertices.Keys, s.newIndex));
    AddTriangles(Seeded(ps), s.newFaces, |s.newFaces| / 3)
  }

  /** Two stores that differ at most in their vertex records. */
  ghost predicate SameButVertices(a: MeshData, b: MeshData)
  {
    && a.vertexElements == b.vertexElements && a.edges == b.edges && a.edgeElements == b.edgeElements
    && a.faces == b.faces && a.faceElements == b.faceElements && a.halfEdges == b.halfEdges
    && a.indices == b.indices
  }

  lemma SameIndexable(a: MeshData, b: MeshData)
    requires SameButVertices(a, b) && Indexable(a)
    ensures Indexable(b)
  {
  }

  /** addFace never reads the vertex records: one iteration of its loop on two
      stores that differ only there leaves two stores that differ only there. */
  lemma AddHalfEdgeIgnoresVertices(a: MeshData, b: MeshData, vertexIds: seq<nat>, start: nat, faceId: nat, i: nat,
                                   na: MeshData, nb: MeshData)
    requires SameButVertices(a, b) && Indexable(a) && Indexable(b)
    requires 3 <= |vertexIds| && i < |vertexIds| && IdsBelow(vertexIds, |a.vertexElements|)
    requires |a.halfEdges| == start + i
    requires na == AddHalfEdge(a, vertexIds, start, faceId, i) && nb == AddHalfEdge(b, vertexIds, start, faceId, i)
    ensures SameButVertices(na, nb)
  {
  }

  lemma {:induction false} AddHalfEdgesIgnoresVertices(a: MeshData, b: MeshData, vertexIds: seq<nat>, faceId: nat, k: nat)
    requires SameButVertices(a, b) && Indexable(a) && Indexable(b)
    requires 3 <= |vertexIds| && k <= |vertexIds| && IdsBelow(vertexIds, |a.vertexElements|)
    ensures SameButVertices(AddHalfEdges(a, vertexIds, faceId, k), AddHalfEdges(b, vertexIds, faceId, k))
    decreases k
  {
    if k > 0 {
      var c := k - 1;
      AddHalfEdgesIgnoresVertices(a, b, vertexIds, faceId, c);
      HalfEdgesStepIgnores(a, b, vertexIds, faceId, c);
      assert c + 1 == k;
    } else {
      assert AddHalfEdges(a, vertexIds, faceId, 0) == a;
      assert AddHalfEdges(b, vertexIds, faceId, 0) == b;
    }
  }

  lemma HalfEdgesStepIgnores(a: MeshData, b: MeshData, vertexIds: seq<nat>, faceId: nat, c: nat)
    requires SameButVertices(a, b) && Indexable(a) && Indexable(b)
    requires 3 <= |vertexIds| && c < |vertexIds| && IdsBelow(vertexIds, |a.vertexElements|)
    requires SameButVertices(AddHalfEdges(a, vertexIds, faceId, c), AddHalfEdges(b, vertexIds, faceId, c))
    ensures SameButVertices(AddHalfEdges(a, vertexIds, faceId, c + 1), AddHalfEdges(b, vertexIds, faceId, c + 1))
  {
    var pa := AddHalfEdges(a, vertexIds, faceId, c);
    var pb := AddHalfEdges(b, vertexIds, faceId, c);
    AddHalfEdgesLast(a, vertexIds, faceId, c + 1);
    AddHalfEdgesLast(b, vertexIds, faceId, c + 1);
    AddHalfEdgeIgnoresVertices(pa, pb, vertexIds, |a.halfEdges|, faceId, c,
                               AddHalfEdges(a, vertexIds, faceId, c + 1), AddHalfEdges(b, vertexIds, faceId, c + 1));
  }

  lemma AddHalfEdgesLast(d: MeshData, vertexIds: seq<nat>, faceId: nat, k: nat)
    requires Indexable(d) && 3 <= |vertexIds| && 0 < k <= |vertexIds| && IdsBelow(vertexIds, |d.vertexElements|)
    ensures AddHalfEdges(d, vertexIds, faceId, k)
         == AddHalfEdge(AddHalfEdges(d, vertexIds, faceId, k - 1), vertexIds, |d.halfEdges|, faceId, k - 1)
  {
  }

  /** Nor does a whole addFace call. */
  lemma AddFaceIgnoresVertices(a: MeshData, b: MeshData, vertexIds: seq<nat>)
    requires SameButVertices(a, b) && Indexable(a) && Indexable(b)
    requires 3 <= |vertexIds| && IdsBelow(vertexIds, |a.vertexElements|)
    ensures SameButVertices(AddFaceSpec(a, vertexIds).0, AddFaceSpec(b, vertexIds).0)
  {
    AddHalfEdgesIgnoresVertices(a, b, vertexIds, |a.faceElements|, |vertexIds|);
  }

  /** Nor does adding the triangles. */
  lemma AddTrianglesIgnoresVertices(a: MeshData, b: MeshData, flat: seq<nat>, count: nat)
    requires SameButVertices(a, b) && Indexable(a) && Indexable(b)
    requires 3 * count <= |flat| && IdsBelow(flat, |a.vertexElements|)
    ensures SameButVertices(AddTriangles(a, flat, count), AddTriangles(b, flat, count))
  {
    assert AddTriangles(a, flat, 0) == a;
    assert AddTriangles(b, flat, 0) == b;
    var c := 0;
    while c < count
      invariant c <= count && SameButVertices(AddTriangles(a, flat, c), AddTriangles(b, flat, c))
    {
      AddTrianglesNext(a, flat, c);
      AddTrianglesNext(b, flat, c);
      FaceStepIgnores(AddTriangles(a, flat, c), AddTriangles(b, flat, c), flat[3 * c .. 3 * c + 3],
                      AddTriangles(a, flat, c + 1), AddTriangles(b, flat, c + 1));
      c := c + 1;
    }
  }

  /** AddFaceIgnoresVertices, with the two new stores named. */
  lemma FaceStepIgnores(pa: MeshData, pb: MeshData, ids: seq<nat>, na: MeshData, nb: MeshData)
    requires SameButVertices(pa, pb) && Indexable(pa) && Indexable(pb)
    requires 3 <= |ids| && IdsBelow(ids, |pa.vertexElements|)
    requires na == AddFaceSpec(pa, ids).0 && nb == AddFaceSpec(pb, ids).0
    ensures SameButVertices(na, nb)
  {
    AddFaceIgnoresVertices(pa, pb, ids);
  }

  /** As written, the subdivided mesh is SubdivideSpec's except that every original
      vertex sits at its as-written even position: same vertex count, same faces and
      half-edges, same odd vertices. */
  lemma AsWrittenSubdivideVertices(d: MeshData, cos: real -> real)
    requires Subdividable(d)
    ensures var t := SplitFaces(d.faceElements, |d.vertices|).edgeVertices;
      var r := SubdivideSpec(d, cos);
      var w := AsWrittenSubdivideSpec(d, cos);
      && w == r.(vertices := w.vertices)
      && |w.vertices| == |r.vertices|
      && (forall v :: 0 <= v < |d.vertices| ==>
            Resolves(d, v) && w.vertices[v] == Vertex(AsWrittenEvenPosition(d, t, v, cos), Zero))
      && (forall i :: |d.vertices| <= i < |w.vertices| ==> w.vertices[i] == r.vertices[i])
  {
    SubdividableFacts(d);
    var s := SplitFaces(d.faceElements, |d.vertices|);
    var t := s.edgeVertices;
    var ps := Placed(d, t, t.Keys, s.newIndex);
    var pr := Moved(d, t, cos, |d.vertices|, ps);
    var pw := AsWrittenMoved(d, t, cos, |d.vertices|, ps);
    var r := SubdivideSpec(d, cos);
    var w := AsWrittenSubdivideSpec(d, cos);
    assert r == AddTriangles(Seeded(pr), s.newFaces, |s.newFaces| / 3);
    assert w == AddTriangles(Seeded(pw), s.newFaces, |s.newFaces| / 3);
    TrianglesOverPositions(pr, pw, s.newFaces, |s.newFaces| / 3);
    PositionsAfter(d, t, cos, ps, pr, pw, r.vertices, w.vertices);
  }

  lemma PositionsAfter(d: MeshData, t: EdgeVertices, cos: real -> real, ps: seq<Vec3>, pr: seq<Vec3>, pw: seq<Vec3>,
                       rv: seq<Vertex>, wv: seq<Vertex>)
    requires |d.vertices| <= |ps| && forall v :: 0 <= v < |d.vertices| ==> Resolves(d, v)
    requires pr == Moved(d, t, cos, |d.vertices|, ps) && pw == AsWrittenMoved(d, t, cos, |d.vertices|, ps)
    requires rv == Seeded(pr).vertices && wv == Seeded(pw).vertices
    ensures |wv| == |rv|
    ensures forall v :: 0 <= v < |d.vertices| ==> wv[v] == Vertex(AsWrittenEvenPosition(d, t, v, cos), Zero)
    ensures forall i :: |d.vertices| <= i < |wv| ==> wv[i] == rv[i]
  {
  }

  /** The same triangles added over two lists of positions of one length give stores
      that differ only in those positions. */
  lemma TrianglesOverPositions(pr: seq<Vec3>, pw: seq<Vec3>, flat: seq<nat>, count: nat)
    requires |pr| == |pw| && 3 * count <= |flat| && IdsBelow(flat, |pr|)
    ensures var r := AddTriangles(Seeded(pr), flat, count);
      var w := AddTriangles(Seeded(pw), flat, count);
      && w == r.(vertices := w.vertices)
      && r.vertices == Seeded(pr).vertices && w.vertices == Seeded(pw).vertices
  {
    assert SameButVertices(Seeded(pr), Seeded(pw));
    AddTrianglesIgnoresVertices(Seeded(pr), Seeded(pw), flat, count);
  }

  /** No boundary edge enters an original vertex: every incoming half-edge lies on an
      edge the face loop met from two triangles, as everywhere on a closed mesh. */
  ghost predicate InteriorIncoming(d: MeshData, t: EdgeVertices)
  {
    forall v, k ::
      0 <= v < |d.vertexElements| && 0 <= k < |d.vertexElements[v].incomingHalfEdgeIds| &&
      d.vertexElements[v].incomingHalfEdgeIds[k] < |d.halfEdges| ==>
      !IsBoundary(t, v, d.halfEdges[d.vertexElements[v].incomingHalfEdgeIds[k]].fromVertexId)
  }

  /** Where no boundary edge enters a vertex, the source's subdivision and the
      corrected one return the same mesh. */
  lemma SubdivideAgreesAsWritten(d: MeshData, cos: real -> real)
    requires Subdividable(d)
    requires InteriorIncoming(d, SplitFaces(d.faceElements, |d.vertices|).edgeVertices)
    ensures SubdivideSpec(d, cos) == AsWrittenSubdivideSpec(d, cos)
  {
    SubdividableFacts(d);
    var s := SplitFaces(d.faceElements, |d.vertices|);
    var t := s.edgeVertices;
    var ps := Placed(d, t, t.Keys, s.newIndex);
    assert |d.vertices| == |d.vertexElements|;
    MovedAgrees(d, t, cos, ps);
  }

  /** Both even loops give the same positions where no boundary edge enters a vertex. */
  lemma MovedAgrees(d: MeshData, t: EdgeVertices, cos: real -> real, ps: seq<Vec3>)
    requires |d.vertices| <= |ps| && |d.vertices| == |d.vertexElements|
    requires forall v :: 0 <= v < |d.vertices| ==> Resolves(d, v)
    requires InteriorIncoming(d, t)
    ensures Moved(d, t, cos, |d.vertices|, ps) == AsWrittenMoved(d, t, cos, |d.vertices|, ps)
  {
    forall v | 0 <= v < |d.vertices| ensures EvenPosition(d, t, v, cos) == AsWrittenEvenPosition(d, t, v, cos) {
      EvenPositionAgrees(d, t, v, cos);
    }
  }

  // ---------------------------------------------------------------------------
  // One triangle, subdivided

  /** The lone triangle with corners (0,0,0), (1,0,0), (0,1,0) becomes four triangles
      over six vertices: the corners move by the boundary rule to (1/8, 1/8, 0),
      (3/4, 1/8, 0) and (1/8, 3/4, 0), and the new vertices 3, 4 and 5 sit at the
      midpoints of edges 01, 12 and 20. */
  lemma LoneTriangleSubdivided(cos: real -> real)
    ensures Subdividable(Corners())
    ensures var r := SubdivideSpec(Corners(), cos);
      && |r.vertices| == 6 && |r.faceElements| == 4
      && r.vertices[0].position == Vec3(0.125, 0.125, 0.0)
      && r.vertices[1].position == Vec3(0.75, 0.125, 0.0)
      && r.vertices[2].position == Vec3(0.125, 0.75, 0.0)
      && r.vertices[3].position == Vec3(0.5, 0.0, 0.0)
      && r.vertices[4].position == Vec3(0.5, 0.5, 0.0)
      && r.vertices[5].position == Vec3(0.0, 0.5, 0.0)
      && r.faceElements[0].vertexIds == [0, 3, 5] && r.faceElements[1].vertexIds == [3, 1, 4]
      && r.faceElements[2].vertexIds == [5, 4, 2] && r.faceElements[3].vertexIds == [5, 3, 4]
      && WellFormed(r)
  {
    LoneTriangleSubdividable();
    LoneTriangleEvenVertices(cos);
    LoneTriangleOddVertices(cos);
    LoneTriangleNewFaces(cos);
    SubdivideWellFormed(Corners(), cos);
  }

  lemma LoneTriangleSubdividable()
    ensures Subdividable(Corners())
  {
    LoneTriangleWellFormed(Vec3(0.0, 0.0, 0.0), Vec3(1.0, 0.0, 0.0), Vec3(0.0, 1.0, 0.0));
  }

  lemma LoneTriangleEvenVertices(cos: real -> real)
    requires Subdividable(Corners())
    ensures var r := SubdivideSpec(Corners(), cos);
      && |r.vertices| == 6
      && r.vertices[0].position == Vec3(0.125, 0.125, 0.0)
      && r.vertices[1].position == Vec3(0.75, 0.125, 0.0)
      && r.vertices[2].position == Vec3(0.125, 0.75, 0.0)
  {
    LoneTriangleSplit();
    SubdivideEvenVertices(Corners(), cos);
    CorrectedLoneTriangle(cos);
    CorrectedLoneTriangleCorners(cos);
  }

  lemma LoneTriangleOddVertices(cos: real -> real)
    requires Subdividable(Corners())
    ensures var r := SubdivideSpec(Corners(), cos);
      && |r.vertices| == 6
      && r.vertices[3].position == Vec3(0.5, 0.0, 0.0)
      && r.vertices[4].position == Vec3(0.5, 0.5, 0.0)
      && r.vertices[5].position == Vec3(0.0, 0.5, 0.0)
  {
    LoneTriangleSplit();
    OddVerticesOfSplit(Corners(), cos);
  }

  /** The odd vertices of any store whose three corners and face loop are the lone
      triangle's. */
  lemma OddVerticesOfSplit(d: MeshData, cos: real -> real)
    requires Subdividable(d) && |d.vertices| == 3
    requires d.vertices[0].position == Vec3(0.0, 0.0, 0.0)
    requires d.vertices[1].position == Vec3(1.0, 0.0, 0.0)
    requires d.vertices[2].position == Vec3(0.0, 1.0, 0.0)
    requires SplitFaces(d.faceElements, |d.vertices|).edgeVertices == LoneTriangleMap
    requires SplitFaces(d.faceElements, |d.vertices|).newIndex == 6
    ensures var r := SubdivideSpec(d, cos);
      && |r.vertices| == 6
      && r.vertices[3].position == Vec3(0.5, 0.0, 0.0)
      && r.vertices[4].position == Vec3(0.5, 0.5, 0.0)
      && r.vertices[5].position == Vec3(0.0, 0.5, 0.0)
  {
    LoneMidpoints(d);
    OddOfSpec(d, cos);
  }

  /** The odd vertices of SubdivideSpec once the lone triangle's three midpoints are
      known; the corner positions stay out of this context. */
  lemma OddOfSpec(d: MeshData, cos: real -> real)
    requires Subdividable(d) && |d.vertices| == 3
    requires SplitFaces(d.faceElements, |d.vertices|).edgeVertices == LoneTriangleMap
    requires SplitFaces(d.faceElements, |d.vertices|).newIndex == 6
    requires OddPosition(d, IndexPair2(0, 1), IndexPair3(3, 2, INVALID_INDEX)) == Vec3(0.5, 0.0, 0.0)
    requires OddPosition(d, IndexPair2(1, 2), IndexPair3(4, 0, INVALID_INDEX)) == Vec3(0.5, 0.5, 0.0)
    requires OddPosition(d, IndexPair2(0, 2), IndexPair3(5, 1, INVALID_INDEX)) == Vec3(0.0, 0.5, 0.0)
    ensures var r := SubdivideSpec(d, cos);
      && |r.vertices| == 6
      && r.vertices[3].position == Vec3(0.5, 0.0, 0.0)
      && r.vertices[4].position == Vec3(0.5, 0.5, 0.0)
      && r.vertices[5].position == Vec3(0.0, 0.5, 0.0)
  {
    var s := SplitFaces(d.faceElements, |d.vertices|);
    SubdivideOddVertices(d, cos);
    OddOfMap(d, SubdivideSpec(d, cos).vertices, s.edgeVertices, s.newIndex);
  }

  lemma OddOfMap(d: MeshData, vs: seq<Vertex>, t: EdgeVertices, n: nat)
    requires |d.vertices| == 3 && |vs| == 6 && t == LoneTriangleMap && n == 6
    requires OddPosition(d, IndexPair2(0, 1), IndexPair3(3, 2, INVALID_INDEX)) == Vec3(0.5, 0.0, 0.0)
    requires OddPosition(d, IndexPair2(1, 2), IndexPair3(4, 0, INVALID_INDEX)) == Vec3(0.5, 0.5, 0.0)
    requires OddPosition(d, IndexPair2(0, 2), IndexPair3(5, 1, INVALID_INDEX)) == Vec3(0.0, 0.5, 0.0)
    requires forall k :: k in t ==>
      EntryOk(k, t[k], |d.vertices|, n) && t[k].vN < |vs| && vs[t[k].vN] == Vertex(OddPosition(d, k, t[k]), Zero)
    ensures vs[3].position == Vec3(0.5, 0.0, 0.0)
    ensures vs[4].position == Vec3(0.5, 0.5, 0.0)
    ensures vs[5].position == Vec3(0.0, 0.5, 0.0)
  {
    OddAtMapKey(d, vs, t, n, IndexPair2(0, 1));
    OddAtMapKey(d, vs, t, n, IndexPair2(1, 2));
    OddAtMapKey(d, vs, t, n, IndexPair2(0, 2));
  }

  lemma OddAtMapKey(d: MeshData, vs: seq<Vertex>, t: EdgeVertices, n: nat, k: IndexPair2)
    requires t == LoneTriangleMap && k in t
    requires forall k :: k in t ==>
      EntryOk(k, t[k], |d.vertices|, n) && t[k].vN < |vs| && vs[t[k].vN] == Vertex(OddPosition(d, k, t[k]), Zero)
    ensures EntryOk(k, t[k], |d.vertices|, n)
    ensures vs[t[k].vN].position == OddPosition(d, k, t[k])
  {
  }

  lemma LoneMidpoints(d: MeshData)
    requires |d.vertices| == 3
    requires d.vertices[0].position == Vec3(0.0, 0.0, 0.0)
    requires d.vertices[1].position == Vec3(1.0, 0.0, 0.0)
    requires d.vertices[2].position == Vec3(0.0, 1.0, 0.0)
    ensures OddPosition(d, IndexPair2(0, 1), IndexPair3(3, 2, INVALID_INDEX)) == Vec3(0.5, 0.0, 0.0)
    ensures OddPosition(d, IndexPair2(1, 2), IndexPair3(4, 0, INVALID_INDEX)) == Vec3(0.5, 0.5, 0.0)
    ensures OddPosition(d, IndexPair2(0, 2), IndexPair3(5, 1, INVALID_INDEX)) == Vec3(0.0, 0.5, 0.0)
  {
    BottomMidpoint(d);
    DiagonalMidpoint(d);
    LeftMidpoint(d);
  }

  /** The odd vertex of edge (0, 1) of the lone triangle. */
  lemma BottomMidpoint(d: MeshData)
    requires |d.vertices| == 3
    requires d.vertices[0].position == Vec3(0.0, 0.0, 0.0) && d.vertices[1].position == Vec3(1.0, 0.0, 0.0)
    ensures OddPosition(d, IndexPair2(0, 1), IndexPair3(3, 2, INVALID_INDEX)) == Vec3(0.5, 0.0, 0.0)
  {
    Midpoint(d, IndexPair2(0, 1), IndexPair3(3, 2, INVALID_INDEX), Vec3(0.0, 0.0, 0.0), Vec3(1.0, 0.0, 0.0));
  }

  /** The odd vertex of edge (1, 2) of the lone triangle. */
  lemma DiagonalMidpoint(d: MeshData)
    requires |d.vertices| == 3
    requires d.vertices[1].position == Vec3(1.0, 0.0, 0.0) && d.vertices[2].position == Vec3(0.0, 1.0, 0.0)
    ensures OddPosition(d, IndexPair2(1, 2), IndexPair3(4, 0, INVALID_INDEX)) == Vec3(0.5, 0.5, 0.0)
  {
    Midpoint(d, IndexPair2(1, 2), IndexPair3(4, 0, INVALID_INDEX), Vec3(1.0, 0.0, 0.0), Vec3(0.0, 1.0, 0.0));
  }

  /** The odd vertex of edge (0, 2) of the lone triangle. */
  lemma LeftMidpoint(d: MeshData)
    requires |d.vertices| == 3
    requires d.vertices[0].position == Vec3(0.0, 0.0, 0.0) && d.vertices[2].position == Vec3(0.0, 1.0, 0.0)
    ensures OddPosition(d, IndexPair2(0, 2), IndexPair3(5, 1, INVALID_INDEX)) == Vec3(0.0, 0.5, 0.0)
  {
    Midpoint(d, IndexPair2(0, 2), IndexPair3(5, 1, INVALID_INDEX), Vec3(0.0, 0.0, 0.0), Vec3(0.0, 1.0, 0.0));
  }

  /** On a boundary edge the odd vertex is the midpoint of the edge's ends. */
  lemma Midpoint(d: MeshData, k: IndexPair2, e: IndexPair3, a: Vec3, b: Vec3)
    requires k.v1 < |d.vertices| && k.v2 < |d.vertices| && e.vOpp1 < |d.vertices| && e.vOpp2 == INVALID_INDEX
    requires d.vertices[k.v1].position == a && d.vertices[k.v2].position == b && a.Vec3? && b.Vec3?
    ensures OddPosition(d, k, e) == Vec3(0.5 * (a.x + b.x), 0.5 * (a.y + b.y), 0.5 * (a.z + b.z))
  {
  }

  lemma LoneTriangleNewFaces(cos: real -> real)
    requires Subdividable(Corners())
    ensures var r := SubdivideSpec(Corners(), cos);
      && |r.faceElements| == 4
      && r.faceElements[0].vertexIds == [0, 3, 5] && r.faceElements[1].vertexIds == [3, 1, 4]
      && r.faceElements[2].vertexIds == [5, 4, 2] && r.faceElements[3].vertexIds == [5, 3, 4]
  {
    LoneTriangleSplit();
    FacesOfSplit(Corners(), cos);
  }

  /** The faces of any store whose face loop emits the lone triangle's four
      triangles. */
  lemma FacesOfSplit(d: MeshData, cos: real -> real)
    requires Subdividable(d)
    requires SplitFaces(d.faceElements, |d.vertices|).newFaces == [0, 3, 5, 3, 1, 4, 5, 4, 2, 5, 3, 4]
    ensures var r := SubdivideSpec(d, cos);
      && |r.faceElements| == 4
      && r.faceElements[0].vertexIds == [0, 3, 5] && r.faceElements[1].vertexIds == [3, 1, 4]
      && r.faceElements[2].vertexIds == [5, 4, 2] && r.faceElements[3].vertexIds == [5, 3, 4]
  {
    SubdivideFaces(d, cos);
    var r := SubdivideSpec(d, cos);
    FacesOfFlat(r.faceElements, SplitFaces(d.faceElements, |d.vertices|).newFaces);
  }

  lemma FacesOfFlat(faces: seq<FaceElement>, flat: seq<nat>)
    requires flat == [0, 3, 5, 3, 1, 4, 5, 4, 2, 5, 3, 4] && |faces| == 4
    requires forall g :: 0 <= g < |faces| ==> faces[g].vertexIds == flat[3 * g .. 3 * g + 3]
    ensures faces[0].vertexIds == [0, 3, 5] && faces[1].vertexIds == [3, 1, 4]
    ensures faces[2].vertexIds == [5, 4, 2] && faces[3].vertexIds == [5, 3, 4]
  {
    assert faces[0].vertexIds == flat[0 .. 3];
    assert faces[1].vertexIds == flat[3 .. 6];
    assert faces[2].vertexIds == flat[6 .. 9];
    assert faces[3].vertexIds == flat[9 .. 12];
  }

  /** As written, the same triangle subdivides to a different mesh: corner 0 stays
      on the x axis. */
  lemma LoneTriangleSubdividedAsWritten(cos: real -> real)
    ensures Subdividable(Corners())
    ensures var w := AsWrittenSubdivideSpec(Corners(), cos);
      |w.vertices| == 6 && w.vertices[0].position.Vec3? && w.vertices[0].position.y == 0.0
    ensures AsWrittenSubdivideSpec(Corners(), cos) != SubdivideSpec(Corners(), cos)
  {
    LoneTriangleSubdivided(cos);
    AsWrittenSubdivideVertices(Corners(), cos);
    AsWrittenLoneTriangle(cos);
  }

  // ---------------------------------------------------------------------------
  // LoopSubdivideNative, phase by phase

  /** Setting one position of a seeded store. */
  lemma SeededSet(ps: seq<Vec3>, i: nat, p: Vec3)
    requires i < |ps|
    ensures Seeded(ps[i := p]) == Seeded(ps).(vertices := Seeded(ps).vertices[i := Seeded(ps).vertices[i].(position := p)])
  {
    var a := Seeded(ps[i := p]);
    var b := Seeded(ps).(vertices := Seeded(ps).vertices[i := Seeded(ps).vertices[i].(position := p)]);
    assert a.vertices == b.vertices;
  }

  /** The do-while walk of the face loop: from the face's start half-edge along `next`
      until it is back, collecting the from-vertices. */
  method FaceVertexIds(mesh: Mesh, f: nat, ghost d: MeshData) returns (vertexIds: seq<nat>)
    requires FaceRings(d) && f < |d.faceElements|
    requires mesh.faceElements == d.faceElements && mesh.halfEdges == d.halfEdges
    ensures vertexIds == d.faceElements[f].vertexIds
  {
    var face := mesh.faceElements[f];
    assert RingOk(d.halfEdges, face, f);
    ghost var n := |face.vertexIds|;
    var startHalfEdgeId := face.startHalfEdgeId;
    var halfEdgeId := startHalfEdgeId;
    RingWalk(d, f, 0);
    vertexIds := [mesh.halfEdges[halfEdgeId].fromVertexId];
    halfEdgeId := mesh.halfEdges[halfEdgeId].nextHalfEdgeId;
    while halfEdgeId != startHalfEdgeId
      invariant 1 <= |vertexIds| <= n
      invariant halfEdgeId == Follow(d.halfEdges, startHalfEdgeId, |vertexIds|)
      invariant vertexIds == face.vertexIds[..|vertexIds|]
      decreases n - |vertexIds|
    {
      RingWalk(d, f, |vertexIds|);
      var he := mesh.halfEdges[halfEdgeId];
      vertexIds := vertexIds + [he.fromVertexId];
      halfEdgeId := he.nextHalfEdgeId;
    }
    RingWalk(d, f, |vertexIds|);
    assert vertexIds == face.vertexIds;
  }

  /** One addEdgeVertex call of the face loop, and the zero vertex the loop adds when
      the returned id is past the end of the new mesh. */
  method AllocateEdge(newMesh: Mesh, t: EdgeVertices, newIndex: nat, a: nat, b: nat, c: nat, ghost d: MeshData)
    returns (t': EdgeVertices, newIndex': nat, vIndex: nat)
    requires a < |d.vertices| && b < |d.vertices| && c < |d.vertices|
    requires TableOk(t, |d.vertices|, newIndex) && newIndex + 1 < 0x8000_0000
    requires newMesh.Data() == Seeded(Copied(d, newIndex))
    modifies newMesh
    ensures (t', newIndex', vIndex) == AddEdgeVertex(t, a, b, c, newIndex)
    ensures TableOk(t', |d.vertices|, newIndex') && newIndex' <= newIndex + 1
    ensures newMesh.Data() == Seeded(Copied(d, newIndex'))
  {
    var r := AddEdgeVertex(t, a, b, c, newIndex);
    t', newIndex', vIndex := r.0, r.1, r.2;
    AddEdgeVertexKeepsTable(t, |d.vertices|, newIndex, a, b, c);
    if Key(a, b) in t {
      assert EntryOk(Key(a, b), t[Key(a, b)], |d.vertices|, newIndex);
    }
    if vIndex >= |newMesh.vertices| {
      AddZeroVertex(newMesh, d, newIndex);
    }
  }

  /** The new mesh grows by one zero vertex for a fresh edge vertex. */
  method AddZeroVertex(newMesh: Mesh, ghost d: MeshData, ghost n: nat)
    requires newMesh.Data() == Seeded(Copied(d, n)) && |d.vertices| <= n
    modifies newMesh
    ensures newMesh.Data() == Seeded(Copied(d, n + 1))
  {
    var vertexId := newMesh.AddVertex(Zero);
    CopiedGrows(d, n);
    SeededGrows(Copied(d, n), Zero);
  }

  /** The body of the face loop for a triangle: three edge vertices and four faces. */
  method SplitTriangle(newMesh: Mesh, s: Split, ids: seq<nat>, ghost d: MeshData) returns (r: Split)
    requires |ids| == 3 && IdsBelow(ids, |d.vertices|)
    requires TableOk(s.edgeVertices, |d.vertices|, s.newIndex) && s.newIndex + 3 < 0x8000_0000
    requires newMesh.Data() == Seeded(Copied(d, s.newIndex))
    modifies newMesh
    ensures r == SplitFace(s, ids)
    ensures newMesh.Data() == Seeded(Copied(d, r.newIndex))
  {
    var t1, n1, vpIndex := AllocateEdge(newMesh, s.edgeVertices, s.newIndex, ids[0], ids[1], ids[2], d);
    var t2, n2, vqIndex := AllocateEdge(newMesh, t1, n1, ids[1], ids[2], ids[0], d);
    var t3, n3, vrIndex := AllocateEdge(newMesh, t2, n2, ids[2], ids[0], ids[1], d);
    r := Split(t3, n3, s.newFaces + [ids[0], vpIndex, vrIndex, vpIndex, ids[1], vqIndex,
                                     vrIndex, vqIndex, ids[2], vrIndex, vpIndex, vqIndex]);
  }

  /** One pass of the face loop: walk face `f`, and split it when it is a triangle. */
  method SplitNextFace(mesh: Mesh, newMesh: Mesh, s: Split, f: nat, ghost d: MeshData) returns (s': Split)
    requires mesh != newMesh && FaceRings(d) && f < |d.faceElements|
    requires mesh.faceElements == d.faceElements && mesh.halfEdges == d.halfEdges
    requires IdsBelow(d.faceElements[f].vertexIds, |d.vertices|)
    requires |d.vertices| + 3 * |d.faceElements| < 0x8000_0000
    requires s == SplitFaces(d.faceElements[..f], |d.vertices|)
    requires TableOk(s.edgeVertices, |d.vertices|, s.newIndex) && s.newIndex <= |d.vertices| + 3 * f
    requires newMesh.Data() == Seeded(Copied(d, s.newIndex))
    modifies newMesh
    ensures s' == SplitFaces(d.faceElements[..f + 1], |d.vertices|)
    ensures TableOk(s'.edgeVertices, |d.vertices|, s'.newIndex) && s'.newIndex <= |d.vertices| + 3 * (f + 1)
    ensures newMesh.Data() == Seeded(Copied(d, s'.newIndex))
  {
    var vertexIds := FaceVertexIds(mesh, f, d);
    assert d.faceElements[..f + 1][..f] == d.faceElements[..f];
    assert d.faceElements[..f + 1][f] == d.faceElements[f];
    SplitFaceTable(s, vertexIds, |d.vertices|);
    s' := s;
    if |vertexIds| == 3 {
      s' := SplitTriangle(newMesh, s, vertexIds, d);
    }
  }

  /** The face loop: faces that are not triangles are skipped. */
  method SplitAllFaces(mesh: Mesh, newMesh: Mesh) returns (s: Split)
    requires mesh != newMesh && Subdividable(mesh.Data())
    requires newMesh.Data() == Seeded(Copied(mesh.Data(), |mesh.vertices|))
    modifies newMesh
    ensures s == SplitFaces(mesh.faceElements, |mesh.vertices|)
    ensures newMesh.Data() == Seeded(Copied(mesh.Data(), s.newIndex))
  {
    ghost var d := mesh.Data();
    var numVerts := |mesh.vertices|;
    var numFaces := |mesh.faceElements|;
    s := Split(map[], numVerts, []);
    assert d.faceElements[..0] == [];
    var f := 0;
    while f < numFaces
      invariant f <= numFaces
      invariant s == SplitFaces(d.faceElements[..f], numVerts)
      invariant TableOk(s.edgeVertices, numVerts, s.newIndex) && s.newIndex <= numVerts + 3 * f
      invariant newMesh.Data() == Seeded(Copied(d, s.newIndex))
    {
      FaceIdsInRange(d, f);
      s := SplitNextFace(mesh, newMesh, s, f, d);
      f := f + 1;
    }
    assert d.faceElements[..numFaces] == d.faceElements;
  }

  /** The odd loop moves one odd vertex per key, in the map's own order. */
  lemma PlacedStep(d: MeshData, t: EdgeVertices, done: set<IndexPair2>, n: nat, k0: IndexPair2)
    requires TableOk(t, |d.vertices|, n) && CornersBelow(t, |d.vertices|) && done <= t.Keys
    requires k0 in t && k0 !in done
    ensures |d.vertices| <= t[k0].vN < n
    ensures Placed(d, t, done + {k0}, n) == Placed(d, t, done, n)[t[k0].vN := OddPosition(d, k0, t[k0])]
  {
    assert EntryOk(k0, t[k0], |d.vertices|, n);
    assert OddIdsDistinct(t);
    var a := Placed(d, t, done + {k0}, n);
    var b := Placed(d, t, done, n)[t[k0].vN := OddPosition(d, k0, t[k0])];
    forall i | |d.vertices| <= i < n ensures a[i] == b[i] {
      OddAtOther(d, t, done, k0, i);
    }
  }

  /** Before the odd loop nothing is placed: the copied positions, then zeros. */
  lemma PlacedNone(d: MeshData, t: EdgeVertices, n: nat)
    requires CornersBelow(t, |d.vertices|)
    ensures Copied(d, n) == Placed(d, t, {}, n)
  {
    var a := Copied(d, n);
    var b := Placed(d, t, {}, n);
    forall i | 0 <= i < n ensures a[i] == b[i] {
      assert i >= |d.vertices| ==> OddAt(d, t, {}, i) == Zero;
    }
  }

  /** Processing `k0` leaves every other odd vertex where it was. */
  lemma OddAtOther(d: MeshData, t: EdgeVertices, done: set<IndexPair2>, k0: IndexPair2, i: nat)
    requires CornersBelow(t, |d.vertices|) && done <= t.Keys && OddIdsDistinct(t)
    requires k0 in t && k0 !in done
    ensures i != t[k0].vN ==> OddAt(d, t, done + {k0}, i) == OddAt(d, t, done, i)
    ensures i == t[k0].vN ==> OddAt(d, t, done + {k0}, i) == OddPosition(d, k0, t[k0])
  {
    if i == t[k0].vN {
      var k :| k in done + {k0} && t[k].vN == i;
      assert k == k0;
    } else if exists k :: k in done && t[k].vN == i {
      var k :| k in done + {k0} && t[k].vN == i;
      var k' :| k' in done && t[k'].vN == i;
      assert k == k';
    }
  }

  /** One pass of the odd loop: the odd vertex of `edgePair` placed by the odd rule. */
  method PlaceOddVertex(newMesh: Mesh, edgeVertices: EdgeVertices, edgePair: IndexPair2,
                        ghost d: MeshData, ghost done: set<IndexPair2>, ghost n: nat)
    requires TableOk(edgeVertices, |d.vertices|, n) && CornersBelow(edgeVertices, |d.vertices|)
    requires done <= edgeVertices.Keys && edgePair in edgeVertices && edgePair !in done
    requires newMesh.Data() == Seeded(Placed(d, edgeVertices, done, n))
    modifies newMesh
    ensures newMesh.Data() == Seeded(Placed(d, edgeVertices, done + {edgePair}, n))
  {
    var edgeInfo := edgeVertices[edgePair];
    PlacedStep(d, edgeVertices, done, n, edgePair);
    var v1Pos := newMesh.vertices[edgePair.v1].position;
    var v2Pos := newMesh.vertices[edgePair.v2].position;
    var newPos;
    if edgeInfo.vOpp2 == INVALID_INDEX {
      newPos := Scale(0.5, Plus(v1Pos, v2Pos));
    } else {
      var vNOpp1Pos := newMesh.vertices[edgeInfo.vOpp1].position;
      var vNOpp2Pos := newMesh.vertices[edgeInfo.vOpp2].position;
      newPos := Plus(Scale(0.375, Plus(v1Pos, v2Pos)), Scale(0.125, Plus(vNOpp1Pos, vNOpp2Pos)));
    }
    assert newPos == OddPosition(d, edgePair, edgeInfo);
    SeededSet(Placed(d, edgeVertices, done, n), edgeInfo.vN, newPos);
    newMesh.vertices := newMesh.vertices[edgeInfo.vN := newMesh.vertices[edgeInfo.vN].(position := newPos)];
  }

  /** The odd loop: every key's odd vertex is placed by the odd rule, from the copied
      positions of its endpoints and opposite corners. */
  method PlaceOddVertices(newMesh: Mesh, edgeVertices: EdgeVertices, ghost d: MeshData, ghost n: nat)
    requires TableOk(edgeVertices, |d.vertices|, n)
    requires newMesh.Data() == Seeded(Copied(d, n))
    modifies newMesh
    ensures CornersBelow(edgeVertices, |d.vertices|)
    ensures newMesh.Data() == Seeded(Placed(d, edgeVertices, edgeVertices.Keys, n))
  {
    TableCorners(edgeVertices, |d.vertices|, n);
    PlacedNone(d, edgeVertices, n);
    var remaining := edgeVertices.Keys;
    while remaining != {}
      invariant remaining <= edgeVertices.Keys
      invariant newMesh.Data() == Seeded(Placed(d, edgeVertices, edgeVertices.Keys - remaining, n))
      decreases |remaining|
    {
      var edgePair :| edgePair in remaining;
      PlaceOddVertex(newMesh, edgeVertices, edgePair, d, edgeVertices.Keys - remaining, n);
      assert edgeVertices.Keys - (remaining - {edgePair}) == (edgeVertices.Keys - remaining) + {edgePair};
      remaining := remaining - {edgePair};
    }
    assert edgeVertices.Keys - remaining == edgeVertices.Keys;
  }

  /** The first neighbourhood loop of one even vertex: its outgoing half-edges as
      the source walks them. */
  method OutgoingNeighbours(mesh: Mesh, edgeVertices: EdgeVertices, v: nat) returns (ring: Ring)
    requires Resolves(mesh.Data(), v)
    ensures ring == OutgoingRing(mesh.Data(), edgeVertices, v, mesh.vertexElements[v].outgoingHalfEdgeIds)
  {
    ghost var d := mesh.Data();
    var outgoingHalfEdges := mesh.vertexElements[v].outgoingHalfEdgeIds;
    ring := Ring(0, Zero, 0, Zero);
    var j := 0;
    while j < |outgoingHalfEdges|
      invariant j <= |outgoingHalfEdges|
      invariant ring == OutgoingRing(d, edgeVertices, v, outgoingHalfEdges[..j])
    {
      var neighborV := mesh.halfEdges[outgoingHalfEdges[j]].toVertexId;
      var edgePair := Key(v, neighborV);
      var p := mesh.vertices[neighborV].position;
      if edgePair !in edgeVertices || edgeVertices[edgePair].vOpp2 == INVALID_INDEX {
        ring := ring.(boundaryCount := ring.boundaryCount + 1, boundarySum := Plus(ring.boundarySum, p));
      }
      ring := ring.(count := ring.count + 1, sum := Plus(ring.sum, p));
      assert outgoingHalfEdges[..j + 1][..j] == outgoingHalfEdges[..j];
      j := j + 1;
    }
    assert outgoingHalfEdges[..j] == outgoingHalfEdges;
  }

  /** The second neighbourhood loop: the boundary edges that only enter the vertex. */
  method IncomingBoundaries(mesh: Mesh, edgeVertices: EdgeVertices, v: nat, outRing: Ring) returns (ring: Ring)
    requires Resolves(mesh.Data(), v)
    ensures ring == IncomingBoundary(mesh.Data(), edgeVertices, v, mesh.vertexElements[v].incomingHalfEdgeIds, outRing)
  {
    ghost var d := mesh.Data();
    ring := outRing;
    var incomingHalfEdges := mesh.vertexElements[v].incomingHalfEdgeIds;
    var j := 0;
    while j < |incomingHalfEdges|
      invariant j <= |incomingHalfEdges|
      invariant ring == IncomingBoundary(d, edgeVertices, v, incomingHalfEdges[..j], outRing)
    {
      var neighborV := mesh.halfEdges[incomingHalfEdges[j]].fromVertexId;
      var edgePair := Key(v, neighborV);
      if edgePair !in edgeVertices || edgeVertices[edgePair].vOpp2 == INVALID_INDEX {
        ring := ring.(boundaryCount := ring.boundaryCount + 1,
                      boundarySum := Plus(ring.boundarySum, mesh.vertices[neighborV].position));
      }
      assert incomingHalfEdges[..j + 1][..j] == incomingHalfEdges[..j];
      j := j + 1;
    }
    assert incomingHalfEdges[..j] == incomingHalfEdges;
  }

  /** The neighbourhood loops of one even vertex, then the even rule. */
  method EvenVertexPosition(mesh: Mesh, edgeVertices: EdgeVertices, v: nat, cos: real -> real) returns (newPos: Vec3)
    requires Resolves(mesh.Data(), v)
    ensures newPos == EvenPosition(mesh.Data(), edgeVertices, v, cos)
  {
    var outRing := OutgoingNeighbours(mesh, edgeVertices, v);
    var ring := IncomingBoundaries(mesh, edgeVertices, v, outRing);
    newPos := EvenRule(mesh.vertices[v].position, ring, cos);
  }

  /** The even loop: every original vertex moved by the even rule, from the positions
      of the original mesh. */
  method MoveEvenVertices(mesh: Mesh, newMesh: Mesh, edgeVertices: EdgeVertices, cos: real -> real,
                          ghost ps: seq<Vec3>)
    requires mesh != newMesh && WellFormed(mesh.Data()) && |mesh.vertices| <= |ps|
    requires newMesh.Data() == Seeded(ps)
    modifies newMesh
    ensures forall v :: 0 <= v < |mesh.vertices| ==> Resolves(mesh.Data(), v)
    ensures newMesh.Data() == Seeded(Moved(mesh.Data(), edgeVertices, cos, |mesh.vertices|, ps))
  {
    ghost var d := mesh.Data();
    var numVerts := |mesh.vertices|;
    forall v | 0 <= v < numVerts ensures Resolves(d, v) {
      WellFormedResolves(d, v);
    }
    assert ps == Moved(d, edgeVertices, cos, 0, ps);
    var v := 0;
    while v < numVerts
      invariant v <= numVerts
      invariant newMesh.Data() == Seeded(Moved(d, edgeVertices, cos, v, ps))
    {
      var newPos := EvenVertexPosition(mesh, edgeVertices, v, cos);
      ghost var before := Moved(d, edgeVertices, cos, v, ps);
      SeededSet(before, v, newPos);
      assert Moved(d, edgeVertices, cos, v + 1, ps) == before[v := newPos];
      newMesh.vertices := newMesh.vertices[v := newMesh.vertices[v].(position := newPos)];
      v := v + 1;
    }
  }

  /** One pass of the last loop: addFace on triple `f`. */
  method AddNextFace(newMesh: Mesh, newFaces: seq<nat>, f: nat, ghost m: MeshData)
    requires Indexable(m) && IdsBelow(newFaces, |m.vertexElements|) && 3 * (f + 1) <= |newFaces|
    requires newMesh.Data() == AddTriangles(m, newFaces, f)
    modifies newMesh
    ensures newMesh.Data() == AddTriangles(m, newFaces, f + 1)
  {
    var loc := 3 * f;
    AddTrianglesNext(m, newFaces, f);
    var startHalfEdgeId := newMesh.AddFace(newFaces[loc .. loc + 3]);
  }

  /** The last loop: one addFace per emitted triple. */
  method AddNewFaces(newMesh: Mesh, newFaces: seq<nat>)
    requires Indexable(newMesh.Data()) && IdsBelow(newFaces, |newMesh.vertexElements|)
    modifies newMesh
    ensures newMesh.Data() == AddTriangles(old(newMesh.Data()), newFaces, |newFaces| / 3)
  {
    ghost var m := newMesh.Data();
    var newNumFaces := |newFaces| / 3;
    var f := 0;
    while f < newNumFaces
      invariant f <= newNumFaces
      invariant newMesh.Data() == AddTriangles(m, newFaces, f)
    {
      AddNextFace(newMesh, newFaces, f, m);
      f := f + 1;
    }
  }

  /** The first loop: every original vertex copied, with a zero normal. */
  method CopyVertices(mesh: Mesh, newMesh: Mesh)
    requires mesh != newMesh && newMesh.Data() == EmptyMesh
    modifies newMesh
    ensures newMesh.Data() == Seeded(Copied(mesh.Data(), |mesh.vertices|))
  {
    ghost var d := mesh.Data();
    var numVerts := |mesh.vertices|;
    assert Seeded(Copied(d, 0)) == EmptyMesh;
    var i := 0;
    while i < numVerts
      invariant i <= numVerts
      invariant newMesh.Data() == Seeded(Copied(d, i))
    {
      var vertexId := newMesh.AddVertex(mesh.vertices[i].position);
      CopiedGrows(d, i);
      SeededGrows(Copied(d, i), mesh.vertices[i].position);
      i := i + 1;
    }
  }

  /** LoopSubdivideNative(mesh): one step of Loop subdivision into a new mesh. */
  method LoopSubdivideNative(mesh: Mesh, cos: real -> real) returns (newMesh: Mesh)
    requires Subdividable(mesh.Data())
    ensures fresh(newMesh)
    ensures newMesh.Data() == SubdivideSpec(mesh.Data(), cos)
  {
    ghost var d := mesh.Data();
    newMesh := new Mesh();
    var numVerts := |mesh.vertices|;
    CopyVertices(mesh, newMesh);
    var s := SplitAllFaces(mesh, newMesh);
    SubdividableFacts(d);
    PlaceOddVertices(newMesh, s.edgeVertices, d, s.newIndex);
    ghost var ps := Placed(d, s.edgeVertices, s.edgeVertices.Keys, s.newIndex);
    MoveEvenVertices(mesh, newMesh, s.edgeVertices, cos, ps);
    AddNewFaces(newMesh, s.newFaces);
  }
}
