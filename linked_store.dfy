// The global mesh of hwB/B.3 and hwB/B.4 (src/main.cpp): the `vertices`,
// `halfEdges`, `edges` and `faces` vectors that loadOBJ, buildHalfEdgeStructure
// and computeVertexNormals fill and update in place, and the loops of main that
// read them back into a vertex buffer. Each method is proved against the function
// of LinkedHalfEdge that says what its loops compute.
module LinkedStore {
  import opened Common
  import opened Geometry
  import opened LinkedHalfEdge
  import opened LinkedFacts

  /** Reads the classified lines of an OBJ file: the `v` positions and the `f`
      triples (1-based in the file, 0-based here), both in file order. */
  method ReadObjLines(lines: seq<ObjLine>) returns (positions: seq<Vec3>, faceIndices: seq<Triple>)
    ensures positions == Positions(lines) && faceIndices == FaceIndices(lines)
  {
    positions := [];
    faceIndices := [];
    var i := 0;
    while i < |lines|
      invariant 0 <= i <= |lines|
      invariant positions == Positions(lines[..i]) && faceIndices == FaceIndices(lines[..i])
    {
      assert lines[..i + 1][..i] == lines[..i];
      match lines[i] {
        case VLine(p) =>
          positions := positions + [p];
        case FLine(x, y, z) =>
          faceIndices := faceIndices + [Triple(x - 1, y - 1, z - 1)];
        case OtherLine =>
      }
      i := i + 1;
    }
    assert lines[..i] == lines;
  }

  class HalfEdgeMesh {
    var vertices: seq<LVertex>
    var halfEdges: seq<LHalfEdge>
    var edges: seq<LEdge>
    var faces: seq<LFace>

    /** The four arenas as one value. */
    function Data(): Arenas
      reads this
    {
      Arenas(vertices, halfEdges, edges, faces)
    }

    /** The program starts with the four vectors empty. */
    constructor ()
      ensures Data() == Arenas([], [], [], [])
    {
      vertices := [];
      halfEdges := [];
      edges := [];
      faces := [];
    }

    /** One pass of the builder's first loop: a new face, its three half-edges
        linked into a ring over the triple's vertices, and one new edge for each;
        `he1` is the first of the three. */
    method AddTriangleRing(t: Triple) returns (he1: nat)
      requires InRange(t, |vertices|)
      modifies this
      ensures Data() == AddTriangle(old(Data()), t)
      ensures he1 == |old(halfEdges)|
    {
      var face := |faces|;
      var e := |edges|;
      he1 := |halfEdges|;
      faces := faces + [LFace(he1, Zero)];
      halfEdges := halfEdges + [LHalfEdge(t.x as nat, None, he1 + 1, face, e),
                                LHalfEdge(t.y as nat, None, he1 + 2, face, e + 1),
                                LHalfEdge(t.z as nat, None, he1, face, e + 2)];
      edges := edges + [LEdge(he1), LEdge(he1 + 1), LEdge(he1 + 2)];
    }

    /** buildHalfEdgeStructure: every triple becomes a triangle whose half-edges are
        stored in the map under (origin id, next origin id); then every half-edge of
        the arenas takes as twin the half-edge the map holds for its reversed key. */
    method BuildHalfEdgeStructure(faceIndices: seq<Triple>)
      requires LinksOk(Data()) && AllInRange(faceIndices, |vertices|)
      modifies this
      ensures Data() == BuildSpec(old(Data()), faceIndices)
    {
      var edgeMap := AddTriangleRings(faceIndices);
      AssignTwins(edgeMap);
    }

    /** The builder's first loop: one triangle per triple, in order, and the map of
        the new half-edges' keys. */
    method AddTriangleRings(faceIndices: seq<Triple>) returns (edgeMap: map<(int, int), nat>)
      requires LinksOk(Data()) && AllInRange(faceIndices, |vertices|)
      modifies this
      ensures Data() == AddTriangles(old(Data()), faceIndices, |faceIndices|)
      ensures edgeMap == EdgeMap(Data(), |old(halfEdges)|, |halfEdges|)
    {
      ghost var a0 := Data();
      edgeMap := map[];
      var i := 0;
      while i < |faceIndices|
        invariant 0 <= i <= |faceIndices|
        invariant Stored(a0, faceIndices, i, edgeMap)
      {
        edgeMap := StoreTriangle(a0, faceIndices, i, edgeMap);
        i := i + 1;
      }
    }

    /** The state after `k` passes of the first loop from `a0`. */
    ghost predicate Stored(a0: Arenas, ts: seq<Triple>, k: nat, edgeMap: map<(int, int), nat>)
      reads this
    {
      && LinksOk(a0) && k <= |ts| && AllInRange(ts, |a0.vertices|)
      && Data() == AddTriangles(a0, ts, k)
      && edgeMap == EdgeMap(Data(), |a0.halfEdges|, |halfEdges|)
    }

    /** The body of the builder's first loop: triangle `ts[k]` added, then its three
        half-edges stored in the map, in order, under (origin id, next origin id). */
    method StoreTriangle(ghost a0: Arenas, ts: seq<Triple>, k: nat, edgeMap: map<(int, int), nat>) returns (m: map<(int, int), nat>)
      requires k < |ts| && Stored(a0, ts, k, edgeMap)
      modifies this
      ensures Stored(a0, ts, k + 1, m)
    {
      ghost var d := Data();
      var lo := |a0.halfEdges|;
      var he1 := AddTriangleRing(ts[k]);
      EdgeMapAddTriangle(d, ts[k], lo);
      var key1 := (vertices[halfEdges[he1].origin].id, vertices[halfEdges[halfEdges[he1].next].origin].id);
      var key2 := (vertices[halfEdges[he1 + 1].origin].id, vertices[halfEdges[halfEdges[he1 + 1].next].origin].id);
      var key3 := (vertices[halfEdges[he1 + 2].origin].id, vertices[halfEdges[halfEdges[he1 + 2].next].origin].id);
      assert key1 == KeyOf(Data(), he1) && key2 == KeyOf(Data(), he1 + 1) && key3 == KeyOf(Data(), he1 + 2);
      m := edgeMap[key1 := he1];
      m := m[key2 := he1 + 1];
      m := m[key3 := he1 + 2];
    }

    /** The builder's second loop over every half-edge, in order. */
    method AssignTwins(edgeMap: map<(int, int), nat>)
      requires LinksOk(Data()) && MapInRange(edgeMap, |halfEdges|)
      modifies this
      ensures Data() == old(Data()).(halfEdges := TwinPass(old(Data()), edgeMap, |old(halfEdges)|))
    {
      ghost var b := Data();
      var n := |halfEdges|;
      var j := 0;
      while j < n
        invariant j <= n == |b.halfEdges| && Twinned(b, edgeMap, j)
      {
        AssignTwin(b, edgeMap, j);
        j := j + 1;
      }
      assert j == |b.halfEdges| && old(Data()) == b;
    }

    /** The state after the second loop visited half-edges 0 .. j - 1 of `b`. */
    ghost predicate Twinned(b: Arenas, edgeMap: map<(int, int), nat>, j: nat)
      reads this
    {
      && LinksOk(b) && MapInRange(edgeMap, |b.halfEdges|) && j <= |b.halfEdges|
      && Data() == b.(halfEdges := TwinPass(b, edgeMap, j))
    }

    /** The second loop's body for half-edge `j`: when the map holds its reversed key,
        it takes the mapped half-edge as twin and that one takes it back. */
    method AssignTwin(ghost b: Arenas, edgeMap: map<(int, int), nat>, j: nat)
      requires j < |b.halfEdges| && Twinned(b, edgeMap, j)
      modifies this
      ensures Twinned(b, edgeMap, j + 1)
    {
      var he := halfEdges[j];
      var twinKey := (vertices[halfEdges[he.next].origin].id, vertices[he.origin].id);
      assert twinKey == TwinKeyOf(b, j);
      if twinKey in edgeMap {
        var t := edgeMap[twinKey];
        halfEdges := halfEdges[j := halfEdges[j].(twin := Some(t))];
        halfEdges := halfEdges[t := halfEdges[t].(twin := Some(j))];
      }
    }

    /** loadOBJ on a file that could not be opened (None) reports false and changes
        nothing; otherwise it appends one vertex per `v` line, with the line's
        position, a zero normal and the id `(int)i` of its rank in this file, builds
        the half-edges of the `f` lines and reports true. */
    method LoadObj(file: Option<seq<ObjLine>>) returns (ok: bool)
      requires LinksOk(Data())
      requires file.Some? ==> AllInRange(FaceIndices(file.value), |vertices| + |Positions(file.value)|)
      modifies this
      ensures ok <==> file.Some?
      ensures file.None? ==> Data() == old(Data())
      ensures file.Some? ==> Data() == LoadSpec(old(Data()), file.value)
    {
      if file.None? {
        return false;
      }
      ghost var a0 := Data();
      var tempVertices, faceIndices := ReadObjLines(file.value);
      var i := 0;
      while i < |tempVertices|
        invariant 0 <= i <= |tempVertices|
        invariant Data() == a0.(vertices := a0.vertices + NewVertices(tempVertices[..i]))
      {
        ghost var before := vertices;
        vertices := vertices + [LVertex(tempVertices[i], Zero, None, ToInt32(i))];
        assert NewVertices(tempVertices[..i + 1]) == NewVertices(tempVertices[..i]) + [LVertex(tempVertices[i], Zero, None, ToInt32(i))];
        i := i + 1;
      }
      assert tempVertices[..i] == tempVertices;
      assert forall h :: 0 <= h < |halfEdges| ==> halfEdges[h].origin < |a0.vertices| <= |vertices|;
      BuildHalfEdgeStructure(faceIndices);
      return true;
    }

    /** computeVertexNormals: every vertex normal reset to zero; each face's normal
        computed from its three corners, stored on the face and added to each corner
        in turn; then every vertex normal normalized. */
    method ComputeVertexNormals(faceNormal: (Vec3, Vec3, Vec3) -> Vec3, normalize: Vec3 -> Vec3)
      requires FacesOk(Data())
      modifies this
      ensures Data() == WithNormals(old(Data()), faceNormal, normalize)
    {
      ghost var a0 := Data();
      ResetNormals(a0);
      assert Accumulating(a0, faceNormal, 0);
      var f := 0;
      while f < |faces|
        invariant 0 <= f <= |faces| == |a0.faces| && Accumulating(a0, faceNormal, f)
      {
        AccumulateFace(a0, faceNormal, f);
        f := f + 1;
      }
      NormalizeNormals(a0, faceNormal, normalize);
      assert vertices == WithNormals(a0, faceNormal, normalize).vertices;
      assert faces == WithNormals(a0, faceNormal, normalize).faces;
    }

    /** The first loop of computeVertexNormals: every vertex normal set to zero. */
    method ResetNormals(ghost a0: Arenas)
      requires Zeroed(a0, 0)
      modifies this
      ensures Zeroed(a0, |vertices|)
    {
      var i := 0;
      while i < |vertices|
        invariant 0 <= i && Zeroed(a0, i)
      {
        vertices := vertices[i := vertices[i].(normal := Zero)];
        i := i + 1;
      }
    }

    /** The last loop of computeVertexNormals: every vertex normal normalized. */
    method NormalizeNormals(ghost a0: Arenas, faceNormal: (Vec3, Vec3, Vec3) -> Vec3, normalize: Vec3 -> Vec3)
      requires Normalized(a0, faceNormal, normalize, 0)
      modifies this
      ensures Normalized(a0, faceNormal, normalize, |vertices|)
    {
      var i := 0;
      while i < |vertices|
        invariant 0 <= i && Normalized(a0, faceNormal, normalize, i)
      {
        vertices := vertices[i := vertices[i].(normal := normalize(vertices[i].normal))];
        i := i + 1;
      }
    }

    /** The state once the first loop of computeVertexNormals reset the first `i`
        vertex normals of `a0` to zero. */
    ghost predicate Zeroed(a0: Arenas, i: nat)
      reads this
    {
      && FacesOk(a0) && i <= |vertices| == |a0.vertices|
      && halfEdges == a0.halfEdges && edges == a0.edges && faces == a0.faces
      && forall v :: 0 <= v < |vertices| ==>
           vertices[v] == a0.vertices[v].(normal := if v < i then Zero else a0.vertices[v].normal)
    }

    /** The state once the last loop of computeVertexNormals normalized the first `i`
        accumulated vertex normals. */
    ghost predicate Normalized(a0: Arenas, faceNormal: (Vec3, Vec3, Vec3) -> Vec3, normalize: Vec3 -> Vec3, i: nat)
      reads this
    {
      && FacesOk(a0) && i <= |vertices| == |a0.vertices| && |faces| == |a0.faces|
      && halfEdges == a0.halfEdges && edges == a0.edges
      && (forall f :: 0 <= f < |faces| ==> faces[f] == a0.faces[f].(normal := FaceNormal(a0, faceNormal, f)))
      && forall v :: 0 <= v < |vertices| ==>
           var acc := Accumulated(a0, faceNormal, v, |a0.faces|);
           vertices[v] == a0.vertices[v].(normal := if v < i then normalize(acc) else acc)
    }

    /** The state once the face loop of computeVertexNormals visited the first `k`
        faces of `a0`: those faces hold their normals, every vertex its accumulator,
        and nothing else differs from `a0`. */
    ghost predicate Accumulating(a0: Arenas, faceNormal: (Vec3, Vec3, Vec3) -> Vec3, k: nat)
      reads this
    {
      && FacesOk(a0) && k <= |a0.faces|
      && halfEdges == a0.halfEdges && edges == a0.edges
      && |faces| == |a0.faces| && |vertices| == |a0.vertices|
      && (forall f :: 0 <= f < |faces| ==>
            faces[f] == a0.faces[f].(normal := if f < k then FaceNormal(a0, faceNormal, f) else a0.faces[f].normal))
      && (forall v :: 0 <= v < |vertices| ==>
            vertices[v] == a0.vertices[v].(normal := Accumulated(a0, faceNormal, v, k)))
    }

    /** One pass of the face loop: face `f`'s normal from its corner positions, stored
        on the face and added to the normal of each of its three corners in turn. */
    method AccumulateFace(ghost a0: Arenas, faceNormal: (Vec3, Vec3, Vec3) -> Vec3, f: nat)
      requires f < |a0.faces| && Accumulating(a0, faceNormal, f)
      modifies this
      ensures Accumulating(a0, faceNormal, f + 1)
    {
      var he := faces[f].halfEdge;
      var c0 := halfEdges[he].origin;
      var c1 := halfEdges[halfEdges[he].next].origin;
      var c2 := halfEdges[halfEdges[halfEdges[he].next].next].origin;
      assert Corners(a0, f) == [c0, c1, c2];
      var normal := faceNormal(vertices[c0].position, vertices[c1].position, vertices[c2].position);
      assert normal == FaceNormal(a0, faceNormal, f);
      ghost var before := vertices;
      faces := faces[f := faces[f].(normal := normal)];
      vertices := vertices[c0 := vertices[c0].(normal := Plus(vertices[c0].normal, normal))];
      vertices := vertices[c1 := vertices[c1].(normal := Plus(vertices[c1].normal, normal))];
      vertices := vertices[c2 := vertices[c2].(normal := Plus(vertices[c2].normal, normal))];
      forall v | 0 <= v < |vertices|
        ensures vertices[v] == a0.vertices[v].(normal := Accumulated(a0, faceNormal, v, f + 1))
      {
        AddCorners(before[v].normal, normal, [c0, c1, c2], v);
      }
    }

    /** The do-while walk of main over face `f`'s ring: from the face's half-edge,
        the position and normal of each half-edge's origin, until the walk is back at
        the start. */
    method EmitRing(f: nat) returns (vals: seq<Float>)
      requires TriangleRings(Data()) && f < |faces|
      ensures vals == RingValues(Data(), f)
    {
      var start := faces[f].halfEdge;
      var he := start;
      vals := [];
      ghost var walked := 0;
      while true
        invariant 0 <= walked < 3 && he == RingOf(Data(), f)[walked]
        invariant vals == RingPrefix(Data(), f, walked)
        decreases 3 - walked
      {
        var v := vertices[halfEdges[he].origin];
        vals := vals + (Components(v.position) + Components(v.normal));
        he := halfEdges[he].next;
        walked := walked + 1;
        if he == start {
          break;
        }
      }
    }

    /** main's loop over every face, in order, appending each face's ring. */
    method FlattenFaces() returns (faceVertices: seq<Float>)
      requires TriangleRings(Data())
      ensures faceVertices == Flattened(Data(), |faces|)
    {
      faceVertices := [];
      var f := 0;
      while f < |faces|
        invariant 0 <= f <= |faces| && faceVertices == Flattened(Data(), f)
      {
        var ring := EmitRing(f);
        assert Flattened(Data(), f + 1) == Flattened(Data(), f) + ring;
        faceVertices := faceVertices + ring;
        f := f + 1;
      }
    }
  }
}
