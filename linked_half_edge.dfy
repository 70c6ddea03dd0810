// The pointer-linked half-edge structure of hwB/B.3 and hwB/B.4 (src/main.cpp):
// the global `vertices`, `halfEdges`, `edges` and `faces` vectors of pointers
// become four arenas, and every pointer becomes an index into one of them (a null
// pointer is None). This module holds the values and what the builder, the twin
// pass, the normal accumulation and the ring flattening compute; linked_store.dfy
// holds the global state that the source's loops update.
module LinkedHalfEdge {
  import opened Common
  import opened Geometry

  datatype LVertex = LVertex(position: Vec3, normal: Vec3, halfEdge: Option<nat>, id: int)

  datatype LHalfEdge = LHalfEdge(origin: nat, twin: Option<nat>, next: nat, face: nat, edge: nat)

  datatype LEdge = LEdge(halfEdge: nat)

  /** B.4's face carries a normal; B.3's carries a constant display colour instead,
      which is not modelled. */
  datatype LFace = LFace(halfEdge: nat, normal: Vec3)

  datatype Arenas = Arenas(vertices: seq<LVertex>, halfEdges: seq<LHalfEdge>, edges: seq<LEdge>, faces: seq<LFace>)

  /** A `glm::ivec3` of vertex indices. */
  datatype Triple = Triple(x: int, y: int, z: int)

  /** `(int)i` for a size_t `i`: its low 32 bits read as a signed value. */
  function ToInt32(i: nat): (r: int)
    ensures i < 0x8000_0000 ==> r == i
    ensures -0x8000_0000 <= r < 0x8000_0000
  {
    var low := i % U32_MODULUS;
    if low < 0x8000_0000 then low else low - U32_MODULUS
  }

  // ---------------------------------------------------------------------------
  // loadOBJ over already classified lines

  /** A line of the file: `v x y z`, `f a b c` (1-based, read as ints), or other. */
  datatype ObjLine = VLine(position: Vec3) | FLine(a: int, b: int, c: int) | OtherLine

  /** The positions of the `v` lines, in file order. */
  function Positions(lines: seq<ObjLine>): (r: seq<Vec3>)
    ensures |r| <= |lines|
  {
    if lines == [] then []
    else
      var last := lines[|lines| - 1];
      Positions(lines[..|lines| - 1]) + (if last.VLine? then [last.position] else [])
  }

  /** The index triples of the `f` lines, each index minus one, in file order. */
  function FaceIndices(lines: seq<ObjLine>): (r: seq<Triple>)
    ensures |r| <= |lines|
  {
    if lines == [] then []
    else
      var last := lines[|lines| - 1];
      FaceIndices(lines[..|lines| - 1]) + (if last.FLine? then [Triple(last.a - 1, last.b - 1, last.c - 1)] else [])
  }

  /** The vertices created for `ps`: the i-th gets position ps[i], a zero normal, no
      half-edge and id `(int)i`. */
  function NewVertices(ps: seq<Vec3>): (r: seq<LVertex>)
    ensures |r| == |ps|
    ensures forall i :: 0 <= i < |ps| ==> r[i] == LVertex(ps[i], Zero, None, ToInt32(i))
  {
    seq(|ps|, i requires 0 <= i < |ps| => LVertex(ps[i], Zero, None, ToInt32(i)))
  }

  /** Every index lies among the first `n` vertices; past them the source reads out
      of bounds. */
  predicate InRange(t: Triple, n: nat)
  {
    0 <= t.x < n && 0 <= t.y < n && 0 <= t.z < n
  }

  predicate AllInRange(ts: seq<Triple>, n: nat)
  {
    forall i :: 0 <= i < |ts| ==> InRange(ts[i], n)
  }

  // ---------------------------------------------------------------------------
  // buildHalfEdgeStructure, first loop

  /** Every half-edge's `next` and `origin` point into the arenas. */
  ghost predicate LinksOk(a: Arenas)
  {
    forall h :: 0 <= h < |a.halfEdges| ==>
      a.halfEdges[h].next < |a.halfEdges| && a.halfEdges[h].origin < |a.vertices|
  }

  /** One triangle (x, y, z): a face, three half-edges with origins x, y, z cycling
      he1 -> he2 -> he3 -> he1, all on the new face, and three new edges, one each. */
  function AddTriangle(a: Arenas, t: Triple): (r: Arenas)
    requires InRange(t, |a.vertices|)
    ensures r.vertices == a.vertices
    ensures |r.halfEdges| == |a.halfEdges| + 3 && |r.edges| == |a.edges| + 3 && |r.faces| == |a.faces| + 1
    ensures r.halfEdges[..|a.halfEdges|] == a.halfEdges
    ensures r.edges[..|a.edges|] == a.edges && r.faces[..|a.faces|] == a.faces
    ensures LinksOk(a) ==> LinksOk(r)
  {
    var f := |a.faces|;
    var h := |a.halfEdges|;
    var e := |a.edges|;
    a.(halfEdges := a.halfEdges + [LHalfEdge(t.x as nat, None, h + 1, f, e),
                                   LHalfEdge(t.y as nat, None, h + 2, f, e + 1),
                                   LHalfEdge(t.z as nat, None, h, f, e + 2)],
       edges := a.edges + [LEdge(h), LEdge(h + 1), LEdge(h + 2)],
       faces := a.faces + [LFace(h, Zero)])
  }

  /** The first loop after `k` triples. */
  function AddTriangles(a: Arenas, ts: seq<Triple>, k: nat): (r: Arenas)
    requires k <= |ts| && AllInRange(ts, |a.vertices|)
    ensures r.vertices == a.vertices
    ensures |r.halfEdges| == |a.halfEdges| + 3 * k && |r.edges| == |a.edges| + 3 * k
    ensures |r.faces| == |a.faces| + k
    ensures LinksOk(a) ==> LinksOk(r)
    decreases k
  {
    if k == 0 then a else AddTriangle(AddTriangles(a, ts, k - 1), ts[k - 1])
  }

  /** Every vertex's id is its own index, as loadOBJ gives the vertices of a first
      file with fewer than 2^31 vertices. */
  ghost predicate IdsAreIndices(a: Arenas)
  {
    forall i :: 0 <= i < |a.vertices| ==> a.vertices[i].id == i
  }

  /** The map key of half-edge `h`: the ids of its origin and of its next's origin. */
  function KeyOf(a: Arenas, h: nat): (r: (int, int))
    requires LinksOk(a) && h < |a.halfEdges|
    ensures IdsAreIndices(a) ==> r == (a.halfEdges[h].origin, a.halfEdges[a.halfEdges[h].next].origin)
  {
    (a.vertices[a.halfEdges[h].origin].id, a.vertices[a.halfEdges[a.halfEdges[h].next].origin].id)
  }

  /** The key the twin pass looks up for `h`: its own key reversed. */
  function TwinKeyOf(a: Arenas, h: nat): (r: (int, int))
    requires LinksOk(a) && h < |a.halfEdges|
    ensures IdsAreIndices(a) ==> r == (a.halfEdges[a.halfEdges[h].next].origin, a.halfEdges[h].origin)
  {
    (KeyOf(a, h).1, KeyOf(a, h).0)
  }

  /** `edgeMap` after half-edges lo .. hi - 1 were stored in order, each overwriting
      an earlier one with the same key. */
  function EdgeMap(a: Arenas, lo: nat, hi: nat): (m: map<(int, int), nat>)
    requires LinksOk(a) && lo <= hi <= |a.halfEdges|
    ensures forall k :: k in m ==> lo <= m[k] < hi
    decreases hi - lo
  {
    if hi == lo then map[] else EdgeMap(a, lo, hi - 1)[KeyOf(a, hi - 1) := hi - 1]
  }

  // ---------------------------------------------------------------------------
  // buildHalfEdgeStructure, second loop

  ghost predicate MapInRange(m: map<(int, int), nat>, n: nat)
  {
    forall k :: k in m ==> m[k] < n
  }

  /** The half-edges once the twin loop has visited 0 .. j - 1: a visited half-edge
      whose reversed key is in the map takes the mapped half-edge as twin, and that
      half-edge takes it back. Only `twin` fields change. */
  function TwinPass(a: Arenas, m: map<(int, int), nat>, j: nat): (hes: seq<LHalfEdge>)
    requires LinksOk(a) && j <= |a.halfEdges| && MapInRange(m, |a.halfEdges|)
    ensures |hes| == |a.halfEdges|
    ensures forall h :: 0 <= h < |hes| ==> hes[h] == a.halfEdges[h].(twin := hes[h].twin)
    decreases j
  {
    if j == 0 then a.halfEdges
    else
      var p := TwinPass(a, m, j - 1);
      var key := TwinKeyOf(a, j - 1);
      if key in m then
        var t := m[key];
        var p1 := p[j - 1 := p[j - 1].(twin := Some(t))];
        p1[t := p1[t].(twin := Some(j - 1))]
      else p
  }

  /** What buildHalfEdgeStructure leaves: the triangles added, then the twin pass over
      every half-edge of the arena with the map of this call's half-edges. */
  function BuildSpec(a: Arenas, ts: seq<Triple>): (r: Arenas)
    requires LinksOk(a) && AllInRange(ts, |a.vertices|)
    ensures LinksOk(r) && r.vertices == a.vertices
    ensures |r.halfEdges| == |a.halfEdges| + 3 * |ts| && |r.edges| == |a.edges| + 3 * |ts|
    ensures |r.faces| == |a.faces| + |ts|
  {
    var b := AddTriangles(a, ts, |ts|);
    b.(halfEdges := TwinPass(b, EdgeMap(b, |a.halfEdges|, |b.halfEdges|), |b.halfEdges|))
  }

  /** What loadOBJ leaves once the file is open: the new vertices appended, then the
      builder run on the face triples. */
  function LoadSpec(a: Arenas, lines: seq<ObjLine>): (r: Arenas)
    requires LinksOk(a) && AllInRange(FaceIndices(lines), |a.vertices| + |Positions(lines)|)
    ensures LinksOk(r) && r.vertices == a.vertices + NewVertices(Positions(lines))
    ensures |r.faces| == |a.faces| + |FaceIndices(lines)|
    ensures |r.halfEdges| == |a.halfEdges| + 3 * |FaceIndices(lines)|
  {
    var b := a.(vertices := a.vertices + NewVertices(Positions(lines)));
    BuildSpec(b, FaceIndices(lines))
  }

  // ---------------------------------------------------------------------------
  // computeVertexNormals (B.4)

  /** Each face's `halfEdge` and the next two along its ring point into the arenas. */
  ghost predicate FacesOk(a: Arenas)
  {
    LinksOk(a) && forall f :: 0 <= f < |a.faces| ==> a.faces[f].halfEdge < |a.halfEdges|
  }

  /** The origins of a face's half-edge and of the next two along its ring. */
  function Corners(a: Arenas, f: nat): (c: seq<nat>)
    requires FacesOk(a) && f < |a.faces|
    ensures |c| == 3 && forall i :: 0 <= i < 3 ==> c[i] < |a.vertices|
  {
    var h := a.faces[f].halfEdge;
    var h1 := a.halfEdges[h].next;
    [a.halfEdges[h].origin, a.halfEdges[h1].origin, a.halfEdges[a.halfEdges[h1].next].origin]
  }

  /** The face normal: `normalize(cross(v1 - v0, v2 - v0))` on the corner positions,
      which stays a parameter (floating point is not modelled). */
  function FaceNormal(a: Arenas, faceNormal: (Vec3, Vec3, Vec3) -> Vec3, f: nat): Vec3
    requires FacesOk(a) && f < |a.faces|
  {
    var c := Corners(a, f);
    faceNormal(a.vertices[c[0]].position, a.vertices[c[1]].position, a.vertices[c[2]].position)
  }

  /** How many of the corners are `v`. */
  function Occurrences(v: nat, c: seq<nat>): (r: nat)
    ensures r <= |c|
  {
    if c == [] then 0 else Occurrences(v, c[..|c| - 1]) + (if c[|c| - 1] == v then 1 else 0)
  }

  /** `acc` with `n` added `times` times. */
  function AddTimes(acc: Vec3, n: Vec3, times: nat): Vec3
  {
    if times == 0 then acc else Plus(AddTimes(acc, n, times - 1), n)
  }

  /** Vertex `v`'s accumulator once the first `k` faces were visited: zero, then each
      face's normal once per corner of that face at `v`. */
  function Accumulated(a: Arenas, faceNormal: (Vec3, Vec3, Vec3) -> Vec3, v: nat, k: nat): Vec3
    requires FacesOk(a) && k <= |a.faces|
  {
    if k == 0 then Zero
    else AddTimes(Accumulated(a, faceNormal, v, k - 1), FaceNormal(a, faceNormal, k - 1), Occurrences(v, Corners(a, k - 1)))
  }

  /** What computeVertexNormals leaves: each face holds its normal, and each vertex
      the normalized sum of the normals of the faces at its corners (with `normalize`,
      like the face normal, a parameter). Nothing else changes. */
  function WithNormals(a: Arenas, faceNormal: (Vec3, Vec3, Vec3) -> Vec3, normalize: Vec3 -> Vec3): (r: Arenas)
    requires FacesOk(a)
    ensures r.halfEdges == a.halfEdges && r.edges == a.edges
    ensures |r.vertices| == |a.vertices| && |r.faces| == |a.faces|
  {
    a.(vertices := seq(|a.vertices|, v requires 0 <= v < |a.vertices| =>
                         a.vertices[v].(normal := normalize(Accumulated(a, faceNormal, v, |a.faces|)))),
       faces := seq(|a.faces|, f requires 0 <= f < |a.faces| => a.faces[f].(normal := FaceNormal(a, faceNormal, f))))
  }

  // ---------------------------------------------------------------------------
  // Flattening the face rings for drawing (B.4 main)

  /** One float of the vertex buffer. */
  datatype Float = Finite(value: real) | NotANumber

  function Components(v: Vec3): (r: seq<Float>)
    ensures |r| == 3
  {
    if v.NaN? then [NotANumber, NotANumber, NotANumber] else [Finite(v.x), Finite(v.y), Finite(v.z)]
  }

  /** Every face's ring closes after exactly three `next` steps. */
  ghost predicate TriangleRings(a: Arenas)
  {
    && FacesOk(a)
    && forall f :: 0 <= f < |a.faces| ==>
         var h := a.faces[f].halfEdge;
         var h1 := a.halfEdges[h].next;
         var h2 := a.halfEdges[h1].next;
         a.halfEdges[h2].next == h && h1 != h && h2 != h
  }

  /** The six floats written for the ring vertex at half-edge `h`: position, then normal. */
  function VertexValues(a: Arenas, h: nat): (r: seq<Float>)
    requires LinksOk(a) && h < |a.halfEdges|
    ensures |r| == 6
  {
    var v := a.vertices[a.halfEdges[h].origin];
    Components(v.position) + Components(v.normal)
  }

  /** The floats of the first `n` ring vertices of face `f`. */
  function RingPrefix(a: Arenas, f: nat, n: nat): (r: seq<Float>)
    requires TriangleRings(a) && f < |a.faces| && n <= 3
    ensures |r| == 6 * n
  {
    if n == 0 then [] else RingPrefix(a, f, n - 1) + VertexValues(a, RingOf(a, f)[n - 1])
  }

  /** The floats of face `f`'s ring, walked from the face's half-edge. */
  function RingValues(a: Arenas, f: nat): (r: seq<Float>)
    requires TriangleRings(a) && f < |a.faces|
    ensures |r| == 18
  {
    RingPrefix(a, f, 3)
  }

  /** The buffer after the first `k` faces. */
  function Flattened(a: Arenas, k: nat): (r: seq<Float>)
    requires TriangleRings(a) && k <= |a.faces|
    ensures |r| == 18 * k
  {
    if k == 0 then [] else Flattened(a, k - 1) + RingValues(a, k - 1)
  }

  /** The number of ring vertices of the first `k` faces, each ring walked until it
      returns to its start. */
  function RingLengths(a: Arenas, k: nat): nat
    requires TriangleRings(a) && k <= |a.faces|
  {
    if k == 0 then 0 else RingLengths(a, k - 1) + |RingOf(a, k - 1)|
  }

  /** The half-edges of face `f`'s ring, in walking order: from the face's half-edge
      along `next`, back at the start after the third step and not before. */
  function RingOf(a: Arenas, f: nat): (r: seq<nat>)
    requires TriangleRings(a) && f < |a.faces|
    ensures |r| == 3 && forall i :: 0 <= i < |r| ==> r[i] < |a.halfEdges|
    ensures r[0] == a.faces[f].halfEdge && r[1] == a.halfEdges[r[0]].next && r[2] == a.halfEdges[r[1]].next
    ensures a.halfEdges[r[2]].next == r[0] && r[1] != r[0] && r[2] != r[0]
  {
    var h := a.faces[f].halfEdge;
    var h1 := a.halfEdges[h].next;
    [h, h1, a.halfEdges[h1].next]
  }
}
