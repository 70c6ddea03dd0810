// The Mesh class of hwA/A.4 and hwA/A.6 (include/Mesh/Mesh.h): the containers are
// fields that the methods update step by step, as the source does, and every method
// is proved to leave exactly the state the value model in mesh_core.dfy,
// mesh_load.dfy and normals.dfy computes.
module MeshStore {
  import opened Common
  import opened Geometry
  import opened MeshCore
  import opened MeshWellFormed
  import opened MeshFacts
  import opened MeshLoad
  import opened Normals

  /** What one pass of addFace's loop needs: half-edge `start + i` is the next one. */
  ghost predicate StepReady(d: MeshData, vertexIds: seq<nat>, start: nat, i: nat)
  {
    && Indexable(d)
    && 3 <= |vertexIds| && i < |vertexIds| && IdsBelow(vertexIds, |d.vertexElements|)
    && |d.halfEdges| == start + i
  }

  /** Iteration `i` of addFace's loop may run after the first `i`, and extends them. */
  lemma HalfEdgesNext(d: MeshData, vertexIds: seq<nat>, faceId: nat, i: nat)
    requires Indexable(d)
    requires 3 <= |vertexIds| && i < |vertexIds| && IdsBelow(vertexIds, |d.vertexElements|)
    ensures StepReady(AddHalfEdges(d, vertexIds, faceId, i), vertexIds, |d.halfEdges|, i)
    ensures AddHalfEdges(d, vertexIds, faceId, i + 1)
         == AddHalfEdge(AddHalfEdges(d, vertexIds, faceId, i), vertexIds, |d.halfEdges|, faceId, i)
  {
  }

  class Mesh {
    var vertices: seq<Vertex>
    var vertexElements: seq<VertexElement>
    var edges: seq<Edge>
    var edgeElements: seq<EdgeElement>
    var faces: seq<Face>
    var faceElements: seq<FaceElement>
    var halfEdges: seq<HalfEdge>
    var indices: seq<nat>

    /** What setupMesh last copied into the vertex buffer and the element buffer; the
        graphics calls themselves are not modelled. */
    var vertexBuffer: seq<Vertex>
    var elementBuffer: seq<nat>

    /** The containers as one value. */
    function Data(): MeshData
      reads this
    {
      MeshData(vertices, vertexElements, edges, edgeElements, faces, faceElements, halfEdges, indices)
    }

    /** Buffers untouched since the start of the calling method. */
    twostate predicate BuffersKept()
      reads this
    {
      vertexBuffer == old(vertexBuffer) && elementBuffer == old(elementBuffer)
    }

    /** clearData(): every container emptied. */
    method ClearData()
      modifies this
      ensures Data() == EmptyMesh
      ensures BuffersKept()
    {
      vertices := [];
      vertexElements := [];
      edges := [];
      edgeElements := [];
      faces := [];
      faceElements := [];
      halfEdges := [];
      indices := [];
    }

    /** addVertex(position). */
    method AddVertex(position: Vec3) returns (vertexId: nat)
      modifies this
      ensures (Data(), vertexId) == AddVertexSpec(old(Data()), position)
      ensures BuffersKept()
    {
      vertexId := |vertexElements|;
      vertices := vertices + [Vertex(position, Zero)];
      vertexElements := vertexElements + [VertexElement(vertexId, [], [])];
    }

    /** addFace(vertexIds): one half-edge per corner, linked to an opposite half-edge
        found among the incoming half-edges of its start vertex. */
    method AddFace(vertexIds: seq<nat>) returns (startHalfEdgeId: nat)
      requires Indexable(Data())
      requires 3 <= |vertexIds| && IdsBelow(vertexIds, |vertexElements|)
      modifies this
      ensures (Data(), startHalfEdgeId) == AddFaceSpec(old(Data()), vertexIds)
      ensures BuffersKept()
    {
      var faceId := |faceElements|;
      startHalfEdgeId := |halfEdges|;
      AddHalfEdgeLoop(vertexIds, startHalfEdgeId, faceId);
      faceElements := faceElements + [FaceElement(startHalfEdgeId, vertexIds)];
      faces := faces + [Face(Zero)];
    }

    /** addFace's loop: one half-edge per corner, the `i`-th numbered `start + i`. */
    method AddHalfEdgeLoop(vertexIds: seq<nat>, start: nat, faceId: nat)
      requires Indexable(Data())
      requires 3 <= |vertexIds| && IdsBelow(vertexIds, |vertexElements|) && start == |halfEdges|
      modifies this
      ensures Data() == AddHalfEdges(old(Data()), vertexIds, faceId, |vertexIds|)
      ensures BuffersKept()
    {
      ghost var d0 := Data();
      var i := 0;
      while i < |vertexIds|
        invariant 0 <= i <= |vertexIds|
        invariant Data() == AddHalfEdges(d0, vertexIds, faceId, i)
        invariant BuffersKept()
      {
        HalfEdgesNext(d0, vertexIds, faceId, i);
        AddFaceStep(vertexIds, start, faceId, i);
        i := i + 1;
      }
    }

    /** One pass of addFace's loop: half-edge `start + i`, from corner `i` to the next. */
    method AddFaceStep(vertexIds: seq<nat>, start: nat, faceId: nat, i: nat)
      requires StepReady(Data(), vertexIds, start, i)
      modifies this
      ensures Data() == AddHalfEdge(old(Data()), vertexIds, start, faceId, i)
      ensures BuffersKept()
    {
      var numVertices := |vertexIds|;
      var cur := |halfEdges|;
      var from := vertexIds[i];
      var to := vertexIds[(i + 1) % numVertices];
      var opposite := LinkOpposite(from, to);
      AddIncidence(from, to, cur);
      var prev := if i == 0 then cur - 1 + numVertices else cur - 1;
      var next := if i == numVertices - 1 then cur + 1 - numVertices else cur + 1;
      AppendHalfEdge(HalfEdge(cur, 0, prev, next, opposite, to, from, faceId));
    }

    /** The tail of one addFace iteration: the edge is shared with the opposite
        half-edge when there is one and created otherwise, then `he` is appended
        with that edge and its start vertex becomes the next index. */
    method AppendHalfEdge(he: HalfEdge)
      requires he.id == |halfEdges|
      requires he.oppositeHalfEdgeId != INVALID_INDEX ==>
        he.oppositeHalfEdgeId < |halfEdges| && halfEdges[he.oppositeHalfEdgeId].edgeId < |edgeElements|
      modifies this
      ensures var edgeId := if he.oppositeHalfEdgeId != INVALID_INDEX
                            then old(halfEdges[he.oppositeHalfEdgeId].edgeId) else old(|edges|);
        && halfEdges == old(halfEdges) + [he.(edgeId := edgeId)]
        && indices == old(indices) + [ToU32(he.fromVertexId)]
        && (he.oppositeHalfEdgeId != INVALID_INDEX ==>
              edgeElements == old(edgeElements)[edgeId := old(edgeElements[edgeId]).(halfEdge2Id := he.id)]
              && edges == old(edges))
        && (he.oppositeHalfEdgeId == INVALID_INDEX ==>
              edgeElements == old(edgeElements) + [EdgeElement(he.id, INVALID_INDEX, he.toVertexId, he.fromVertexId)]
              && edges == old(edges) + [Edge])
      ensures vertices == old(vertices) && vertexElements == old(vertexElements)
      ensures faces == old(faces) && faceElements == old(faceElements)
      ensures BuffersKept()
    {
      var edgeId;
      if he.oppositeHalfEdgeId != INVALID_INDEX {
        edgeId := halfEdges[he.oppositeHalfEdgeId].edgeId;
        edgeElements := edgeElements[edgeId := edgeElements[edgeId].(halfEdge2Id := he.id)];
      } else {
        edgeId := |edges|;
        edgeElements := edgeElements + [EdgeElement(he.id, INVALID_INDEX, he.toVertexId, he.fromVertexId)];
        edges := edges + [Edge];
      }
      halfEdges := halfEdges + [he.(edgeId := edgeId)];
      indices := indices + [ToU32(he.fromVertexId)];
    }

    /** Half-edge `cur` becomes an outgoing one of `from` and an incoming one of `to`. */
    method AddIncidence(from: nat, to: nat, cur: nat)
      requires from < |vertexElements| && to < |vertexElements|
      modifies this
      ensures var ves1 := old(vertexElements)[from := old(vertexElements)[from].(
                outgoingHalfEdgeIds := old(vertexElements)[from].outgoingHalfEdgeIds + [cur])];
        vertexElements == ves1[to := ves1[to].(incomingHalfEdgeIds := ves1[to].incomingHalfEdgeIds + [cur])]
      ensures Data().(vertexElements := old(vertexElements)) == old(Data())
      ensures BuffersKept()
    {
      vertexElements := vertexElements[from := vertexElements[from].(
        outgoingHalfEdgeIds := vertexElements[from].outgoingHalfEdgeIds + [cur])];
      vertexElements := vertexElements[to := vertexElements[to].(
        incomingHalfEdgeIds := vertexElements[to].incomingHalfEdgeIds + [cur])];
    }

    /** The search for an opposite: the first incoming half-edge of `from` that starts
        at `to` is made to point at the half-edge about to be appended. */
    method LinkOpposite(from: nat, to: nat) returns (opposite: nat)
      requires Indexable(Data()) && from < |vertexElements|
      modifies this
      ensures var incoming := old(vertexElements[from].incomingHalfEdgeIds);
        var k := FirstFrom(old(halfEdges), incoming, to, 0);
        && opposite == (if k < |incoming| then incoming[k] else INVALID_INDEX)
        && halfEdges == (if k < |incoming|
                         then old(halfEdges)[opposite := old(halfEdges)[opposite].(oppositeHalfEdgeId := |old(halfEdges)|)]
                         else old(halfEdges))
      ensures Data().(halfEdges := old(halfEdges)) == old(Data())
      ensures BuffersKept()
    {
      var cur := |halfEdges|;
      opposite := INVALID_INDEX;
      var incoming := vertexElements[from].incomingHalfEdgeIds;
      var j := 0;
      while j < |incoming|
        invariant 0 <= j <= |incoming|
        invariant halfEdges == old(halfEdges) && opposite == INVALID_INDEX
        invariant FirstFrom(halfEdges, incoming, to, 0) == FirstFrom(halfEdges, incoming, to, j)
      {
        var oppositeId := incoming[j];
        if halfEdges[oppositeId].fromVertexId == to {
          opposite := oppositeId;
          halfEdges := halfEdges[oppositeId := halfEdges[oppositeId].(oppositeHalfEdgeId := cur)];
          return;
        }
        j := j + 1;
      }
    }

    /** setupMesh(): upload the vertices and the index list. */
    method SetupMesh()
      modifies this
      ensures Data() == old(Data())
      ensures vertexBuffer == vertices && elementBuffer == indices
    {
      vertexBuffer := vertices;
      elementBuffer := indices;
    }

    /** loadFromFile(filename) over the file's records; None stands for a file that
        does not open, which leaves the mesh as it is. `ok` is false where the source
        terminates the process on a face index 0. */
    method LoadFromFile(file: Option<seq<ObjRecord>>) returns (ok: bool)
      requires Indexable(Data())
      requires file.Some? ==> RefsOk(|vertexElements|, file.value)
      modifies this
      ensures file.None? ==> ok && Data() == old(Data())
      ensures file.Some? ==> ok == LoadSpec(old(Data()), file.value).Some?
      ensures file.Some? && ok ==> Data() == LoadSpec(old(Data()), file.value).value
      ensures BuffersKept()
    {
      if file.None? {
        return true;
      }
      var records := file.value;
      ghost var d0 := Data();
      var i := 0;
      while i < |records|
        invariant 0 <= i <= |records|
        invariant Indexable(Data()) && RefsOk(|vertexElements|, records[i..])
        invariant LoadSpec(d0, records) == LoadSpec(Data(), records[i..])
        invariant BuffersKept()
      {
        var rest := records[i..];
        assert rest[0] == records[i] && rest[1..] == records[i + 1..];
        ok := LoadRecord(records[i]);
        if !ok {
          return;
        }
        i := i + 1;
      }
      return true;
    }

    /** One line of the file: addVertex for `v`, addFace on the indices minus one for
        `f`; `ok` is false, with nothing changed, on an index 0. */
    method LoadRecord(r: ObjRecord) returns (ok: bool)
      requires Indexable(Data()) && RecordOk(|vertexElements|, r)
      modifies this
      ensures ok == !HasZero(r)
      ensures ok ==> Data() == Step(old(Data()), r)
      ensures !ok ==> Data() == old(Data())
      ensures BuffersKept()
    {
      match r {
        case VertexRecord(position) =>
          var _ := AddVertex(position);
          ok := true;
        case FaceRecord(a, b, c) =>
          ok := LoadFace(a, b, c);
        case OtherRecord =>
          ok := true;
      }
    }

    /** An `f` line: its indices made 0-based, then addFace; nothing happens at an
        index 0. */
    method LoadFace(a: nat, b: nat, c: nat) returns (ok: bool)
      requires Indexable(Data())
      requires a == 0 || b == 0 || c == 0 || (a <= |vertexElements| && b <= |vertexElements| && c <= |vertexElements|)
      modifies this
      ensures ok == (a != 0 && b != 0 && c != 0)
      ensures ok ==> IdsBelow([a - 1, b - 1, c - 1], |old(vertexElements)|)
      ensures ok ==> Data() == AddFaceSpec(old(Data()), [a - 1, b - 1, c - 1]).0
      ensures !ok ==> Data() == old(Data())
      ensures BuffersKept()
    {
      var faceVertexIndices;
      ok, faceVertexIndices := ZeroBasedIndices(a, b, c);
      if !ok {
        return;
      }
      var _ := AddFace(faceVertexIndices);
    }

    /** The 1-based indices of an `f` line made 0-based in place; `ok` is false at
        the first index 0, where the source terminates the process. */
    static method ZeroBasedIndices(a: nat, b: nat, c: nat) returns (ok: bool, faceVertexIndices: seq<nat>)
      ensures ok <==> a != 0 && b != 0 && c != 0
      ensures ok ==> faceVertexIndices == [a - 1, b - 1, c - 1]
    {
      faceVertexIndices := [a, b, c];
      var k := 0;
      while k < 3
        invariant 0 <= k <= 3 && |faceVertexIndices| == 3
        invariant forall t :: 0 <= t < k ==> [a, b, c][t] != 0 && faceVertexIndices[t] == [a, b, c][t] - 1
        invariant forall t :: k <= t < 3 ==> faceVertexIndices[t] == [a, b, c][t]
      {
        if faceVertexIndices[k] == 0 {
          return false, faceVertexIndices;
        }
        faceVertexIndices := faceVertexIndices[k := faceVertexIndices[k] - 1];
        k := k + 1;
      }
      assert [a, b, c][0] != 0 && [a, b, c][1] != 0 && [a, b, c][2] != 0;
      assert faceVertexIndices == [a - 1, b - 1, c - 1];
      return true, faceVertexIndices;
    }

    /** calcNormal(): each face's normal from its first three corners, then each
        vertex's normal as the angle-weighted sum over its incoming half-edges, with
        the rays corrected as described in normals.dfy. `faceNormal`, `angle` and
        `normalize` stand for the floating-point vector calls. */
    method CalcNormal(faceNormal: (Vec3, Vec3, Vec3) -> Vec3, angle: (Vec3, Vec3, Vec3) -> real,
                      normalize: Vec3 -> Vec3)
      requires WellFormed(Data())
      modifies this
      ensures Data() == CalcNormalSpec(old(Data()), faceNormal, angle, normalize)
      ensures BuffersKept()
    {
      ghost var d0 := Data();
      ghost var normals := ComputeFaceNormals(faceNormal);
      ComputeVertexNormals(d0, normals, angle, normalize);
    }

    /** The face loop of calcNormal; the normals are also returned. */
    method ComputeFaceNormals(faceNormal: (Vec3, Vec3, Vec3) -> Vec3) returns (ghost normals: seq<Vec3>)
      requires WellFormed(Data())
      modifies this
      ensures normals == FaceNormals(old(Data()), faceNormal)
      ensures |normals| == |old(faceElements)| == |old(faces)|
      ensures Data() == old(Data()).(faces := seq(|normals|, f requires 0 <= f < |normals| => Face(normals[f])))
      ensures BuffersKept()
    {
      ghost var d0 := Data();
      normals := FaceNormals(d0, faceNormal);
      var f := 0;
      while f < |faceElements|
        invariant 0 <= f <= |faceElements|
        invariant vertices == d0.vertices && vertexElements == d0.vertexElements
        invariant edges == d0.edges && edgeElements == d0.edgeElements
        invariant faceElements == d0.faceElements && halfEdges == d0.halfEdges && indices == d0.indices
        invariant |faces| == |d0.faces|
        invariant forall g :: 0 <= g < f ==> faces[g] == Face(normals[g])
        invariant BuffersKept()
      {
        var n := FaceNormalOf(d0, f, faceNormal);
        faces := faces[f := Face(n)];
        f := f + 1;
      }
    }

    /** One face of calcNormal's face loop: walk three steps along `next` from the
        face's start, collecting the from-vertices, and take the normal of their
        positions. */
    method FaceNormalOf(ghost d: MeshData, f: nat, faceNormal: (Vec3, Vec3, Vec3) -> Vec3) returns (n: Vec3)
      requires WellFormed(d) && f < |faceElements|
      requires vertices == d.vertices && faceElements == d.faceElements && halfEdges == d.halfEdges
      ensures n == FaceNormal(d, f, faceNormal)
    {
      var face := faceElements[f];
      assert RingOk(halfEdges, face, f);
      FaceIdsInRange(d, f);
      var halfEdgeId := face.startHalfEdgeId;
      var ids: seq<nat> := [];
      var i := 0;
      while i < 3
        invariant 0 <= i <= 3 && |ids| == i
        invariant halfEdgeId == Follow(halfEdges, face.startHalfEdgeId, i)
        invariant ids == face.vertexIds[..i]
      {
        RingWalk(d, f, i);
        var he := halfEdges[halfEdgeId];
        ids := ids + [he.fromVertexId];
        halfEdgeId := he.nextHalfEdgeId;
        i := i + 1;
      }
      n := faceNormal(vertices[ids[0]].position, vertices[ids[1]].position, vertices[ids[2]].position);
    }

    /** The vertex loop of calcNormal, once the faces hold `normals`: every vertex
        gets the normalized sum `NormalSum` computes. */
    method ComputeVertexNormals(ghost d0: MeshData, ghost normals: seq<Vec3>,
                                angle: (Vec3, Vec3, Vec3) -> real, normalize: Vec3 -> Vec3)
      requires WellFormed(d0) && |normals| == |d0.faceElements|
      requires Data().(faces := d0.faces) == d0
      requires |faces| == |d0.faces| && forall g :: 0 <= g < |faces| ==> faces[g] == Face(normals[g])
      modifies this
      ensures Data() == old(Data()).(vertices := seq(|d0.vertices|, v requires 0 <= v < |d0.vertices| =>
                d0.vertices[v].(normal := normalize(VertexSum(d0, v, normals, angle)))))
      ensures BuffersKept()
    {
      ghost var d1 := Data();
      var vh := 0;
      while vh < |vertexElements|
        invariant 0 <= vh <= |vertexElements| == |vertices| == |d0.vertices|
        invariant Data().(vertices := d0.vertices) == d1
        invariant forall v :: 0 <= v < |vertices| ==> vertices[v].position == d0.vertices[v].position
        invariant forall v :: 0 <= v < vh ==>
          vertices[v] == d0.vertices[v].(normal := normalize(VertexSum(d0, v, normals, angle)))
        invariant forall v :: vh <= v < |vertices| ==> vertices[v] == d0.vertices[v]
        invariant BuffersKept()
      {
        var norm := NormalSum(d0, normals, vh, angle);
        vertices := vertices[vh := vertices[vh].(normal := normalize(norm))];
        vh := vh + 1;
      }
    }

    /** The inner loop of calcNormal's vertex loop: the weighted sum over the incoming
        half-edges of `vh`. */
    method NormalSum(ghost d0: MeshData, ghost normals: seq<Vec3>, vh: nat, angle: (Vec3, Vec3, Vec3) -> real)
      returns (norm: Vec3)
      requires WellFormed(d0) && vh < |d0.vertices| && |normals| == |d0.faceElements|
      requires vertexElements == d0.vertexElements && halfEdges == d0.halfEdges
      requires |vertices| == |d0.vertices|
      requires forall v :: 0 <= v < |vertices| ==> vertices[v].position == d0.vertices[v].position
      requires |faces| == |normals| && forall g :: 0 <= g < |faces| ==> faces[g].normal == normals[g]
      ensures norm == VertexSum(d0, vh, normals, angle)
    {
      IncomingInRange(d0, vh);
      norm := Zero;
      var incoming := vertexElements[vh].incomingHalfEdgeIds;
      var j := 0;
      while j < |incoming|
        invariant 0 <= j <= |incoming|
        invariant norm == Accumulate(d0, vh, incoming[..j], normals, angle)
      {
        assert incoming[..j + 1][..j] == incoming[..j];
        var he := halfEdges[incoming[j]];
        RingNeighbours(d0, incoming[j]);
        var faceId := he.faceId;
        if faceId != INVALID_INDEX {
          var faceNormal := faces[faceId].normal;
          var prevId := halfEdges[he.prevHalfEdgeId].oppositeHalfEdgeId;
          assert HalfEdgeOk(d0, he.prevHalfEdgeId);
          if prevId != INVALID_INDEX {
            var prevHe := halfEdges[prevId];
            var v0 := vertices[vh].position;
            var v1 := vertices[prevHe.toVertexId].position;
            var v2 := vertices[he.fromVertexId].position;
            norm := Plus(norm, Scale(angle(v0, v1, v2), faceNormal));
          }
        }
        j := j + 1;
      }
      assert incoming[..|incoming|] == incoming;
    }

    /** Mesh(): an empty store, nothing uploaded. */
    constructor ()
      ensures Data() == EmptyMesh
      ensures vertexBuffer == [] && elementBuffer == []
    {
      vertices, vertexElements, edges, edgeElements := [], [], [], [];
      faces, faceElements, halfEdges, indices := [], [], [], [];
      vertexBuffer, elementBuffer := [], [];
    }

    /** Mesh(filename) of hwA/A.4: clear, load, upload. */
    constructor Open(file: Option<seq<ObjRecord>>)
      requires file.Some? ==> RefsOk(0, file.value)
      ensures var loaded := if file.None? then Some(EmptyMesh) else LoadSpec(EmptyMesh, file.value);
        loaded.Some? ==> Data() == loaded.value && vertexBuffer == vertices && elementBuffer == indices
    {
      vertices, vertexElements, edges, edgeElements := [], [], [], [];
      faces, faceElements, halfEdges, indices := [], [], [], [];
      vertexBuffer, elementBuffer := [], [];
      new;
      var ok := LoadFromFile(file);
      if ok {
        SetupMesh();
      }
    }

    /** loadFromFile on the cleared store of a constructor. */
    method LoadFresh(file: Option<seq<ObjRecord>>)
      requires Loadable(file) && Data() == EmptyMesh
      modifies this
      ensures Data() == Opened(file) && WellFormed(Data())
      ensures BuffersKept()
    {
      OpenedIsLoaded(file);
      OpenedLoads(file);
      var ok := LoadFromFile(file);
    }

    /** Mesh(filename, needToCalcNormal, setupMesh) of hwA/A.6: clear, load, then
        optionally compute the normals and optionally upload. */
    constructor OpenWith(file: Option<seq<ObjRecord>>, needToCalcNormal: bool, setupMesh: bool,
                         faceNormal: (Vec3, Vec3, Vec3) -> Vec3, angle: (Vec3, Vec3, Vec3) -> real,
                         normalize: Vec3 -> Vec3)
      requires Loadable(file)
      ensures WellFormed(Opened(file))
      ensures Data() == (if needToCalcNormal then CalcNormalSpec(Opened(file), faceNormal, angle, normalize)
                         else Opened(file))
      ensures setupMesh ==> vertexBuffer == vertices && elementBuffer == indices
      ensures !setupMesh ==> vertexBuffer == [] && elementBuffer == []
    {
      vertices, vertexElements, edges, edgeElements := [], [], [], [];
      faces, faceElements, halfEdges, indices := [], [], [], [];
      vertexBuffer, elementBuffer := [], [];
      new;
      LoadFresh(file);
      if needToCalcNormal {
        CalcNormal(faceNormal, angle, normalize);
      }
      if setupMesh {
        SetupMesh();
      }
    }
  }

  /** A file the A.6 constructor can load: indices name vertices declared above
      them, none is 0, and the containers have room for it. */
  ghost predicate Loadable(file: Option<seq<ObjRecord>>)
  {
    file.Some? ==>
      && RefsOk(0, file.value) && Room(EmptyMesh, file.value)
      && forall p :: 0 <= p < |file.value| ==> !HasZero(file.value[p])
  }

  /** The store a fresh mesh holds after loading `file`. */
  ghost function Opened(file: Option<seq<ObjRecord>>): (r: MeshData)
    requires Loadable(file)
    ensures file.None? ==> r == EmptyMesh
    ensures file.Some? ==> Positions(r.vertices) == VertexPositions(file.value)
    ensures file.Some? ==> FaceVertexIds(r.faceElements) == FaceIdLists(file.value)
  {
    EmptyMeshWellFormed();
    WellFormedIndexable(EmptyMesh);
    if file.None? then EmptyMesh
    else
      LoadOutcome(EmptyMesh, file.value);
      assert Positions(EmptyMesh.vertices) == [] && FaceVertexIds(EmptyMesh.faceElements) == [];
      assert [] + VertexPositions(file.value) == VertexPositions(file.value);
      assert [] + FaceIdLists(file.value) == FaceIdLists(file.value);
      LoadSpec(EmptyMesh, file.value).value
  }

  /** A loadable file's load succeeds, and its result is what a fresh mesh holds. */
  lemma OpenedIsLoaded(file: Option<seq<ObjRecord>>)
    requires Loadable(file)
    ensures Indexable(EmptyMesh)
    ensures file.None? ==> Opened(file) == EmptyMesh
    ensures file.Some? ==> LoadSpec(EmptyMesh, file.value).Some? && Opened(file) == LoadSpec(EmptyMesh, file.value).value
  {
    EmptyMeshWellFormed();
    WellFormedIndexable(EmptyMesh);
  }

  /** A loadable file loads into a fresh mesh, and leaves it well formed. */
  lemma OpenedLoads(file: Option<seq<ObjRecord>>)
    requires Loadable(file)
    ensures Indexable(EmptyMesh) && WellFormed(Opened(file))
    ensures file.None? ==> Opened(file) == EmptyMesh
    ensures file.Some? ==> LoadSpec(EmptyMesh, file.value) == Some(Opened(file))
  {
    EmptyMeshWellFormed();
    WellFormedIndexable(EmptyMesh);
    if file.Some? {
      LoadOutcome(EmptyMesh, file.value);
      LoadKeepsWellFormed(EmptyMesh, file.value);
    }
  }
}
