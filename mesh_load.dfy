// loadFromFile of hwA/A.4 and hwA/A.6 (include/Mesh/Mesh.h) over an already
// tokenised file: `v` records become addVertex calls, `f` records become addFace
// calls on their three 1-based indices made 0-based, and an index 0 ends the
// process (here: no result).
module MeshLoad {
  import opened Common
  import opened Geometry
  import opened MeshCore
  import opened MeshWellFormed

  /** One line of a Wavefront OBJ file, classified by its first character. */
  datatype ObjRecord =
    | VertexRecord(position: Vec3)
    | FaceRecord(a: nat, b: nat, c: nat)
    | OtherRecord

  predicate HasZero(r: ObjRecord)
  {
    r.FaceRecord? && (r.a == 0 || r.b == 0 || r.c == 0)
  }

  /** A face record names only vertices among the first `nv`, unless it holds a 0. */
  predicate RecordOk(nv: nat, r: ObjRecord)
  {
    r.FaceRecord? ==> HasZero(r) || (r.a <= nv && r.b <= nv && r.c <= nv)
  }

  /** The number of vertices a record adds. */
  function Added(r: ObjRecord): nat
  {
    if r.VertexRecord? then 1 else 0
  }

  /** Every face record up to the first one holding a 0 names only vertices declared
      above it (`nv` vertices exist before the first record). Indexing past the
      vertices is undefined behaviour in the source, so callers must avoid it. */
  predicate RefsOk(nv: nat, records: seq<ObjRecord>)
    decreases |records|
  {
    records == [] ||
      (RecordOk(nv, records[0]) && (HasZero(records[0]) || RefsOk(nv + Added(records[0]), records[1..])))
  }

  /** One record without a 0: addVertex for `v`, addFace on the indices minus one
      for `f`, nothing for any other line. */
  function Step(d: MeshData, r: ObjRecord): (d1: MeshData)
    requires Indexable(d) && RecordOk(|d.vertexElements|, r) && !HasZero(r)
    ensures Indexable(d1) && |d1.vertexElements| == |d.vertexElements| + Added(r)
  {
    match r
    case VertexRecord(p) => AddVertexSpec(d, p).0
    case FaceRecord(a, b, c) => AddFaceSpec(d, [a - 1, b - 1, c - 1]).0
    case OtherRecord => d
  }

  /** The state after feeding `records` to the loader; None when a face record holds
      the index 0, where the source terminates the process. */
  function LoadSpec(d: MeshData, records: seq<ObjRecord>): (r: Option<MeshData>)
    requires Indexable(d) && RefsOk(|d.vertexElements|, records)
    ensures r.None? ==> exists p :: 0 <= p < |records| && HasZero(records[p])
    ensures r.Some? ==> Indexable(r.value) && |r.value.vertexElements| == |d.vertexElements| + |VertexPositions(records)|
    decreases |records|
  {
    if records == [] then Some(d)
    else if HasZero(records[0]) then None
    else
      var r := LoadSpec(Step(d, records[0]), records[1..]);
      ZeroInRest(records);
      assert VertexPositions(records) == VertexPositions([records[0]]) + VertexPositions(records[1..]) by {
        assert [records[0]][1..] == [];
      }
      r
  }

  /** The positions of the vertex records, in file order. */
  function VertexPositions(records: seq<ObjRecord>): (r: seq<Vec3>)
    ensures |r| <= |records|
  {
    if records == [] then []
    else if records[0].VertexRecord? then [records[0].position] + VertexPositions(records[1..])
    else VertexPositions(records[1..])
  }

  /** The 0-based vertex ids of the face records without a 0, in file order. */
  function FaceIdLists(records: seq<ObjRecord>): (r: seq<seq<nat>>)
    ensures |r| <= |records|
  {
    if records == [] then []
    else if records[0].FaceRecord? && !HasZero(records[0]) then
      [[records[0].a - 1, records[0].b - 1, records[0].c - 1]] + FaceIdLists(records[1..])
    else FaceIdLists(records[1..])
  }

  function FaceVertexIds(faces: seq<FaceElement>): (r: seq<seq<nat>>)
    ensures |r| == |faces|
    ensures forall k :: 0 <= k < |faces| ==> r[k] == faces[k].vertexIds
  {
    if faces == [] then [] else [faces[0].vertexIds] + FaceVertexIds(faces[1..])
  }

  function Positions(vs: seq<Vertex>): (r: seq<Vec3>)
    ensures |r| == |vs|
    ensures forall k :: 0 <= k < |vs| ==> r[k] == vs[k].position
  {
    if vs == [] then [] else [vs[0].position] + Positions(vs[1..])
  }

  lemma {:induction false} ZeroInRest(records: seq<ObjRecord>)
    requires records != [] && !HasZero(records[0])
    ensures (exists p :: 0 <= p < |records| && HasZero(records[p]))
        <==> (exists p :: 0 <= p < |records| - 1 && HasZero(records[1..][p]))
  {
    if exists p :: 0 <= p < |records| && HasZero(records[p]) {
      var p :| 0 <= p < |records| && HasZero(records[p]);
      assert HasZero(records[1..][p - 1]);
    }
  }

  ghost predicate Outcome(d: MeshData, records: seq<ObjRecord>, result: Option<MeshData>)
  {
    && (result.None? <==> exists p :: 0 <= p < |records| && HasZero(records[p]))
    && (result.Some? ==>
          && (forall p :: 0 <= p < |records| ==> !HasZero(records[p]))
          && Positions(result.value.vertices) == Positions(d.vertices) + VertexPositions(records)
          && |result.value.vertexElements| == |d.vertexElements| + |VertexPositions(records)|
          && FaceVertexIds(result.value.faceElements) == FaceVertexIds(d.faceElements) + FaceIdLists(records))
  }

  /** What one record adds to the vertex positions and the face id lists. */
  lemma StepOutcome(d: MeshData, r: ObjRecord)
    requires Indexable(d) && RecordOk(|d.vertexElements|, r) && !HasZero(r)
    ensures Positions(Step(d, r).vertices) == Positions(d.vertices) + VertexPositions([r])
    ensures FaceVertexIds(Step(d, r).faceElements) == FaceVertexIds(d.faceElements) + FaceIdLists([r])
  {
    match r
    case VertexRecord(p) => VertexStepOutcome(d, r);
    case FaceRecord(a, b, c) => FaceStepOutcome(d, r);
    case OtherRecord =>
      assert [r][1..] == [];
      assert Positions(d.vertices) + [] == Positions(d.vertices);
      assert FaceVertexIds(d.faceElements) + [] == FaceVertexIds(d.faceElements);
  }

  lemma VertexStepOutcome(d: MeshData, r: ObjRecord)
    requires Indexable(d) && r.VertexRecord?
    ensures Positions(Step(d, r).vertices) == Positions(d.vertices) + VertexPositions([r])
    ensures FaceVertexIds(Step(d, r).faceElements) == FaceVertexIds(d.faceElements) + FaceIdLists([r])
  {
    assert [r][1..] == [];
    var d1 := AddVertexSpec(d, r.position).0;
    assert Step(d, r) == d1;
    var x := Positions(d1.vertices);
    var y := Positions(d.vertices) + [r.position];
    assert |x| == |y|;
    forall k | 0 <= k < |x| ensures x[k] == y[k] {
      if k < |d.vertices| {
        assert d1.vertices[k] == d1.vertices[..|d.vertices|][k];
      }
    }
    assert x == y;
    assert VertexPositions([r]) == [r.position] + VertexPositions([]);
    assert FaceIdLists([r]) == [];
    assert d1.faceElements == d.faceElements;
    assert FaceVertexIds(d.faceElements) + [] == FaceVertexIds(d.faceElements);
  }

  lemma FaceStepOutcome(d: MeshData, r: ObjRecord)
    requires Indexable(d) && r.FaceRecord? && RecordOk(|d.vertexElements|, r) && !HasZero(r)
    ensures Positions(Step(d, r).vertices) == Positions(d.vertices) + VertexPositions([r])
    ensures FaceVertexIds(Step(d, r).faceElements) == FaceVertexIds(d.faceElements) + FaceIdLists([r])
  {
    assert [r][1..] == [];
    var ids := [r.a - 1, r.b - 1, r.c - 1];
    var d1 := AddFaceSpec(d, ids).0;
    assert Step(d, r) == d1;
    var fs := d1.faceElements;
    assert fs == d.faceElements + [FaceElement(|d.halfEdges|, ids)];
    var x := FaceVertexIds(fs);
    var y := FaceVertexIds(d.faceElements) + [ids];
    assert |x| == |y|;
    forall k | 0 <= k < |x| ensures x[k] == y[k] {
      if k < |d.faceElements| {
        assert fs[k] == d.faceElements[k];
      }
    }
    assert x == y;
    assert FaceIdLists([r]) == [ids] + FaceIdLists([]);
    assert VertexPositions([r]) == [];
    assert Positions(d.vertices) + [] == Positions(d.vertices);
  }

  lemma {:induction false} SplitFirst(records: seq<ObjRecord>)
    requires records != []
    ensures VertexPositions(records) == VertexPositions([records[0]]) + VertexPositions(records[1..])
    ensures FaceIdLists(records) == FaceIdLists([records[0]]) + FaceIdLists(records[1..])
  {
    assert [records[0]][1..] == [];
  }

  /** The loader fails exactly when some face record holds a 0. Otherwise it appends
      one vertex per `v` record, with that record's position, and one face per `f`
      record, holding its indices minus one, both in file order. */
  lemma {:induction false} LoadOutcome(d: MeshData, records: seq<ObjRecord>)
    requires Indexable(d) && RefsOk(|d.vertexElements|, records)
    ensures LoadSpec(d, records).None? <==> exists p :: 0 <= p < |records| && HasZero(records[p])
    ensures LoadSpec(d, records).Some? ==>
      var m := LoadSpec(d, records).value;
      && Positions(m.vertices) == Positions(d.vertices) + VertexPositions(records)
      && |m.vertexElements| == |d.vertexElements| + |VertexPositions(records)|
      && FaceVertexIds(m.faceElements) == FaceVertexIds(d.faceElements) + FaceIdLists(records)
    decreases |records|
  {
    LoadOutcomeInner(d, records);
  }

  lemma {:induction false} LoadOutcomeInner(d: MeshData, records: seq<ObjRecord>)
    requires Indexable(d) && RefsOk(|d.vertexElements|, records)
    ensures Outcome(d, records, LoadSpec(d, records))
    decreases |records|
  {
    if records == [] {
      assert Positions(d.vertices) + [] == Positions(d.vertices);
      assert FaceVertexIds(d.faceElements) + [] == FaceVertexIds(d.faceElements);
    } else if HasZero(records[0]) {
      assert LoadSpec(d, records) == None;
      assert 0 < |records| && HasZero(records[0]);
    } else {
      var d1 := Step(d, records[0]);
      var rest := records[1..];
      assert LoadSpec(d, records) == LoadSpec(d1, rest);
      LoadOutcomeInner(d1, rest);
      OutcomeCons(d, records, LoadSpec(d1, rest));
    }
  }

  lemma OutcomeCons(d: MeshData, records: seq<ObjRecord>, result: Option<MeshData>)
    requires Indexable(d) && records != [] && RecordOk(|d.vertexElements|, records[0]) && !HasZero(records[0])
    requires Outcome(Step(d, records[0]), records[1..], result)
    ensures Outcome(d, records, result)
  {
    var rest := records[1..];
    var d1 := Step(d, records[0]);
    ZeroInRest(records);
    if result.Some? {
      NoZeroCons(records);
      StepOutcome(d, records[0]);
      SplitFirst(records);
      var m := result.value;
      Assoc(Positions(d.vertices), VertexPositions([records[0]]), VertexPositions(rest));
      Assoc(FaceVertexIds(d.faceElements), FaceIdLists([records[0]]), FaceIdLists(rest));
      assert |VertexPositions(records)| == Added(records[0]) + |VertexPositions(rest)|;
    }
  }

  lemma Assoc<T>(a: seq<T>, b: seq<T>, c: seq<T>)
    ensures (a + b) + c == a + (b + c)
  {
  }

  lemma NoZeroCons(records: seq<ObjRecord>)
    requires records != [] && !HasZero(records[0])
    requires forall p :: 0 <= p < |records| - 1 ==> !HasZero(records[1..][p])
    ensures forall p :: 0 <= p < |records| ==> !HasZero(records[p])
  {
    forall p | 0 <= p < |records| ensures !HasZero(records[p]) {
      if p > 0 { assert records[p] == records[1..][p - 1]; }
    }
  }

  /** Room for everything a file of this length could add. */
  ghost predicate Room(d: MeshData, records: seq<ObjRecord>)
  {
    && |d.vertexElements| + |records| + 1 < INVALID_INDEX
    && |d.halfEdges| + 3 * |records| < INVALID_INDEX
    && |d.faceElements| + |records| + 1 < INVALID_INDEX
  }

  lemma RoomShrinks(d: MeshData, d1: MeshData, records: seq<ObjRecord>)
    requires Room(d, records) && records != []
    requires |d1.vertexElements| <= |d.vertexElements| + 1
    requires |d1.halfEdges| <= |d.halfEdges| + 3
    requires |d1.faceElements| <= |d.faceElements| + 1
    ensures Room(d1, records[1..])
  {
  }

  lemma StepWellFormed(d: MeshData, r: ObjRecord)
    requires WellFormed(d) && RecordOk(|d.vertexElements|, r) && !HasZero(r)
    requires |d.vertexElements| + 1 < INVALID_INDEX
    requires |d.halfEdges| + 3 < INVALID_INDEX && |d.faceElements| + 1 < INVALID_INDEX
    ensures Indexable(d)
    ensures WellFormed(Step(d, r))
    ensures |Step(d, r).halfEdges| <= |d.halfEdges| + 3
    ensures |Step(d, r).faceElements| <= |d.faceElements| + 1
  {
    WellFormedIndexable(d);
    if r.VertexRecord? {
      assert WellFormed(AddVertexSpec(d, r.position).0) by {
        AddVertexPreservesWellFormed(d, r.position);
      }
      assert Step(d, r) == AddVertexSpec(d, r.position).0;
    } else if r.FaceRecord? {
      var ids := [r.a - 1, r.b - 1, r.c - 1];
      assert WellFormed(AddFaceSpec(d, ids).0) by {
        AddFacePreservesWellFormed(d, ids);
      }
      assert Step(d, r) == AddFaceSpec(d, ids).0;
    }
  }

  /** Loading keeps the store well formed. */
  lemma {:induction false} LoadKeepsWellFormed(d: MeshData, records: seq<ObjRecord>)
    requires WellFormed(d) && RefsOk(|d.vertexElements|, records) && Room(d, records)
    ensures Indexable(d)
    ensures LoadSpec(d, records).Some? ==> WellFormed(LoadSpec(d, records).value)
    decreases |records|
  {
    WellFormedIndexable(d);
    if records != [] && !HasZero(records[0]) {
      StepWellFormed(d, records[0]);
      var d1 := Step(d, records[0]);
      RoomShrinks(d, d1, records);
      LoadKeepsWellFormed(d1, records[1..]);
    }
  }
}
