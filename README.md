# Half-edge meshes, Loop subdivision and height-map grids

This project models four pieces of a set of mesh-processing programs and proves properties of the models:

- **The index-based half-edge store.** This is the `Mesh` class of `hwA/A.4/include/Mesh/Mesh.h` and `hwA/A.6/include/Mesh/Mesh.h`.
  - `clearData`, `addVertex` and `addFace`, including the search for opposite half-edges and the sharing of edges.
  - `loadFromFile` over an already tokenised OBJ file.
  - The A.6 constructor with its two flags.
  - The face-selection and ring-walk part of `calcNormal`.
- **Loop subdivision.** These are `addEdgeVertex` and `LoopSubdivideNative` of `hwA/A.4/src/main.cpp`:
  - a canonical edge map that hands out odd-vertex ids;
  - the 1-to-4 split of each triangle;
  - the odd and even vertex rules;
  - the rebuild of the new mesh through `addVertex` and `addFace`.
- **The pointer-linked half-edge builder.** These are `loadOBJ`, `buildHalfEdgeStructure`, `computeVertexNormals` and the face-ring flattening in `main`, in `hwB/B.3/src/main.cpp` and `hwB/B.4/src/main.cpp`.
  - The pointers are re-expressed as indices into four arenas.
  - The arenas are fields of a class, as the source's global vectors are.
- **The height-map grid.** These are the vertex-numbering and triangle-index loops of `TerrainEngine::loadHeightMap` in `hwA/A.6/src/main.cpp`.

Each mutable entity of the source is a Dafny `class`.

- `MeshStore.Mesh` has one `seq` field per `std::vector` of the C++ class.
- `LinkedStore.HalfEdgeMesh` stands for the four global vectors of B.3/B.4.

Each method is proved against a pure specification function of the old state, for example `Data() == AddFaceSpec(old(Data()), vertexIds)`. The properties the source promises are proved as lemmas about those functions:

- ring closure;
- opposite symmetry;
- edges and edge records growing in lockstep;
- the index buffer being the concatenation of all faces' ids;
- the loader's outcome;
- the vertex and face layout of the subdivided mesh;
- the twin assignment;
- the grid numbering.

Where the source works on floating-point vectors, the model uses `Geometry.Vec3`: three reals, plus a `NaN` value that stands for the result of dividing by zero or normalising a zero vector. The vector functions (`normalize(cross(..))`, the `acos` angle, `cos`) are parameters.

Layout:

| file | what it holds |
|---|---|
| `common.dfy` | `INVALID_INDEX` and the integer-width conversions |
| `geometry.dfy` | vector arithmetic |
| `mesh_core.dfy` | the store as a value, and `addVertex`/`addFace` as functions |
| `mesh_wf.dfy` | well-formedness and its preservation |
| `mesh_facts.dfy` | counts, rings, opposites and the index buffer |
| `mesh_load.dfy` | the OBJ loader |
| `normals.dfy` | `calcNormal` |
| `mesh.dfy` | the `Mesh` class |
| `loop_subdivision.dfy` | the edge map, the split and the vertex rules |
| `subdivide.dfy` | `LoopSubdivideNative` as imperative code, and its outcome |
| `linked_half_edge.dfy` | the pointer builder as arenas |
| `linked_store.dfy` | the pointer builder's class |
| `linked_facts.dfy` | the pointer builder's lemmas |
| `height_map.dfy` | the height-map grid |
| `height_map_facts.dfy` | the height-map grid's lemmas |

## Model

| member | source | states |
|---|---|---|
| Common.ToU32 | hwA/A.6/include/Mesh/Mesh.h:121 | storing a size_t id into the `unsigned int` index buffer gives a value below 2^32, equal to the id when the id is below 2^32 |
| Common.ViaInt | hwA/A.4/src/main.cpp:62-73 | an id returned through addEdgeVertex's `int` and widened back is unchanged below 2^31, and becomes a huge size_t for ids in [2^31, 2^32) |
| Geometry.Plus | hwA/A.4/src/main.cpp:142-146 | a vector sum is NaN exactly when an operand is |
| Geometry.Scale | hwA/A.4/src/main.cpp:142-146 | a scaled vector is NaN exactly when the vector is |
| MeshCore.AddVertexSpec | hwA/A.6/include/Mesh/Mesh.h:165-172 | addVertex returns the old vertexElements size; vertices and vertexElements each grow by one and keep their old entries; the new vertex has the given position; the new element is (id, no outgoing, no incoming); nothing else changes |
| MeshCore.FirstFrom | hwA/A.6/include/Mesh/Mesh.h:194-201 | the opposite search stops at the first incoming half-edge that starts at the to-vertex: every candidate before it starts elsewhere, and the search runs to the end when none does |
| MeshCore.AddHalfEdge | hwA/A.6/include/Mesh/Mesh.h:186-225 | one iteration of addFace's loop appends exactly one half-edge and leaves vertices, faces and face records alone |
| MeshCore.AddHalfEdges | hwA/A.6/include/Mesh/Mesh.h:186-225 | k iterations append exactly k half-edges and leave vertices, faces and face records alone |
| MeshCore.AddFaceSpec | hwA/A.6/include/Mesh/Mesh.h:175-232 | addFace returns the old half-edge count, appends N half-edges, one face record (start, vertexIds) and one face, and keeps the vertices |
| MeshCore.U32s | hwA/A.6/include/Mesh/Mesh.h:224 | the index buffer entries of a face are its ids, each narrowed to 32 bits, in order |
| MeshCore.FlatIndices | hwA/A.6/include/Mesh/Mesh.h:224 | every entry of the index buffer fits in 32 bits |
| MeshWellFormed.StepShape | hwA/A.6/include/Mesh/Mesh.h:186-225 | each iteration builds half-edge start+i from vertexIds[i] to vertexIds[(i+1)%N] on the new face, re-links at most the found opposite, shares its edge or creates one, and appends the id to the from-vertex's outgoing and the to-vertex's incoming lists |
| MeshWellFormed.StepKeepsIncidence | hwA/A.6/include/Mesh/Mesh.h:204-205 | after an iteration every half-edge is listed, exactly once, by the vertex it leaves and by the vertex it enters |
| MeshWellFormed.StepKeepsLinks | hwA/A.6/include/Mesh/Mesh.h:186-225 | an iteration keeps the link invariants: endpoints, edges and opposites in range, opposites reversing endpoints, edges owned by their first half-edge, and incidence lists |
| MeshWellFormed.WellFormedIndexable | hwA/A.6/include/Mesh/Mesh.h:175-232 | a well-formed store meets everything addFace indexes |
| MeshWellFormed.AddHalfEdgesKeeps | hwA/A.6/include/Mesh/Mesh.h:186-225 | after k iterations the links hold, existing half-edges differ at most in their opposite link, ring slots 0..k-1 are filled, and the index buffer gained the first k ids |
| MeshWellFormed.RingKept | hwA/A.6/include/Mesh/Mesh.h:197-200 | rewriting only opposite links keeps every existing face ring intact |
| MeshWellFormed.FlatIndicesSnoc | hwA/A.6/include/Mesh/Mesh.h:224-228 | the index buffer of one more face is the old buffer followed by that face's narrowed ids |
| MeshWellFormed.CloseFaceRings | hwA/A.6/include/Mesh/Mesh.h:228-229 | once all N slots are filled, recording the face closes its ring |
| MeshWellFormed.CloseFaceMembers | hwA/A.6/include/Mesh/Mesh.h:228-229 | once the face is recorded, every half-edge lies inside the ring of the face it names |
| MeshWellFormed.LinksIgnoreFaces | hwA/A.6/include/Mesh/Mesh.h:228-229 | appending a face record and a face keeps the link invariants |
| MeshWellFormed.AddFacePreservesWellFormed | hwA/A.6/include/Mesh/Mesh.h:175-232 | addFace on 3 or more existing vertex ids keeps the store well formed |
| MeshWellFormed.EmptyMeshWellFormed | hwA/A.6/include/Mesh/Mesh.h:153-162 | the cleared store is well formed |
| MeshWellFormed.AddVertexPreservesWellFormed | hwA/A.6/include/Mesh/Mesh.h:165-172 | addVertex keeps the store well formed (ids stay dense, containers stay in lockstep) |
| MeshFacts.OppositeLinking | hwA/A.6/include/Mesh/Mesh.h:194-221 | an opposite is found iff some half-edge entering the from-vertex starts at the to-vertex; then both point at each other, reverse endpoints, share the edge (recorded as halfEdge2Id), and no other half-edge changes; otherwise a new edge (new half-edge, INVALID, to, from) and an empty Edge are appended |
| MeshFacts.AddFaceCounts | hwA/A.4/include/Mesh/Mesh.h:161-218 | addFace returns the old half-edge count, appends N half-edges, the N narrowed ids, one face record (start, ids) and one face, keeps the vertices, and grows edges and edge records together by at most N |
| MeshFacts.SlotsGiveRing | hwA/A.4/include/Mesh/Mesh.h:193-194 | filled slots form the next/prev cycle: next of the last is start, prev of the first is start+N-1 |
| MeshFacts.AddFaceRing | hwA/A.4/include/Mesh/Mesh.h:172-209 | half-edge start+i runs from ids[i] to ids[(i+1)%N] on the new face, next/prev cycle over start..start+N-1, each is listed by both endpoints, and older half-edges change at most in their opposite link |
| MeshFacts.AddHalfEdgesEdgeCount | hwA/A.6/include/Mesh/Mesh.h:211-221 | each iteration allocates at most one edge record |
| MeshFacts.AddHalfEdgesIndices | hwA/A.6/include/Mesh/Mesh.h:224 | k iterations append the first k ids, narrowed, to the index buffer |
| MeshFacts.AddFaceIndices | hwA/A.4/include/Mesh/Mesh.h:208-209 | addFace appends exactly the face's ids, narrowed, to the index buffer |
| MeshFacts.StepKeepsSymmetry | hwA/A.6/include/Mesh/Mesh.h:194-201 | when the new half-edge's direction is unused, an iteration keeps opp(opp(h)) == h for every linked h |
| MeshFacts.SymmetryStep | hwA/A.6/include/Mesh/Mesh.h:194-201 | the same, for the iteration function itself |
| MeshFacts.SideStillUnused | hwA/A.6/include/Mesh/Mesh.h:186-225 | on distinct ids, the half-edges built so far never run along a side still to come |
| MeshFacts.AddHalfEdgesSymmetric | hwA/A.6/include/Mesh/Mesh.h:186-225 | k iterations on manifold input keep opposite links mutual |
| MeshFacts.SymmetryAt | hwA/A.6/include/Mesh/Mesh.h:186-225 | one more iteration on manifold input keeps opposite links mutual |
| MeshFacts.AddFaceKeepsSymmetry | hwA/A.6/include/Mesh/Mesh.h:175-232 | on distinct ids whose sides no half-edge already runs in the same direction, addFace keeps opp(opp(h)) == h |
| MeshFacts.RingWalk | hwA/A.6/include/Mesh/Mesh.h:283-287 | walking next from a face's start visits start+k and reads ids[k] for k < N, and is back at the start after exactly N steps |
| MeshFacts.AddFaceKeepsEdgeCardinality | hwA/A.6/include/Mesh/Mesh.h:175-232 | on manifold input addFace keeps, for every edge, halfEdge2Id the sentinel iff halfEdge1Id has no opposite, and otherwise the two half-edges each other's opposites; the empty store has this property |
| MeshLoad.Step | hwA/A.6/include/Mesh/Mesh.h:356-370 | a `v` record adds one vertex, an `f` record none, other records none |
| MeshLoad.VertexPositions | hwA/A.6/include/Mesh/Mesh.h:356-358 | the vertex records give at most one position per line |
| MeshLoad.FaceIdLists | hwA/A.6/include/Mesh/Mesh.h:359-369 | the face records give at most one id list per line |
| MeshLoad.StepOutcome | hwA/A.6/include/Mesh/Mesh.h:356-370 | one record adds its position to the vertices or its indices minus one to the face records, nothing else |
| MeshLoad.LoadOutcome | hwA/A.6/include/Mesh/Mesh.h:338-374 | loading fails iff some face record holds a 0; otherwise the vertices gain each `v` position and the faces each `f` record's indices minus one, both in file order |
| MeshLoad.StepWellFormed | hwA/A.6/include/Mesh/Mesh.h:356-370 | one record keeps the store well formed and adds at most 3 half-edges and 1 face |
| MeshLoad.LoadKeepsWellFormed | hwA/A.6/include/Mesh/Mesh.h:338-374 | a successful load keeps the store well formed |
| MeshLoad.LoadSpec | hwA/A.6/include/Mesh/Mesh.h:338-374 | no result only when some face record holds a 0; a result is an indexable store with one more vertex per `v` record |
| Normals.SlotPrev | hwA/A.6/include/Mesh/Mesh.h:207 | prev of ring slot i is slot i-1 (N-1 for i = 0), which ends where slot i starts, on the same face |
| Normals.SlotNext | hwA/A.6/include/Mesh/Mesh.h:208 | next of ring slot i is slot i+1 (0 for the last), which starts where slot i ends, on the same face |
| Normals.SlotTriangle | hwA/A.6/include/Mesh/Mesh.h:207-208 | on a triangle, the slot after i ends where the slot before i starts |
| Normals.RingNeighbours | hwA/A.6/include/Mesh/Mesh.h:306-322 | in a well-formed store, prev and next of h meet it at its endpoints on the same face, whose ids contain both starts; on a triangle prev starts where next ends |
| Normals.FaceIdsInRange | hwA/A.6/include/Mesh/Mesh.h:289-291 | every id a face names is a vertex, so the three position reads are in range |
| Normals.FaceCorners | hwA/A.6/include/Mesh/Mesh.h:278-287 | the face-normal step reads exactly the first three vertex ids of the face |
| Normals.AsWrittenRaysCoincide | hwA/A.6/include/Mesh/Mesh.h:316-322 | as written, both ray ends are the same vertex for every contributing half-edge |
| Normals.RayEnds | hwA/A.6/include/Mesh/Mesh.h:316-322 | the corrected ray ends are vertices of the store |
| Normals.RaysSpanFaceAngle | hwA/A.6/include/Mesh/Mesh.h:316-326 | the corrected rays end at prev's start and h's start, both vertices of h's face; on a triangle the first is the corner after h's end, and with distinct corners the two rays and the apex are three different vertices |
| Normals.TriangleCornersDiffer | hwA/A.6/include/Mesh/Mesh.h:316-326 | on a triangle with distinct corners, prev's start, h's start and h's end are three different vertices |
| Normals.Contributing | hwA/A.6/include/Mesh/Mesh.h:306-317 | an incoming half-edge is kept iff it lies on a face and the half-edge before it has an opposite |
| Normals.AccumulateSkips | hwA/A.6/include/Mesh/Mesh.h:306-328 | skipping the non-contributing incoming half-edges leaves the weighted sum unchanged |
| Normals.AsWrittenSumIsZero | hwA/A.6/include/Mesh/Mesh.h:302-332 | as written, every vertex accumulates the zero vector whenever the angle of coinciding rays is 0, as it is in exact arithmetic |
| Normals.FaceNormals | hwA/A.6/include/Mesh/Mesh.h:276-299 | one normal per face |
| Normals.IncomingInRange | hwA/A.6/include/Mesh/Mesh.h:306-307 | every incoming half-edge a vertex lists is a half-edge of the store |
| Normals.CalcNormalKeepsTopology | hwA/A.6/include/Mesh/Mesh.h:274-334 | calcNormal changes only normals: topology, positions and well-formedness stay |
| Normals.CalcNormalFace | hwA/A.6/include/Mesh/Mesh.h:276-299 | face f's new normal is faceNormal of the positions of its first three ids |
| Normals.CalcNormalVertex | hwA/A.6/include/Mesh/Mesh.h:302-333 | a vertex's new normal is the normalised angle-weighted sum over its contributing incoming half-edges alone |
| Normals.SameTopology | hwA/A.6/include/Mesh/Mesh.h:298 | rewriting face or vertex contents without changing their counts keeps well-formedness |
| Normals.AsWrittenRayEnds | hwA/A.6/include/Mesh/Mesh.h:316-322 | both ray ends the source reads are vertices of the store |
| Normals.Accumulate | hwA/A.6/include/Mesh/Mesh.h:306-328 | the corrected weighted sum is not-a-number only if some face normal is, and is the zero vector when no incoming half-edge contributes |
| Normals.AsWrittenAccumulate | hwA/A.6/include/Mesh/Mesh.h:306-328 | the same two facts for the sum as written |
| Normals.VertexSum | hwA/A.6/include/Mesh/Mesh.h:302-330 | the corrected sum over all incoming half-edges is not-a-number only if some face normal is, and zero for a vertex with no incoming half-edge |
| Normals.AsWrittenVertexSum | hwA/A.6/include/Mesh/Mesh.h:302-330 | the same two facts for the sum as written |
| Normals.CalcNormalSpec | hwA/A.6/include/Mesh/Mesh.h:274-334 | the corrected calcNormal changes only normals: the topology, the counts and every position stay |
| Normals.AsWrittenCalcNormalSpec | hwA/A.6/include/Mesh/Mesh.h:274-334 | calcNormal as written changes only normals: the topology, the counts and every position stay |
| Normals.AsWrittenCalcNormalDegenerate | hwA/A.6/include/Mesh/Mesh.h:274-334 | as written, with face normals that are numbers and angle 0 between coinciding rays (exact arithmetic), every vertex normal is normalize of the zero vector on every mesh, and the face normals equal the corrected pass's |
| MeshStore.HalfEdgesNext | hwA/A.6/include/Mesh/Mesh.h:186-225 | iteration i may run after the first i and extends them to i+1 |
| MeshStore.OpenedLoads | hwA/A.6/include/Mesh/Mesh.h:138-143 | a loadable file loads into a fresh store and leaves it well formed; a file that does not open leaves it empty |
| MeshStore.Opened | hwA/A.6/include/Mesh/Mesh.h:138-143 | a file that does not open leaves the cleared store; otherwise the store holds exactly the file's `v` positions and its `f` id lists, in file order |
| MeshStore.OpenedIsLoaded | hwA/A.6/include/Mesh/Mesh.h:138-143 | the opened store is the cleared store when the file does not open, and otherwise the value loading the file into the cleared store yields |
| MeshStore.Mesh.LoadFresh | hwA/A.6/include/Mesh/Mesh.h:139-143 | loading a loadable file into a cleared store leaves exactly the opened store, well formed, with the buffers untouched |
| MeshStore.Mesh.ClearData | hwA/A.6/include/Mesh/Mesh.h:153-162 | every container becomes empty; the uploaded buffers stay |
| MeshStore.Mesh.AddVertex | hwA/A.6/include/Mesh/Mesh.h:165-172 | the new state and returned id are those of AddVertexSpec |
| MeshStore.Mesh.AddFace | hwA/A.6/include/Mesh/Mesh.h:175-232 | the new state and returned start are those of AddFaceSpec |
| MeshStore.Mesh.AddHalfEdgeLoop | hwA/A.6/include/Mesh/Mesh.h:186-225 | the loop leaves the state of N iterations |
| MeshStore.Mesh.AddFaceStep | hwA/A.6/include/Mesh/Mesh.h:187-224 | one pass leaves the state of AddHalfEdge |
| MeshStore.Mesh.AppendHalfEdge | hwA/A.6/include/Mesh/Mesh.h:211-224 | with an opposite, the edge record gains halfEdge2Id and edges stay; without one, a new edge record (id, INVALID, to, from) and an Edge are appended; the half-edge with that edge and its narrowed from-id are appended |
| MeshStore.Mesh.AddIncidence | hwA/A.6/include/Mesh/Mesh.h:204-205 | the id is appended to from's outgoing list and to's incoming list; nothing else changes |
| MeshStore.Mesh.LinkOpposite | hwA/A.6/include/Mesh/Mesh.h:194-201 | returns the first incoming half-edge of from that starts at to (or INVALID_INDEX), and only that one's opposite is set to the next id |
| MeshStore.Mesh.SetupMesh | hwA/A.6/include/Mesh/Mesh.h:235-263 | the buffers receive the vertices and the index list; the store is unchanged |
| MeshStore.Mesh.LoadFromFile | hwA/A.6/include/Mesh/Mesh.h:338-374 | a file that does not open leaves the store as it is; otherwise ok iff no face index is 0, and then the state is LoadSpec's |
| MeshStore.Mesh.LoadRecord | hwA/A.6/include/Mesh/Mesh.h:352-370 | ok iff the record has no 0, and then the state is Step's; nothing changes otherwise |
| MeshStore.Mesh.LoadFace | hwA/A.6/include/Mesh/Mesh.h:359-369 | ok iff no index is 0, and then addFace ran on the indices minus one |
| MeshStore.Mesh.ZeroBasedIndices | hwA/A.6/include/Mesh/Mesh.h:362-368 | ok iff no index is 0, and then each index is decremented by one |
| MeshStore.Mesh.CalcNormal | hwA/A.6/include/Mesh/Mesh.h:274-334 | the new state is CalcNormalSpec's (face normals from the first three corners, vertex normals from the contributing incoming half-edges, rays corrected) |
| MeshStore.Mesh.ComputeFaceNormals | hwA/A.6/include/Mesh/Mesh.h:276-299 | every face holds its normal and nothing else changes |
| MeshStore.Mesh.FaceNormalOf | hwA/A.6/include/Mesh/Mesh.h:277-295 | the three-step walk yields the face normal of the first three corners |
| MeshStore.Mesh.ComputeVertexNormals | hwA/A.6/include/Mesh/Mesh.h:302-333 | every vertex gets the normalised sum, and nothing else changes |
| MeshStore.Mesh.NormalSum | hwA/A.6/include/Mesh/Mesh.h:303-329 | the inner loop computes VertexSum |
| MeshStore.Mesh.constructor | hwA/A.6/include/Mesh/Mesh.h:128-130 | a new mesh is empty with nothing uploaded |
| MeshStore.Mesh.Open | hwA/A.4/include/Mesh/Mesh.h:132-136 | clear, load and upload: the store is the loaded one and the buffers hold its vertices and indices |
| MeshStore.Mesh.OpenWith | hwA/A.6/include/Mesh/Mesh.h:138-149 | the loaded store is well formed; normals are computed iff the first flag is set; the buffers are uploaded iff the second flag is set, and stay empty otherwise |
| LoopSubdivision.Key | hwA/A.4/src/main.cpp:64-67 | the key holds the two endpoints, the smaller first |
| LoopSubdivision.AddEdgeVertex | hwA/A.4/src/main.cpp:62-74 | the key joins the map; a first sighting records (newIndex, v3, INVALID) and increments newIndex; a later one sets vOpp2 only; other entries are unchanged; the result is vN through an int |
| LoopSubdivision.AddEdgeVertexSymmetric | hwA/A.4/src/main.cpp:64-73 | swapping the endpoints gives the same map, counter and id |
| LoopSubdivision.AddEdgeVertexKeepsTable | hwA/A.4/src/main.cpp:68-73 | the map keeps canonical keys between original vertices with odd ids filling [base, newIndex) one per key; a key gets newIndex iff it is new; existing ids never move |
| LoopSubdivision.SplitFace | hwA/A.4/src/main.cpp:101-126 | a non-triangle leaves the state as it is; a triangle appends 12 ids |
| LoopSubdivision.SplitFaceTable | hwA/A.4/src/main.cpp:107-120 | a triangle keeps the map's invariant and odd ids, adds its three edge keys and at most three new ids |
| LoopSubdivision.SplitFaceEmits | hwA/A.4/src/main.cpp:107-126 | a triangle (v0,v1,v2) with odd ids p, q, r emits (v0,p,r), (p,v1,q), (r,q,v2), (r,p,q), all below the new vertex count |
| LoopSubdivision.SplitFacesShape | hwA/A.4/src/main.cpp:90-127 | the face loop emits 12 ids per triangle, all below the vertex count, which is base plus the number of keys and at most base + 3·triangles |
| LoopSubdivision.SplitFacesCover | hwA/A.4/src/main.cpp:90-127 | every edge of every triangle gets a key |
| LoopSubdivision.TriangleCountBound | hwA/A.4/src/main.cpp:101-104 | the triangles are at most the faces |
| LoopSubdivision.OddRuleAffine | hwA/A.4/src/main.cpp:141-148 | both odd-vertex weightings (1/2,1/2 and 3/8,3/8,1/8,1/8) sum to one |
| LoopSubdivision.EvenRuleAffine | hwA/A.4/src/main.cpp:169-176 | both even-vertex weightings (3/4 + 2·1/8, and 1 − nβ + n·β) sum to one |
| LoopSubdivision.WellFormedResolves | hwA/A.4/src/main.cpp:155-158 | in a well-formed mesh every neighbour the even loop reads is a vertex |
| LoopSubdivision.IncomingInteriorKeeps | hwA/A.4/src/main.cpp:157-164 | incoming half-edges on interior edges add no boundary neighbour |
| LoopSubdivision.EvenPositionAgrees | hwA/A.4/src/main.cpp:155-176 | where no boundary edge only enters the vertex (a closed mesh), the corrected even rule equals the rule as written |
| LoopSubdivision.ThreeVerticesBuilt | hwA/A.6/include/Mesh/Mesh.h:165-172 | three addVertex calls give three vertices and nothing else |
| LoopSubdivision.LoneTriangleRing | hwA/A.6/include/Mesh/Mesh.h:186-225 | addFace's loop on [0,1,2] lays down exactly the lone triangle's three half-edges and edges |
| LoopSubdivision.LoneTriangleFace | hwA/A.6/include/Mesh/Mesh.h:175-232 | addFace([0,1,2]) on three vertices builds the lone triangle |
| LoopSubdivision.LoneTriangleWellFormed | hwA/A.6/include/Mesh/Mesh.h:175-232 | the lone triangle is well formed |
| LoopSubdivision.LoneTriangleBuilt | hwA/A.6/include/Mesh/Mesh.h:165-232 | three addVertex calls and addFace([0,1,2]) build exactly the lone triangle |
| LoopSubdivision.LoneTriangleEdges | hwA/A.4/src/main.cpp:68-73 | with one triangle, no edge gets a second opposite, so both edges at corner 0 are boundary edges |
| LoopSubdivision.AsWrittenLoneTriangle | hwA/A.4/src/main.cpp:155-176 | as written, corner 0 of a lone triangle sees one boundary edge, and its even position stays on the x axis |
| LoopSubdivision.CorrectedLoneTriangle | hwA/A.4/src/main.cpp:155-176 | corrected, corner 0 sees both boundary edges and moves to (1/8, 1/8, 0) |
| LoopSubdivision.CorrectedLoneTriangleCorners | hwA/A.4/src/main.cpp:152-178 | corrected, corners 1 and 2 of the lone triangle move to (3/4, 1/8, 0) and (1/8, 3/4, 0) |
| LoopSubdivision.LoneTriangleSplit | hwA/A.4/src/main.cpp:90-127 | the face loop on the lone triangle gives keys (0,1), (1,2), (0,2) with odd ids 3, 4, 5 and no second opposite, and emits (0,3,5), (3,1,4), (5,4,2), (5,3,4) |
| LoopSubdivision.SplitFaces | hwA/A.4/src/main.cpp:90-127 | the face loop emits 12 ids per triangle and hands out between 0 and 3 new ids per triangle after `base` |
| LoopSubdivision.OddRule | hwA/A.4/src/main.cpp:138-148 | the odd vertex is not-a-number exactly when an endpoint is, or, on an interior edge, an opposite corner is |
| LoopSubdivision.OddPosition | hwA/A.4/src/main.cpp:130-148 | a boundary key's odd vertex is the midpoint of its endpoints, and the rule does not depend on the order of the endpoints |
| LoopSubdivision.EvenRule | hwA/A.4/src/main.cpp:169-176 | with two boundary neighbours the result is a number iff the vertex and the boundary sum are; with no neighbour it divides by zero (not-a-number); otherwise it is a number iff the vertex and the neighbour sum are |
| LoopSubdivision.OutgoingRing | hwA/A.4/src/main.cpp:155-167 | every outgoing half-edge adds one neighbour, and at most that many are boundary neighbours |
| LoopSubdivision.IncomingBoundary | hwA/A.4/src/main.cpp:155-167 | the corrected addition keeps the neighbour count and sum and adds at most one boundary neighbour per incoming half-edge |
| LoopSubdivision.AsWrittenEvenPosition | hwA/A.4/src/main.cpp:152-178 | as written, a vertex with no outgoing half-edge divides by a zero count and becomes not-a-number |
| LoopSubdivision.EvenPosition | hwA/A.4/src/main.cpp:152-178 | corrected, a vertex with no half-edge at all becomes not-a-number |
| LoopSubdivision.BoundaryCorner | hwA/A.4/src/main.cpp:152-178 | a vertex whose only half-edges are one boundary half-edge out (to a) and one in (from b) moves, by the corrected rule, to 3/4 of its position plus 1/8 of a + b |
| Subdivide.Seeded | hwA/A.4/src/main.cpp:78-82 | addVertex on each position gives one vertex and one element per position and no half-edge or face |
| Subdivide.SeededGrows | hwA/A.4/src/main.cpp:80-82 | one more addVertex extends the seeded store by that position |
| Subdivide.SeededWellFormed | hwA/A.4/src/main.cpp:78-82 | the seeded store is well formed |
| Subdivide.Copied | hwA/A.4/src/main.cpp:108-120 | the positions after the copy and the zero vertices of the face loop number n |
| Subdivide.CopiedGrows | hwA/A.4/src/main.cpp:108-110 | a fresh odd id adds a zero vertex |
| Subdivide.AddTriangles | hwA/A.4/src/main.cpp:182-187 | count addFace calls keep the vertices and add 3·count half-edges and count faces |
| Subdivide.AddTrianglesNext | hwA/A.4/src/main.cpp:183-186 | triple f is added on top of the ones before it |
| Subdivide.AddTrianglesFaces | hwA/A.4/src/main.cpp:182-187 | the faces gained are the triples of the emitted list, in order |
| Subdivide.AddTrianglesWellFormed | hwA/A.4/src/main.cpp:182-187 | adding the triangles keeps the new mesh well formed |
| Subdivide.SubdividableFacts | hwA/A.4/src/main.cpp:77-127 | on acceptable input the face loop's map is canonical, its ids stay below the vertex count, and 12 ids are emitted per triangle |
| Subdivide.SubdivideEvenVertices | hwA/A.4/src/main.cpp:152-179 | every original vertex keeps its id and moves to its even-rule position |
| Subdivide.SubdivideOddVertices | hwA/A.4/src/main.cpp:130-149 | every edge key's odd vertex sits at its odd-rule position, from original positions |
| Subdivide.SubdivideVertices | hwA/A.4/src/main.cpp:77-190 | the result has numVerts + (number of keys) vertices: the originals at even positions, one per key at odd positions, and no other |
| Subdivide.SubdivideFaces | hwA/A.4/src/main.cpp:182-187 | the result has 4 faces per input triangle, each an emitted triple in order |
| Subdivide.SubdivideWellFormed | hwA/A.4/src/main.cpp:77-190 | the subdivided mesh is a well-formed store |
| Subdivide.OddIdsCount | hwA/A.4/src/main.cpp:68-69 | distinct keys have distinct odd ids |
| Subdivide.OddIdsCover | hwA/A.4/src/main.cpp:68-69 | odd ids are handed out without gaps |
| Subdivide.PlacedStep | hwA/A.4/src/main.cpp:130-149 | placing one key changes only its odd vertex, in any map order |
| Subdivide.FaceVertexIds | hwA/A.4/src/main.cpp:92-99 | the do-while walk returns the face's vertex ids |
| Subdivide.AllocateEdge | hwA/A.4/src/main.cpp:107-110 | one addEdgeVertex call plus the zero vertex keep the map invariant and the copied store |
| Subdivide.AddZeroVertex | hwA/A.4/src/main.cpp:108-110 | a zero vertex is appended |
| Subdivide.SplitTriangle | hwA/A.4/src/main.cpp:106-126 | the triangle branch gives SplitFace's result |
| Subdivide.SplitNextFace | hwA/A.4/src/main.cpp:90-127 | one pass extends the face loop by face f |
| Subdivide.SplitAllFaces | hwA/A.4/src/main.cpp:90-127 | the face loop gives SplitFaces of all faces |
| Subdivide.PlaceOddVertex | hwA/A.4/src/main.cpp:130-148 | one key's odd vertex is placed |
| Subdivide.PlaceOddVertices | hwA/A.4/src/main.cpp:130-149 | every key's odd vertex is placed, whatever the map order |
| Subdivide.OutgoingNeighbours | hwA/A.4/src/main.cpp:155-167 | the outgoing loop gives OutgoingRing |
| Subdivide.IncomingBoundaries | hwA/A.4/src/main.cpp:155-167 | the added incoming loop gives IncomingBoundary |
| Subdivide.EvenVertexPosition | hwA/A.4/src/main.cpp:153-176 | the even vertex gets the corrected even-rule position |
| Subdivide.MoveEvenVertices | hwA/A.4/src/main.cpp:152-179 | every original vertex is moved, from original positions |
| Subdivide.AddNextFace | hwA/A.4/src/main.cpp:184-186 | one more triple is added |
| Subdivide.AddNewFaces | hwA/A.4/src/main.cpp:182-187 | all emitted triples are added |
| Subdivide.CopyVertices | hwA/A.4/src/main.cpp:78-82 | the original positions are copied with their ids |
| Subdivide.LoopSubdivideNative | hwA/A.4/src/main.cpp:77-190 | the result is SubdivideSpec of the input, whose vertices, faces and well-formedness the lemmas above state |
| Subdivide.Placed | hwA/A.4/src/main.cpp:130-149 | n positions: the originals unchanged, and each processed key's odd id at that key's odd position |
| Subdivide.Moved | hwA/A.4/src/main.cpp:152-179 | moving the first `evens` vertices keeps the length and every later position |
| Subdivide.SubdivideSpec | hwA/A.4/src/main.cpp:77-190 | the subdivided store has one vertex and one vertex element per original vertex and per edge key |
| Subdivide.AsWrittenMoved | hwA/A.4/src/main.cpp:152-179 | the even loop as written keeps the length and every later position |
| Subdivide.AsWrittenSubdivideSpec | hwA/A.4/src/main.cpp:77-190 | the store LoopSubdivideNative returns as written has one vertex per original vertex and per edge key |
| Subdivide.AddTrianglesIgnoresVertices | hwA/A.4/src/main.cpp:182-187 | the addFace calls build the same half-edges, edges, faces and indices whatever the vertex positions |
| Subdivide.AsWrittenSubdivideVertices | hwA/A.4/src/main.cpp:77-190 | as written, the result differs from the corrected one only in the original vertices, each at its as-written even position; the odd vertices and the whole topology are the same |
| Subdivide.SubdivideAgreesAsWritten | hwA/A.4/src/main.cpp:152-179 | where no boundary edge only enters a vertex (a closed mesh among them), the corrected and as-written results are equal |
| Subdivide.LoneTriangleSubdivided | hwA/A.4/src/main.cpp:77-190 | on the lone triangle (0,0,0), (1,0,0), (0,1,0) the corrected result is well formed, with 6 vertices and 4 faces (0,3,5), (3,1,4), (5,4,2), (5,3,4); the odd vertices sit at the edge midpoints and the corners at (1/8,1/8,0), (3/4,1/8,0), (1/8,3/4,0) |
| Subdivide.LoneTriangleSubdividedAsWritten | hwA/A.4/src/main.cpp:152-178 | as written, the lone triangle also gives 6 vertices, but corner 0 stays on the x axis, so the result is not the corrected one |
| LinkedHalfEdge.ToInt32 | hwB/B.4/src/main.cpp:372 | `v->id = i` keeps i below 2^31 and is a 32-bit signed value |
| LinkedHalfEdge.Positions | hwB/B.4/src/main.cpp:351-356 | the `v` lines give at most one position each |
| LinkedHalfEdge.FaceIndices | hwB/B.4/src/main.cpp:357-364 | the `f` lines give at most one triple each |
| LinkedHalfEdge.NewVertices | hwB/B.4/src/main.cpp:369-374 | vertex i gets position i, a zero normal, no half-edge and id (int)i |
| LinkedHalfEdge.AddTriangle | hwB/B.4/src/main.cpp:385-426 | one triple adds 3 half-edges, 3 edges and 1 face, keeps everything stored, and keeps links in range |
| LinkedHalfEdge.AddTriangles | hwB/B.4/src/main.cpp:385-436 | k triples add 3k half-edges, 3k edges and k faces and keep the vertices |
| LinkedHalfEdge.EdgeMap | hwB/B.4/src/main.cpp:429-435 | the map holds only half-edges of this call |
| LinkedHalfEdge.TwinPass | hwB/B.4/src/main.cpp:439-445 | the twin loop changes only twin fields |
| LinkedHalfEdge.BuildSpec | hwB/B.4/src/main.cpp:382-446 | the builder keeps the vertices and links in range, and adds three half-edges, three edges and one face per triple |
| LinkedHalfEdge.KeyOf | hwB/B.4/src/main.cpp:429-431 | when every vertex id is its index, a half-edge's key is its origin and its next's origin |
| LinkedHalfEdge.TwinKeyOf | hwB/B.4/src/main.cpp:440 | when every vertex id is its index, the twin key is the same pair reversed |
| LinkedHalfEdge.LoadSpec | hwB/B.4/src/main.cpp:339-380 | loadOBJ appends one vertex per `v` line and one face and three half-edges per `f` line, and keeps every link in range |
| LinkedHalfEdge.Corners | hwB/B.4/src/main.cpp:457-460 | a face has three corners, all vertices |
| LinkedHalfEdge.Occurrences | hwB/B.4/src/main.cpp:465-467 | a vertex occurs at most three times among a face's corners |
| LinkedHalfEdge.WithNormals | hwB/B.4/src/main.cpp:449-474 | computeVertexNormals leaves half-edges and edges alone and keeps the counts |
| LinkedHalfEdge.Components | hwB/B.4/src/main.cpp:180-186 | a vector gives three floats |
| LinkedHalfEdge.VertexValues | hwB/B.4/src/main.cpp:178-186 | each ring vertex writes six floats |
| LinkedHalfEdge.RingPrefix | hwB/B.4/src/main.cpp:177-188 | n ring vertices write 6n floats |
| LinkedHalfEdge.RingValues | hwB/B.4/src/main.cpp:176-188 | a triangle's ring writes 18 floats |
| LinkedHalfEdge.Flattened | hwB/B.4/src/main.cpp:174-189 | k faces write 18k floats |
| LinkedHalfEdge.RingOf | hwB/B.4/src/main.cpp:176-188 | a face's ring is its half-edge and the next two, back at the start after the third step and not before |
| LinkedStore.ReadObjLines | hwB/B.3/src/main.cpp:369-384 | the loop gives the positions and the triples minus one, in file order |
| LinkedStore.HalfEdgeMesh.constructor | hwB/B.3/src/main.cpp:50-53 | the four arenas start empty |
| LinkedStore.HalfEdgeMesh.AddTriangleRing | hwB/B.3/src/main.cpp:405-446 | one pass gives AddTriangle's arenas and returns he1 |
| LinkedStore.HalfEdgeMesh.BuildHalfEdgeStructure | hwB/B.3/src/main.cpp:401-466 | the arenas become BuildSpec's |
| LinkedStore.HalfEdgeMesh.AddTriangleRings | hwB/B.3/src/main.cpp:404-456 | the first loop gives AddTriangles' arenas and the map of the new half-edges |
| LinkedStore.HalfEdgeMesh.StoreTriangle | hwB/B.3/src/main.cpp:405-455 | one pass adds the triangle and stores its three keys |
| LinkedStore.HalfEdgeMesh.AssignTwins | hwB/B.3/src/main.cpp:459-465 | the second loop gives TwinPass over every half-edge |
| LinkedStore.HalfEdgeMesh.AssignTwin | hwB/B.3/src/main.cpp:460-464 | one half-edge takes the mapped twin, and the twin takes it back |
| LinkedStore.HalfEdgeMesh.LoadObj | hwB/B.3/src/main.cpp:358-399 | an unopened file returns false with nothing changed; otherwise the vertices are appended and the builder runs |
| LinkedStore.HalfEdgeMesh.ComputeVertexNormals | hwB/B.4/src/main.cpp:449-474 | the arenas become WithNormals' |
| LinkedStore.HalfEdgeMesh.ResetNormals | hwB/B.4/src/main.cpp:451-453 | every vertex normal is zeroed |
| LinkedStore.HalfEdgeMesh.NormalizeNormals | hwB/B.4/src/main.cpp:471-473 | every accumulated normal is normalised |
| LinkedStore.HalfEdgeMesh.AccumulateFace | hwB/B.4/src/main.cpp:456-468 | one face stores its normal and adds it to each corner in turn |
| LinkedStore.HalfEdgeMesh.EmitRing | hwB/B.4/src/main.cpp:176-188 | the do-while walk writes RingValues |
| LinkedStore.HalfEdgeMesh.FlattenFaces | hwB/B.4/src/main.cpp:174-189 | the face loop writes Flattened |
| LinkedFacts.AddTrianglesShape | hwB/B.3/src/main.cpp:404-446 | triple i becomes face |faces|+i with half-edges from |halfEdges|+3i cycling he1→he2→he3→he1, origins in triple order, all on that face, face.halfEdge = he1, and its own three new edges; nothing stored before changes |
| LinkedFacts.AddTrianglesCounts | hwB/B.3/src/main.cpp:407-438 | |halfEdges| == |edges| == 3·|faces| is kept |
| LinkedFacts.EdgeMapFacts | hwB/B.3/src/main.cpp:448-455 | the map sends each key to the last half-edge stored under it, and holds every stored key |
| LinkedFacts.EdgeMapExtend | hwB/B.4/src/main.cpp:429-435 | the map of stored half-edges does not change when triangles are added |
| LinkedFacts.EdgeMapAddTriangle | hwB/B.4/src/main.cpp:429-435 | one triangle updates the map at its three keys, in order |
| LinkedFacts.MapInverse | hwB/B.3/src/main.cpp:448-455 | with unique keys, the map sends each half-edge's key back to it |
| LinkedFacts.TwinPassStep | hwB/B.3/src/main.cpp:459-465 | one step sets the visited half-edge's twin and the twin's back-link, and leaves the rest |
| LinkedFacts.TwinPassKeys | hwB/B.3/src/main.cpp:459-465 | every twin set has the reversed key, and every visited half-edge whose reversed key is in the map has one |
| LinkedFacts.TwinPassUnique | hwB/B.3/src/main.cpp:459-465 | with unique keys, the twins are exactly the mapped half-edges of the visited pairs |
| LinkedFacts.AddTrianglesNoTwins | hwB/B.3/src/main.cpp:409-429 | new half-edges have no twin |
| LinkedFacts.BuildKeys | hwB/B.3/src/main.cpp:458-465 | the twin loop changes no key |
| LinkedFacts.BuildParts | hwB/B.3/src/main.cpp:401-466 | the builder is the first loop, its faithful map, and the twin pass over it |
| LinkedFacts.BuildTwins | hwB/B.4/src/main.cpp:439-445 | a half-edge gets a twin iff some half-edge runs the other way between the same ids, and its twin is such a half-edge |
| LinkedFacts.BuildTwinsSymmetric | hwB/B.4/src/main.cpp:439-445 | with unique directed pairs the twins are mutual |
| LinkedFacts.ExampleMap | hwB/B.3/src/main.cpp:453-455 | a later half-edge with the same directed pair overwrites the earlier one |
| LinkedFacts.TwinsCanBeOneSided | hwB/B.3/src/main.cpp:453-464 | with a repeated directed pair, a half-edge can keep a twin that points elsewhere |
| LinkedFacts.LoadVertices | hwB/B.4/src/main.cpp:369-374 | vertex i gets id i, its position, a zero normal and no half-edge |
| LinkedFacts.AddTimesScale | hwB/B.4/src/main.cpp:465-467 | adding a normal c times is adding c times the normal |
| LinkedFacts.OccurrencesCount | hwB/B.4/src/main.cpp:465-467 | Occurrences counts the corner positions equal to v |
| LinkedFacts.AddCorners | hwB/B.4/src/main.cpp:465-467 | the three in-turn additions add the normal once per corner at v |
| LinkedFacts.AccumulatedUntouched | hwB/B.4/src/main.cpp:451-468 | a vertex at no corner keeps the zero accumulator |
| LinkedFacts.FaceFeedsCorners | hwB/B.4/src/main.cpp:456-468 | a face with distinct corners adds its normal to each corner once and to no other vertex |
| LinkedFacts.RingLengthsCount | hwB/B.4/src/main.cpp:174-189 | every ring walk visits three vertices |
| LinkedFacts.DrawCount | hwB/B.4/src/main.cpp:293 | the draw count, buffer length over six, equals the total ring length, 3·|faces| |
| LinkedFacts.BuildRings | hwB/B.4/src/main.cpp:382-446 | built into empty arenas, every face's ring closes after three steps |
| HeightMap.VertexNumberInImage | hwA/A.6/src/main.cpp:154-157 | vertex (row, col) has number row·width + col below width·height |
| HeightMap.Point | hwA/A.6/src/main.cpp:156-158 | a vertex has three coordinates |
| HeightMap.GridPoints | hwA/A.6/src/main.cpp:154-162 | rows rows give 3·rows·width coordinates |
| HeightMap.RowPoints | hwA/A.6/src/main.cpp:155-161 | n vertices give 3n coordinates |
| HeightMap.LowerTriangle | hwA/A.6/src/main.cpp:171-173 | the first triangle of a cell has three indices |
| HeightMap.UpperTriangle | hwA/A.6/src/main.cpp:178-180 | the second triangle of a cell has three indices |
| HeightMap.Cell | hwA/A.6/src/main.cpp:171-180 | a cell pushes six indices |
| HeightMap.RowCells | hwA/A.6/src/main.cpp:169-183 | n cells push 6n indices |
| HeightMap.GridCells | hwA/A.6/src/main.cpp:168-184 | rows rows of width−1 cells push 6·rows·(width−1) indices |
| HeightMap.VRecords | hwA/A.6/src/main.cpp:159 | one `v` record per coordinate triple |
| HeightMap.FRecords | hwA/A.6/src/main.cpp:174 | one `f` record per index triple |
| HeightMap.LoadHeightMap | hwA/A.6/src/main.cpp:132-186 | the coordinates, indices and file are those of the grid: width·height `v` records, then 2·(height−1)·(width−1) `f` records |
| HeightMap.EmitVertices | hwA/A.6/src/main.cpp:154-162 | the vertex loops give GridPoints and its `v` records |
| HeightMap.EmitTriangles | hwA/A.6/src/main.cpp:167-184 | the triangle loops give GridCells and its `f` records after the `v` records |
| HeightMap.EmitVertexRow | hwA/A.6/src/main.cpp:155-161 | one row of vertices is pushed and written |
| HeightMap.EmitVertex | hwA/A.6/src/main.cpp:156-160 | one pixel's coordinates are pushed and written |
| HeightMap.PushVertex | hwA/A.6/src/main.cpp:156-160 | the record written is the triple just pushed, read back at 3·tri_cnt |
| HeightMap.EmitCellRow | hwA/A.6/src/main.cpp:169-183 | one row of cells is pushed and written |
| HeightMap.EmitCell | hwA/A.6/src/main.cpp:171-182 | one cell's two triangles are pushed and written |
| HeightMap.PushTriangle | hwA/A.6/src/main.cpp:171-175 | the record written is the triple just pushed, read back at 3·tri_cnt, each index plus one |
| HeightMapFacts.GridPointsAt | hwA/A.6/src/main.cpp:154-161 | vertex (row, col) sits at number row·width + col |
| HeightMapFacts.GridCellsAt | hwA/A.6/src/main.cpp:168-184 | cell (row, col) sits at cell number row·(width−1) + col |
| HeightMapFacts.CellInImage | hwA/A.6/src/main.cpp:171-180 | a cell's six indices are below width·height |
| HeightMapFacts.GridCellsInImage | hwA/A.6/src/main.cpp:168-184 | every generated index is below width·height |
| HeightMapFacts.CellSplitsAlongDiagonal | hwA/A.6/src/main.cpp:171-180 | the two triangles share the diagonal in opposite directions, each has distinct corners, and together they use exactly the cell's four corners |
| HeightMapFacts.VRecordsAt | hwA/A.6/src/main.cpp:159 | `v` record k holds coordinates 3k, 3k+1, 3k+2 |
| HeightMapFacts.FRecordsAt | hwA/A.6/src/main.cpp:174 | `f` record k holds indices 3k, 3k+1, 3k+2, each plus one |
| HeightMapFacts.VertexRecord | hwA/A.6/src/main.cpp:156-159 | vertex row·width + col is written as (row/height, sample/255, col/width) |
| HeightMapFacts.CellRecords | hwA/A.6/src/main.cpp:171-182 | cell (row, col) is written as `f` records 2m and 2m+1, its two triangles 1-based |
| HeightMapFacts.FaceRecordsOneBased | hwA/A.6/src/main.cpp:174-181 | every `f` record names vertices 1 .. width·height, never 0 |

## Left out

- All OpenGL, GLFW and GLAD work is not modelled: VAO/VBO setup, drawing, shaders, windows and input callbacks. `SetupMesh` keeps only what it copies into the two buffers.
- File and image I/O is not modelled. `ifstream`/`getline` tokenising, `fopen`/`fprintf` formatting and `stbi_load` become sequences of already classified records and bytes. A file that cannot be opened is `None`.
- Floating point is modelled as exact reals plus a `NaN` value. `normalize(cross(..))`, the clamped `acos` angle, `glm::normalize` and `cos` are function parameters. Float and double rounding and the `static_cast<float>` conversions are not modelled.
- MeshStore.Mesh.AddFace: fewer than three ids ends the process in the source, so it is a precondition here.
- MeshStore.Mesh.LoadFromFile: a face index past the declared vertices is undefined behaviour in the source, so it is a precondition. An index 0 ends the process, modelled as `ok == false` (`None` in `LoadSpec`).
- MeshStore.Mesh.OpenWith: requires a file without index 0, because the source ends the process there, and with room for its ids.
- MeshStore.Mesh.Open: requires face indices that name declared vertices.
- MeshWellFormed.AddFacePreservesWellFormed: requires room below `INVALID_INDEX`. A `size_t` container cannot reach that size.
- MeshFacts.AddFaceKeepsSymmetry: opposite symmetry is proved for manifold input only, with distinct ids and no side already run in the same direction. On other input the source can link one half-edge to two opposites.
- Normals.CalcNormalVertex: uses the corrected ray ends (see Findings). The rule as written is kept as `AsWrittenRayEnds` and `AsWrittenAccumulate`.
- Subdivide.LoopSubdivideNative: requires a well-formed mesh whose new vertex ids stay below 2^31. Larger ids pass through addEdgeVertex's `int` return, which `Common.ViaInt` shows wraps to a huge size_t.
- Subdivide.LoopSubdivideNative: uses the corrected even rule (see Findings), which also counts boundary edges that only enter the vertex. The rule as written is `LoopSubdivision.AsWrittenEvenPosition`.
- MeshStore.Mesh.CalcNormal: computes the corrected vertex normals (see Findings), not the ones the source computes. The pass as written is `Normals.AsWrittenCalcNormalSpec`; `Normals.AsWrittenCalcNormalDegenerate` states what it gives.
- MeshStore.Mesh.ComputeVertexNormals: gives every vertex the corrected sum, not the one Mesh.h:302-333 computes. The sum as written is `Normals.AsWrittenVertexSum`.
- MeshStore.Mesh.NormalSum: reads the first ray end as the `toVertexId` of the opposite of `prev` (the corrected end), where Mesh.h:321 reads its `fromVertexId`. The sum as written is `Normals.AsWrittenAccumulate`.
- MeshStore.Mesh.OpenWith: when the normal flag is set, the normals are the corrected ones of `CalcNormal`.
- Subdivide.SubdivideVertices: the original vertices sit at the corrected even positions. The result as written is `Subdivide.AsWrittenSubdivideSpec`, described by `AsWrittenSubdivideVertices`; `SubdivideAgreesAsWritten` shows the two equal when no boundary edge only enters a vertex.
- Subdivide.SubdivideEvenVertices: states the corrected even position, not the outgoing-only count of main.cpp:155-176 (`LoopSubdivision.AsWrittenEvenPosition`).
- Subdivide.MoveEvenVertices: moves each original vertex to the corrected even position; the source's loop gives `Subdivide.AsWrittenMoved`.
- Subdivide.EvenVertexPosition: computes the corrected even position; the source's computation is `LoopSubdivision.AsWrittenEvenPosition`.
- Subdivide.IncomingBoundaries: this loop over the incoming half-edges is the correction and has no counterpart in main.cpp:155-167. Without it the method computes `AsWrittenEvenPosition`.
- Subdivide.PlaceOddVertices: the odd loop's order over the hash map is unspecified. The model picks keys in any order and proves the outcome the same for every order.
- LinkedStore.HalfEdgeMesh.LoadObj: requires face indices within the vertices. Past them the source reads out of bounds, including for an index 0, which becomes −1.
- LinkedStore.HalfEdgeMesh.LoadObj: the string keys `"a_b"` are modelled as integer pairs. Distinct id pairs give distinct strings.
- LinkedFacts.BuildTwinsSymmetric: mutual twins are proved only when no directed pair repeats. `TwinsCanBeOneSided` shows the source breaks the symmetry otherwise.
- LinkedFacts.LoadVertices: vertex ids equal their rank only below 2^31. Beyond that `v->id = i` wraps, as `ToInt32` states.
- The B.3 face colour and the manual `new`/`delete` lifetimes are not modelled. The index arenas take the place of the pointers.
- HeightMap.LoadHeightMap: requires an image of exactly width·height bytes. The NULL result of a failed `stbi_load`, which the source reports and then dereferences, is not modelled.
- HeightMap.LoadHeightMap: the `int` overflow of `row * width + col` is not modelled for very large images.
- The unused payload is not modelled: quadrics, `QBar`, `vBar`, `cost`, `smpfId`, texture coordinates and `deleted` flags. Nothing sets them.
- The A.4 and A.6 copies of `Mesh.h` are the same for `clearData`, `addVertex`, `addFace` and `loadFromFile`, and one model serves both.

## Findings

| source | as written | input that shows it | evidently intended | confidence | as-written member | corrected member |
|---|---|---|---|---|---|---|
| hwA/A.6/include/Mesh/Mesh.h:316-322 | the second ray end is `halfEdges[prev.opposite].fromVertexId`. The opposite of `prev` starts where `prev` ends, which is where `he` starts, so both rays end at `he.fromVertexId`. | any well-formed mesh with two triangles sharing an edge. In exact arithmetic every contributing incoming half-edge gets angle acos(1) = 0, so every vertex sum is the zero vector (`AsWrittenSumIsZero`), and normalising it gives NaN. In float, the dot product of a normalised vector with itself can round just below 1, so the angle weights are rounding noise (0 or about 3.5e-4). The normals are then meaningless, and NaN wherever every angle rounds to 0. | the far end of that opposite (`prev`'s from-vertex), so the rays span the face's interior angle at the vertex | high; not executed | Normals.AsWrittenRaysCoincide | Normals.RaysSpanFaceAngle |
| hwA/A.4/src/main.cpp:155-169 | boundary edges are counted among the outgoing half-edges only | a lone triangle with corners (0,0,0), (1,0,0), (0,1,0). Corner 0 leaves along one boundary edge, and the other boundary edge only enters it. The count is 1, not 2, so the β rule with n = 1 pulls the corner along the x axis. | both boundary edges counted, giving 3/4·V + 1/8·(sum of the two boundary neighbours) = (1/8, 1/8, 0) | high; not executed | LoopSubdivision.AsWrittenLoneTriangle | LoopSubdivision.CorrectedLoneTriangle |
