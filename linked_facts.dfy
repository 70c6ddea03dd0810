// What the pointer-linked builder of hwB/B.3 and hwB/B.4 guarantees: the shape of
// every triangle it adds, which half-edge the edge map keeps per key, which twins
// the twin loop sets, and the counts of the normal accumulation and of the
// flattened vertex buffer.
module LinkedFacts {
  import opened Common
  import opened Geometry
  import opened LinkedHalfEdge

  // ---------------------------------------------------------------------------
  // The first loop

  /** Triangle `t` stored at half-edges h .. h + 2, edges e .. e + 2 and face f. */
  ghost predicate TriangleAt(r: Arenas, h: nat, e: nat, f: nat, t: Triple)
  {
    && h + 3 <= |r.halfEdges| && e + 3 <= |r.edges| && f < |r.faces|
    && r.faces[f] == LFace(h, Zero)
    && r.halfEdges[h].origin == t.x && r.halfEdges[h] == LHalfEdge(r.halfEdges[h].origin, None, h + 1, f, e)
    && r.halfEdges[h + 1].origin == t.y && r.halfEdges[h + 1] == LHalfEdge(r.halfEdges[h + 1].origin, None, h + 2, f, e + 1)
    && r.halfEdges[h + 2].origin == t.z && r.halfEdges[h + 2] == LHalfEdge(r.halfEdges[h + 2].origin, None, h, f, e + 2)
    && r.edges[e] == LEdge(h) && r.edges[e + 1] == LEdge(h + 1) && r.edges[e + 2] == LEdge(h + 2)
  }

  /** A triangle already stored stays as it is when another is added. */
  lemma TriangleAtKept(a: Arenas, t: Triple, h: nat, e: nat, f: nat, u: Triple)
    requires InRange(t, |a.vertices|) && TriangleAt(a, h, e, f, u)
    ensures TriangleAt(AddTriangle(a, t), h, e, f, u)
  {
    var r := AddTriangle(a, t);
    assert r.halfEdges[..|a.halfEdges|] == a.halfEdges;
    assert r.halfEdges[h] == a.halfEdges[h] && r.halfEdges[h + 1] == a.halfEdges[h + 1] && r.halfEdges[h + 2] == a.halfEdges[h + 2];
  }

  /** The triangle just added sits at the old ends of the arenas. */
  lemma TriangleAtNew(p: Arenas, t: Triple)
    requires InRange(t, |p.vertices|)
    ensures TriangleAt(AddTriangle(p, t), |p.halfEdges|, |p.edges|, |p.faces|, t)
  {
  }

  lemma PrefixOfPrefix<T>(a: seq<T>, b: seq<T>, c: seq<T>)
    requires |a| <= |b| <= |c| && c[..|b|] == b && b[..|a|] == a
    ensures c[..|a|] == a
  {
    assert c[..|a|] == c[..|b|][..|a|];
  }

  /** Nothing stored before the first loop changes. */
  lemma {:induction false} AddTrianglesPrefix(a: Arenas, ts: seq<Triple>, k: nat)
    requires k <= |ts| && AllInRange(ts, |a.vertices|)
    ensures var r := AddTriangles(a, ts, k);
      && r.halfEdges[..|a.halfEdges|] == a.halfEdges
      && r.edges[..|a.edges|] == a.edges
      && r.faces[..|a.faces|] == a.faces
    decreases k
  {
    if k > 0 {
      var p := AddTriangles(a, ts, k - 1);
      AddTrianglesPrefix(a, ts, k - 1);
      var r := AddTriangle(p, ts[k - 1]);
      assert AddTriangles(a, ts, k) == r;
      PrefixOfPrefix(a.halfEdges, p.halfEdges, r.halfEdges);
      PrefixOfPrefix(a.edges, p.edges, r.edges);
      PrefixOfPrefix(a.faces, p.faces, r.faces);
    }
  }

  /** The `i`-th triple of the first loop becomes face |faces| + i with half-edges
      starting at |halfEdges| + 3i. */
  lemma {:induction false} AddTrianglesAt(a: Arenas, ts: seq<Triple>, k: nat, i: nat)
    requires i < k <= |ts| && AllInRange(ts, |a.vertices|)
    ensures TriangleAt(AddTriangles(a, ts, k), |a.halfEdges| + 3 * i, |a.edges| + 3 * i, |a.faces| + i, ts[i])
    decreases k
  {
    var p := AddTriangles(a, ts, k - 1);
    if i == k - 1 {
      TriangleAtNew(p, ts[k - 1]);
    } else {
      AddTrianglesAt(a, ts, k - 1, i);
      TriangleAtKept(p, ts[k - 1], |a.halfEdges| + 3 * i, |a.edges| + 3 * i, |a.faces| + i, ts[i]);
    }
    assert AddTriangles(a, ts, k) == AddTriangle(p, ts[k - 1]);
  }

  /** The `i`-th triple of the first loop becomes face |faces| + i with half-edges
      starting at |halfEdges| + 3i, in a `next` cycle, with origins in triple order,
      each with its own new edge; nothing stored before changes. */
  lemma AddTrianglesShape(a: Arenas, ts: seq<Triple>, k: nat)
    requires k <= |ts| && AllInRange(ts, |a.vertices|)
    ensures var r := AddTriangles(a, ts, k);
      && r.halfEdges[..|a.halfEdges|] == a.halfEdges
      && r.edges[..|a.edges|] == a.edges
      && r.faces[..|a.faces|] == a.faces
      && forall i :: 0 <= i < k ==>
           TriangleAt(r, |a.halfEdges| + 3 * i, |a.edges| + 3 * i, |a.faces| + i, ts[i])
  {
    AddTrianglesPrefix(a, ts, k);
    forall i | 0 <= i < k
      ensures TriangleAt(AddTriangles(a, ts, k), |a.halfEdges| + 3 * i, |a.edges| + 3 * i, |a.faces| + i, ts[i])
    {
      AddTrianglesAt(a, ts, k, i);
    }
  }

  /** The arenas keep |halfEdges| == |edges| == 3 |faces| when they started that way. */
  lemma AddTrianglesCounts(a: Arenas, ts: seq<Triple>)
    requires AllInRange(ts, |a.vertices|)
    requires |a.halfEdges| == |a.edges| == 3 * |a.faces|
    ensures var r := AddTriangles(a, ts, |ts|);
      |r.halfEdges| == |r.edges| == 3 * |r.faces| && |r.faces| == |a.faces| + |ts|
  {
  }

  // ---------------------------------------------------------------------------
  // The edge map

  lemma {:induction false} EdgeMapValue(a: Arenas, lo: nat, hi: nat, k: (int, int))
    requires LinksOk(a) && lo <= hi <= |a.halfEdges| && k in EdgeMap(a, lo, hi)
    ensures KeyOf(a, EdgeMap(a, lo, hi)[k]) == k
    decreases hi - lo
  {
    if k != KeyOf(a, hi - 1) {
      EdgeMapValue(a, lo, hi - 1, k);
    }
  }

  lemma {:induction false} EdgeMapLast(a: Arenas, lo: nat, hi: nat, k: (int, int), h: nat)
    requires LinksOk(a) && lo <= hi <= |a.halfEdges| && k in EdgeMap(a, lo, hi)
    requires EdgeMap(a, lo, hi)[k] < h < hi
    ensures KeyOf(a, h) != k
    decreases hi - lo
  {
    if k != KeyOf(a, hi - 1) {
      if h < hi - 1 {
        EdgeMapLast(a, lo, hi - 1, k, h);
      }
    }
  }

  lemma {:induction false} EdgeMapHas(a: Arenas, lo: nat, hi: nat, h: nat)
    requires LinksOk(a) && lo <= h < hi <= |a.halfEdges|
    ensures KeyOf(a, h) in EdgeMap(a, lo, hi)
    decreases hi - lo
  {
    if h < hi - 1 {
      EdgeMapHas(a, lo, hi - 1, h);
    }
  }

  /** A key no stored half-edge has is not in the map. */
  lemma {:induction false} EdgeMapAbsent(a: Arenas, lo: nat, hi: nat, k: (int, int))
    requires LinksOk(a) && lo <= hi <= |a.halfEdges|
    requires forall h :: lo <= h < hi ==> KeyOf(a, h) != k
    ensures k !in EdgeMap(a, lo, hi)
    decreases hi - lo
  {
    if hi > lo {
      EdgeMapAbsent(a, lo, hi - 1, k);
    }
  }

  /** The map sends each key to the LAST half-edge stored under it, and holds the key
      of every half-edge stored. */
  lemma EdgeMapFacts(a: Arenas, lo: nat, hi: nat)
    requires LinksOk(a) && lo <= hi <= |a.halfEdges|
    ensures var m := EdgeMap(a, lo, hi);
      && (forall k :: k in m ==> KeyOf(a, m[k]) == k)
      && (forall k, h :: k in m && m[k] < h < hi ==> KeyOf(a, h) != k)
      && (forall h :: lo <= h < hi ==> KeyOf(a, h) in m)
  {
    var m := EdgeMap(a, lo, hi);
    forall k | k in m ensures KeyOf(a, m[k]) == k {
      EdgeMapValue(a, lo, hi, k);
    }
    forall k, h | k in m && m[k] < h < hi ensures KeyOf(a, h) != k {
      EdgeMapLast(a, lo, hi, k, h);
    }
    forall h | lo <= h < hi ensures KeyOf(a, h) in m {
      EdgeMapHas(a, lo, hi, h);
    }
  }

  /** The map of half-edges already stored does not change when triangles are added. */
  lemma {:induction false} EdgeMapExtend(a: Arenas, b: Arenas, lo: nat, hi: nat)
    requires LinksOk(a) && LinksOk(b) && lo <= hi <= |a.halfEdges| <= |b.halfEdges|
    requires b.vertices == a.vertices && b.halfEdges[..|a.halfEdges|] == a.halfEdges
    ensures EdgeMap(b, lo, hi) == EdgeMap(a, lo, hi)
    decreases hi - lo
  {
    if hi > lo {
      EdgeMapExtend(a, b, lo, hi - 1);
      var h := hi - 1;
      assert b.halfEdges[h] == a.halfEdges[h];
      assert b.halfEdges[b.halfEdges[h].next] == a.halfEdges[a.halfEdges[h].next];
      assert KeyOf(b, h) == KeyOf(a, h);
    }
  }

  /** Storing one triangle's three half-edges updates the map at their three keys, in
      order, and leaves the rest of it as it was. */
  lemma EdgeMapAddTriangle(d: Arenas, t: Triple, lo: nat)
    requires LinksOk(d) && InRange(t, |d.vertices|) && lo <= |d.halfEdges|
    ensures var r := AddTriangle(d, t);
      var h := |d.halfEdges|;
      LinksOk(r) && EdgeMap(r, lo, h + 3) == EdgeMap(d, lo, h)[KeyOf(r, h) := h][KeyOf(r, h + 1) := h + 1][KeyOf(r, h + 2) := h + 2]
  {
    var r := AddTriangle(d, t);
    var h := |d.halfEdges|;
    EdgeMapExtend(d, r, lo, h);
    assert EdgeMap(r, lo, h + 1) == EdgeMap(r, lo, h)[KeyOf(r, h) := h];
    assert EdgeMap(r, lo, h + 2) == EdgeMap(r, lo, h + 1)[KeyOf(r, h + 1) := h + 1];
  }

  // ---------------------------------------------------------------------------
  // The twin loop

  /** The map stands for the arena: it holds every half-edge's key, and sends each
      key to a half-edge with that key. */
  ghost predicate MapFaithful(a: Arenas, m: map<(int, int), nat>)
    requires LinksOk(a)
  {
    && MapInRange(m, |a.halfEdges|)
    && (forall k :: k in m ==> KeyOf(a, m[k]) == k)
    && (forall h :: 0 <= h < |a.halfEdges| ==> KeyOf(a, h) in m)
  }

  ghost predicate NoTwins(hes: seq<LHalfEdge>)
  {
    forall h :: 0 <= h < |hes| ==> hes[h].twin.None?
  }

  /** Every twin set so far has the reversed key, and every visited half-edge whose
      reversed key is in the map has one. */
  ghost predicate TwinsSoFar(a: Arenas, m: map<(int, int), nat>, hes: seq<LHalfEdge>, j: nat)
    requires LinksOk(a) && |hes| == |a.halfEdges|
  {
    forall h :: 0 <= h < |hes| ==> TwinOk(a, m, hes, j, h)
  }

  /** What TwinsSoFar says of one half-edge. */
  ghost predicate TwinOk(a: Arenas, m: map<(int, int), nat>, hes: seq<LHalfEdge>, j: nat, h: nat)
    requires LinksOk(a) && |hes| == |a.halfEdges| && h < |hes|
  {
    TwinFits(a, m, hes[h].twin, j, h)
  }

  /** `twin`, as the twin of `h` once 0 .. j - 1 were visited, has the reversed key,
      and is set if `h` was visited and its reversed key is in the map. */
  ghost predicate TwinFits(a: Arenas, m: map<(int, int), nat>, twin: Option<nat>, j: nat, h: nat)
    requires LinksOk(a) && h < |a.halfEdges|
  {
    && (twin.Some? ==>
          TwinKeyOf(a, h) in m && twin.value < |a.halfEdges| && KeyOf(a, twin.value) == TwinKeyOf(a, h))
    && (h < j && TwinKeyOf(a, h) in m ==> twin.Some?)
  }

  /** The step of TwinPassStep keeps TwinFits. */
  lemma FitsStep(a: Arenas, m: map<(int, int), nat>, c: nat, h: nat, before: Option<nat>, after: Option<nat>)
    requires LinksOk(a) && MapFaithful(a, m) && c < |a.halfEdges| && h < |a.halfEdges|
    requires TwinFits(a, m, before, c, h)
    requires var key := TwinKeyOf(a, c);
      after == if key in m && h == m[key] then Some(c)
               else if key in m && h == c then Some(m[key])
               else before
    ensures TwinFits(a, m, after, c + 1, h)
  {
    var key := TwinKeyOf(a, c);
    if key in m {
      assert KeyOf(a, m[key]) == key;
      assert KeyOf(a, c) in m;
    }
  }

  /** One step of the twin loop, seen from half-edge `x`. */
  lemma TwinPassStep(a: Arenas, m: map<(int, int), nat>, j: nat, x: nat)
    requires LinksOk(a) && 0 < j <= |a.halfEdges| && MapInRange(m, |a.halfEdges|) && x < |a.halfEdges|
    ensures var c := j - 1;
      var key := TwinKeyOf(a, c);
      TwinPass(a, m, j)[x].twin ==
        if key in m && x == m[key] then Some(c)
        else if key in m && x == c then Some(m[key])
        else TwinPass(a, m, c)[x].twin
  {
  }

  lemma {:induction false} TwinPassAt(a: Arenas, m: map<(int, int), nat>, j: nat, h: nat)
    requires LinksOk(a) && j <= |a.halfEdges| && MapFaithful(a, m) && NoTwins(a.halfEdges)
    requires h < |a.halfEdges|
    ensures TwinOk(a, m, TwinPass(a, m, j), j, h)
    decreases j
  {
    if j > 0 {
      TwinPassAt(a, m, j - 1, h);
      TwinPassStep(a, m, j, h);
      FitsStep(a, m, j - 1, h, TwinPass(a, m, j - 1)[h].twin, TwinPass(a, m, j)[h].twin);
    }
  }

  lemma TwinPassKeys(a: Arenas, m: map<(int, int), nat>, j: nat)
    requires LinksOk(a) && j <= |a.halfEdges| && MapFaithful(a, m) && NoTwins(a.halfEdges)
    ensures TwinsSoFar(a, m, TwinPass(a, m, j), j)
  {
    forall h | 0 <= h < |a.halfEdges| ensures TwinOk(a, m, TwinPass(a, m, j), j, h) {
      TwinPassAt(a, m, j, h);
    }
  }

  /** Each key belongs to one half-edge only. */
  ghost predicate UniqueKeys(a: Arenas)
    requires LinksOk(a)
  {
    forall h1, h2 :: 0 <= h1 < |a.halfEdges| && 0 <= h2 < |a.halfEdges| && KeyOf(a, h1) == KeyOf(a, h2) ==> h1 == h2
  }

  /** What ExactTwins says of one half-edge. */
  ghost predicate ExactTwin(a: Arenas, m: map<(int, int), nat>, hes: seq<LHalfEdge>, j: nat, h: nat)
    requires LinksOk(a) && |hes| == |a.halfEdges| && h < |hes|
  {
    hes[h].twin == ExpectedTwin(a, m, j, h)
  }

  /** The twin of `h` once 0 .. j - 1 were visited, when keys are unique. */
  ghost function ExpectedTwin(a: Arenas, m: map<(int, int), nat>, j: nat, h: nat): Option<nat>
    requires LinksOk(a) && h < |a.halfEdges|
  {
    if TwinKeyOf(a, h) in m && (h < j || m[TwinKeyOf(a, h)] < j) then Some(m[TwinKeyOf(a, h)]) else None
  }

  /** The step of TwinPassStep keeps ExactTwin. */
  lemma ExactStep(a: Arenas, m: map<(int, int), nat>, c: nat, h: nat, before: Option<nat>, after: Option<nat>)
    requires LinksOk(a) && MapFaithful(a, m) && MapInverts(a, m) && c < |a.halfEdges| && h < |a.halfEdges|
    requires before == ExpectedTwin(a, m, c, h)
    requires var key := TwinKeyOf(a, c);
      after == if key in m && h == m[key] then Some(c)
               else if key in m && h == c then Some(m[key])
               else before
    ensures after == ExpectedTwin(a, m, c + 1, h)
  {
    var key := TwinKeyOf(a, c);
    if key in m {
      assert KeyOf(a, m[key]) == key;
    }
  }

  /** With unique keys, the twins after visiting 0 .. j - 1 are exactly the mapped
      half-edges of the pairs with a visited member. */
  ghost predicate ExactTwins(a: Arenas, m: map<(int, int), nat>, hes: seq<LHalfEdge>, j: nat)
    requires LinksOk(a) && |hes| == |a.halfEdges|
  {
    forall h :: 0 <= h < |hes| ==> ExactTwin(a, m, hes, j, h)
  }

  /** With unique keys, the map sends each half-edge's key back to it. */
  lemma MapInverse(a: Arenas, m: map<(int, int), nat>, h: nat)
    requires LinksOk(a) && MapFaithful(a, m) && UniqueKeys(a) && h < |a.halfEdges|
    ensures KeyOf(a, h) in m && m[KeyOf(a, h)] == h
  {
    assert KeyOf(a, m[KeyOf(a, h)]) == KeyOf(a, h);
  }

  /** The map sends every half-edge's key back to that half-edge. */
  ghost predicate MapInverts(a: Arenas, m: map<(int, int), nat>)
    requires LinksOk(a)
  {
    forall h :: 0 <= h < |a.halfEdges| ==> KeyOf(a, h) in m && m[KeyOf(a, h)] == h
  }

  lemma {:induction false} TwinPassExactAt(a: Arenas, m: map<(int, int), nat>, j: nat, h: nat)
    requires LinksOk(a) && j <= |a.halfEdges| && MapFaithful(a, m) && NoTwins(a.halfEdges)
    requires MapInverts(a, m) && h < |a.halfEdges|
    ensures ExactTwin(a, m, TwinPass(a, m, j), j, h)
    decreases j
  {
    if j > 0 {
      TwinPassExactAt(a, m, j - 1, h);
      TwinPassStep(a, m, j, h);
      ExactStep(a, m, j - 1, h, TwinPass(a, m, j - 1)[h].twin, TwinPass(a, m, j)[h].twin);
    }
  }

  lemma TwinPassUnique(a: Arenas, m: map<(int, int), nat>, j: nat)
    requires LinksOk(a) && j <= |a.halfEdges| && MapFaithful(a, m) && NoTwins(a.halfEdges)
    requires UniqueKeys(a)
    ensures ExactTwins(a, m, TwinPass(a, m, j), j)
  {
    forall h | 0 <= h < |a.halfEdges| ensures KeyOf(a, h) in m && m[KeyOf(a, h)] == h {
      MapInverse(a, m, h);
    }
    forall h | 0 <= h < |a.halfEdges| ensures ExactTwin(a, m, TwinPass(a, m, j), j, h) {
      TwinPassExactAt(a, m, j, h);
    }
  }

  /** The keys of all half-edges of the arena. */
  ghost function KeySet(a: Arenas): set<(int, int)>
    requires LinksOk(a)
  {
    set h | 0 <= h < |a.halfEdges| :: KeyOf(a, h)
  }

  /** The first loop adds half-edges without twins. */
  lemma {:induction false} AddTrianglesNoTwins(a: Arenas, ts: seq<Triple>, k: nat)
    requires k <= |ts| && AllInRange(ts, |a.vertices|) && NoTwins(a.halfEdges)
    ensures NoTwins(AddTriangles(a, ts, k).halfEdges)
    decreases k
  {
    if k > 0 {
      AddTrianglesNoTwins(a, ts, k - 1);
      var p := AddTriangles(a, ts, k - 1);
      var r := AddTriangle(p, ts[k - 1]);
      assert AddTriangles(a, ts, k) == r;
      forall h | 0 <= h < |r.halfEdges| ensures r.halfEdges[h].twin.None? {
        if h < |p.halfEdges| {
          assert r.halfEdges[h] == r.halfEdges[..|p.halfEdges|][h];
        }
      }
    }
  }

  /** The twin loop changes no key. */
  lemma BuildKeys(a: Arenas, ts: seq<Triple>)
    requires LinksOk(a) && AllInRange(ts, |a.vertices|)
    ensures var b := AddTriangles(a, ts, |ts|);
      var r := BuildSpec(a, ts);
      |r.halfEdges| == |b.halfEdges| &&
      forall h :: 0 <= h < |r.halfEdges| ==> KeyOf(r, h) == KeyOf(b, h)
  {
    var b := AddTriangles(a, ts, |ts|);
    var r := BuildSpec(a, ts);
    forall h | 0 <= h < |r.halfEdges| ensures KeyOf(r, h) == KeyOf(b, h) {
      assert r.halfEdges[h].next == b.halfEdges[h].next;
      assert r.halfEdges[r.halfEdges[h].next].origin == b.halfEdges[b.halfEdges[h].next].origin;
    }
  }

  /** Two arenas over the same half-edges that differ in twins only. */
  ghost predicate SameKeys(b: Arenas, r: Arenas)
    requires LinksOk(b) && LinksOk(r)
  {
    |r.halfEdges| == |b.halfEdges| && forall x :: 0 <= x < |b.halfEdges| ==> KeyOf(r, x) == KeyOf(b, x)
  }

  /** What the builder leaves in empty arenas: the triangles, the map of all of their
      half-edges standing for them, and the twin pass over that map. */
  lemma BuildParts(a: Arenas, ts: seq<Triple>)
    requires LinksOk(a) && AllInRange(ts, |a.vertices|) && a.halfEdges == []
    ensures var b := AddTriangles(a, ts, |ts|);
      var m := EdgeMap(b, 0, |b.halfEdges|);
      var r := BuildSpec(a, ts);
      && LinksOk(b) && MapFaithful(b, m) && NoTwins(b.halfEdges)
      && r.halfEdges == TwinPass(b, m, |b.halfEdges|) && SameKeys(b, r)
  {
    var b := AddTriangles(a, ts, |ts|);
    EdgeMapFacts(b, 0, |b.halfEdges|);
    AddTrianglesNoTwins(a, ts, |ts|);
    BuildKeys(a, ts);
  }

  /** One half-edge of BuildTwins, over the parts BuildParts names. */
  lemma BuiltTwinAt(b: Arenas, m: map<(int, int), nat>, r: Arenas, h: nat)
    requires LinksOk(b) && LinksOk(r) && MapFaithful(b, m) && SameKeys(b, r) && h < |b.halfEdges|
    requires TwinFits(b, m, r.halfEdges[h].twin, |b.halfEdges|, h)
    ensures r.halfEdges[h].twin.Some? <==> TwinKeyOf(r, h) in KeySet(r)
    ensures r.halfEdges[h].twin.Some? ==>
              r.halfEdges[h].twin.value < |r.halfEdges| && KeyOf(r, r.halfEdges[h].twin.value) == TwinKeyOf(r, h)
  {
    assert TwinKeyOf(r, h) == TwinKeyOf(b, h);
    if r.halfEdges[h].twin.Some? {
      var t := r.halfEdges[h].twin.value;
      assert KeyOf(r, t) == KeyOf(b, t);
      assert KeyOf(r, t) in KeySet(r);
    }
    if TwinKeyOf(r, h) in KeySet(r) {
      var g :| 0 <= g < |r.halfEdges| && KeyOf(r, g) == TwinKeyOf(r, h);
      assert KeyOf(b, g) in m;
    }
  }

  /** Built into empty arenas (as main does), a half-edge gets a twin exactly when
      some half-edge runs the other way between the same vertex ids, and its twin is
      always such a half-edge. */
  lemma BuildTwins(a: Arenas, ts: seq<Triple>)
    requires LinksOk(a) && AllInRange(ts, |a.vertices|) && a.halfEdges == []
    ensures var r := BuildSpec(a, ts);
      forall h :: 0 <= h < |r.halfEdges| ==>
        && (r.halfEdges[h].twin.Some? <==> TwinKeyOf(r, h) in KeySet(r))
        && (r.halfEdges[h].twin.Some? ==>
              r.halfEdges[h].twin.value < |r.halfEdges| && KeyOf(r, r.halfEdges[h].twin.value) == TwinKeyOf(r, h))
  {
    var b := AddTriangles(a, ts, |ts|);
    var m := EdgeMap(b, 0, |b.halfEdges|);
    var r := BuildSpec(a, ts);
    BuildParts(a, ts);
    forall h | 0 <= h < |r.halfEdges|
      ensures r.halfEdges[h].twin.Some? <==> TwinKeyOf(r, h) in KeySet(r)
      ensures r.halfEdges[h].twin.Some? ==>
                r.halfEdges[h].twin.value < |r.halfEdges| && KeyOf(r, r.halfEdges[h].twin.value) == TwinKeyOf(r, h)
    {
      TwinPassAt(b, m, |b.halfEdges|, h);
      BuiltTwinAt(b, m, r, h);
    }
  }

  /** One half-edge of BuildTwinsSymmetric, over the parts BuildParts names. */
  lemma MutualTwinAt(b: Arenas, m: map<(int, int), nat>, r: Arenas, h: nat)
    requires LinksOk(b) && LinksOk(r) && MapFaithful(b, m) && MapInverts(b, m) && h < |b.halfEdges|
    requires |r.halfEdges| == |b.halfEdges| && ExactTwin(b, m, r.halfEdges, |b.halfEdges|, h)
    requires r.halfEdges[h].twin.Some? && r.halfEdges[h].twin.value < |b.halfEdges|
    requires ExactTwin(b, m, r.halfEdges, |b.halfEdges|, r.halfEdges[h].twin.value)
    ensures r.halfEdges[r.halfEdges[h].twin.value].twin == Some(h)
  {
    var t := m[TwinKeyOf(b, h)];
    assert KeyOf(b, t) == TwinKeyOf(b, h);
    assert m[KeyOf(b, h)] == h;
  }

  /** When no two half-edges share a directed vertex-id pair (a consistently oriented
      manifold), the twins built into empty arenas are mutual: the twin's twin is the
      half-edge itself. */
  lemma BuildTwinsSymmetric(a: Arenas, ts: seq<Triple>)
    requires LinksOk(a) && AllInRange(ts, |a.vertices|) && a.halfEdges == []
    requires UniqueKeys(BuildSpec(a, ts))
    ensures var r := BuildSpec(a, ts);
      forall h :: 0 <= h < |r.halfEdges| && r.halfEdges[h].twin.Some? ==>
        r.halfEdges[h].twin.value < |r.halfEdges| && r.halfEdges[r.halfEdges[h].twin.value].twin == Some(h)
  {
    var b := AddTriangles(a, ts, |ts|);
    var n := |b.halfEdges|;
    var m := EdgeMap(b, 0, n);
    var r := BuildSpec(a, ts);
    BuildParts(a, ts);
    forall h | 0 <= h < n ensures KeyOf(b, h) in m && m[KeyOf(b, h)] == h {
      assert KeyOf(b, m[KeyOf(b, h)]) == KeyOf(b, h);
      assert KeyOf(r, m[KeyOf(b, h)]) == KeyOf(r, h);
    }
    forall h | 0 <= h < n && r.halfEdges[h].twin.Some?
      ensures r.halfEdges[h].twin.value < n && r.halfEdges[r.halfEdges[h].twin.value].twin == Some(h)
    {
      TwinPassExactAt(b, m, n, h);
      TwinPassExactAt(b, m, n, m[TwinKeyOf(b, h)]);
      MutualTwinAt(b, m, r, h);
    }
  }

  // Three triangles over five vertices whose ids are their indices; the second and
  // the third both run 1 -> 0.
  const ExampleVertices: seq<LVertex> :=
    [LVertex(Zero, Zero, None, 0), LVertex(Zero, Zero, None, 1), LVertex(Zero, Zero, None, 2),
     LVertex(Zero, Zero, None, 3), LVertex(Zero, Zero, None, 4)]
  const ExampleTriples: seq<Triple> := [Triple(0, 1, 2), Triple(1, 0, 3), Triple(1, 0, 4)]
  const ExampleHalfEdges: seq<LHalfEdge> :=
    [LHalfEdge(0, None, 1, 0, 0), LHalfEdge(1, None, 2, 0, 1), LHalfEdge(2, None, 0, 0, 2),
     LHalfEdge(1, None, 4, 1, 3), LHalfEdge(0, None, 5, 1, 4), LHalfEdge(3, None, 3, 1, 5),
     LHalfEdge(1, None, 7, 2, 6), LHalfEdge(0, None, 8, 2, 7), LHalfEdge(4, None, 6, 2, 8)]
  const ExampleKeys: seq<(int, int)> := [(0, 1), (1, 2), (2, 0), (1, 0), (0, 3), (3, 1), (1, 0), (0, 4), (4, 1)]

  lemma ExampleFirstLoop()
    ensures AddTriangles(Arenas(ExampleVertices, [], [], []), ExampleTriples, 3).halfEdges == ExampleHalfEdges
  {
    var a := Arenas(ExampleVertices, [], [], []);
    assert AddTriangles(a, ExampleTriples, 1).halfEdges == ExampleHalfEdges[..3];
    assert AddTriangles(a, ExampleTriples, 2).halfEdges == ExampleHalfEdges[..6];
  }

  lemma ExampleKeyOf(b: Arenas, h: nat)
    requires LinksOk(b) && b.vertices == ExampleVertices && b.halfEdges == ExampleHalfEdges && h < 9
    ensures KeyOf(b, h) == ExampleKeys[h]
  {
  }

  /** A key no half-edge of the example has is not in the map. */
  lemma ExampleAbsent(b: Arenas, k: (int, int))
    requires LinksOk(b) && b.vertices == ExampleVertices && b.halfEdges == ExampleHalfEdges
    requires k !in ExampleKeys
    ensures k !in EdgeMap(b, 0, 9)
  {
    forall h | 0 <= h < 9 ensures KeyOf(b, h) != k {
      ExampleKeyOf(b, h);
      assert ExampleKeys[h] in ExampleKeys;
    }
    EdgeMapAbsent(b, 0, 9, k);
  }

  lemma ExampleMap(b: Arenas)
    requires LinksOk(b) && b.vertices == ExampleVertices && b.halfEdges == ExampleHalfEdges
    ensures var m := EdgeMap(b, 0, 9);
      && (1, 0) in m && m[(1, 0)] == 6 && (0, 1) in m && m[(0, 1)] == 0
      && (3, 0) !in m && (1, 3) !in m && (4, 0) !in m && (1, 4) !in m
  {
    ExampleKeyOf(b, 0);
    ExampleKeyOf(b, 1);
    ExampleKeyOf(b, 2);
    ExampleKeyOf(b, 3);
    ExampleKeyOf(b, 4);
    ExampleKeyOf(b, 5);
    ExampleKeyOf(b, 6);
    ExampleKeyOf(b, 7);
    ExampleKeyOf(b, 8);
    assert EdgeMap(b, 0, 1)[(0, 1)] == 0;
    assert EdgeMap(b, 0, 2)[(0, 1)] == 0;
    assert EdgeMap(b, 0, 3)[(0, 1)] == 0;
    assert EdgeMap(b, 0, 4)[(0, 1)] == 0;
    assert EdgeMap(b, 0, 5)[(0, 1)] == 0;
    assert EdgeMap(b, 0, 6)[(0, 1)] == 0;
    assert EdgeMap(b, 0, 7)[(0, 1)] == 0 && EdgeMap(b, 0, 7)[(1, 0)] == 6;
    assert EdgeMap(b, 0, 8)[(0, 1)] == 0 && EdgeMap(b, 0, 8)[(1, 0)] == 6;
    ExampleAbsent(b, (3, 0));
    ExampleAbsent(b, (1, 3));
    ExampleAbsent(b, (4, 0));
    ExampleAbsent(b, (1, 4));
  }

  /** Without unique keys the twins need not be mutual: with a third triangle over
      the directed pair 1 -> 0, half-edge 3 keeps half-edge 0 as its twin while 0 ends
      up paired with 6. */
  lemma TwinsCanBeOneSided()
    ensures var r := BuildSpec(Arenas(ExampleVertices, [], [], []), ExampleTriples);
      r.halfEdges[3].twin == Some(0) && r.halfEdges[0].twin == Some(6)
  {
    var a := Arenas(ExampleVertices, [], [], []);
    var b := AddTriangles(a, ExampleTriples, 3);
    ExampleFirstLoop();
    var m := EdgeMap(b, 0, 9);
    ExampleMap(b);
    ExampleKeyOf(b, 3);
    ExampleKeyOf(b, 4);
    ExampleKeyOf(b, 5);
    ExampleKeyOf(b, 6);
    ExampleKeyOf(b, 7);
    ExampleKeyOf(b, 8);
    TwinPassStep(b, m, 9, 0);
    TwinPassStep(b, m, 8, 0);
    TwinPassStep(b, m, 7, 0);
    TwinPassStep(b, m, 9, 3);
    TwinPassStep(b, m, 8, 3);
    TwinPassStep(b, m, 7, 3);
    TwinPassStep(b, m, 6, 3);
    TwinPassStep(b, m, 5, 3);
    TwinPassStep(b, m, 4, 3);
  }

  // ---------------------------------------------------------------------------
  // loadOBJ

  /** Into empty arenas, vertex i of the file gets id i (for fewer than 2^31
      vertices), its position, a zero normal and no half-edge. */
  lemma LoadVertices(a: Arenas, lines: seq<ObjLine>)
    requires LinksOk(a) && a.vertices == []
    requires AllInRange(FaceIndices(lines), |Positions(lines)|)
    requires |Positions(lines)| < 0x8000_0000
    ensures var r := LoadSpec(a, lines);
      && |r.vertices| == |Positions(lines)|
      && forall i :: 0 <= i < |r.vertices| ==> r.vertices[i] == LVertex(Positions(lines)[i], Zero, None, i)
  {
  }

  // ---------------------------------------------------------------------------
  // computeVertexNormals

  /** Adding `n` c times is adding c·n, for numbers. */
  lemma {:induction false} AddTimesScale(acc: Vec3, n: Vec3, c: nat)
    requires !acc.NaN? && !n.NaN?
    ensures AddTimes(acc, n, c) == Plus(acc, Scale(c as real, n))
    decreases c
  {
    if c > 0 {
      AddTimesScale(acc, n, c - 1);
      var q := (c - 1) as real;
      assert c as real == q + 1.0;
      assert (q + 1.0) * n.x == q * n.x + n.x;
      assert (q + 1.0) * n.y == q * n.y + n.y;
      assert (q + 1.0) * n.z == q * n.z + n.z;
    }
  }

  lemma {:induction false} OccurrencesCount(v: nat, c: seq<nat>)
    ensures Occurrences(v, c) == |set i | 0 <= i < |c| && c[i] == v|
    decreases |c|
  {
    if c != [] {
      var init := c[..|c| - 1];
      OccurrencesCount(v, init);
      var s0 := set i | 0 <= i < |init| && init[i] == v;
      var s1 := set i | 0 <= i < |c| && c[i] == v;
      if c[|c| - 1] == v {
        assert s1 == s0 + {|c| - 1};
      } else {
        assert s1 == s0;
      }
    }
  }

  lemma OccurrencesOfThree(v: nat, c: seq<nat>)
    requires |c| == 3
    ensures Occurrences(v, c) == (if c[0] == v then 1 else 0) + (if c[1] == v then 1 else 0) + (if c[2] == v then 1 else 0)
  {
    var c2 := c[..2];
    var c1 := c2[..1];
    assert c1 == [c[0]] && c1[..0] == [];
    assert Occurrences(v, c1) == (if c[0] == v then 1 else 0);
    assert Occurrences(v, c2) == Occurrences(v, c1) + (if c[1] == v then 1 else 0);
  }

  /** Adding the normal once per corner at `v`, one corner after the other, is adding
      it as many times as `v` occurs among the corners. */
  lemma AddCorners(acc: Vec3, n: Vec3, c: seq<nat>, v: nat)
    requires |c| == 3
    ensures var x1 := if c[0] == v then Plus(acc, n) else acc;
      var x2 := if c[1] == v then Plus(x1, n) else x1;
      AddTimes(acc, n, Occurrences(v, c)) == if c[2] == v then Plus(x2, n) else x2
  {
    OccurrencesOfThree(v, c);
    assert AddTimes(acc, n, 1) == Plus(acc, n);
    assert AddTimes(acc, n, 2) == Plus(Plus(acc, n), n);
    assert AddTimes(acc, n, 3) == Plus(Plus(Plus(acc, n), n), n);
  }

  /** A vertex at no corner of the first k faces keeps the zero accumulator. */
  lemma {:induction false} AccumulatedUntouched(a: Arenas, faceNormal: (Vec3, Vec3, Vec3) -> Vec3, v: nat, k: nat)
    requires FacesOk(a) && k <= |a.faces|
    requires forall f :: 0 <= f < k ==> v !in Corners(a, f)
    ensures Accumulated(a, faceNormal, v, k) == Zero
    decreases k
  {
    if k > 0 {
      AccumulatedUntouched(a, faceNormal, v, k - 1);
      OccurrencesOfThree(v, Corners(a, k - 1));
    }
  }

  /** A face whose three corners are distinct adds its normal to each of them exactly
      once, and to no other vertex. */
  lemma FaceFeedsCorners(a: Arenas, faceNormal: (Vec3, Vec3, Vec3) -> Vec3, v: nat, f: nat)
    requires FacesOk(a) && f < |a.faces|
    requires var c := Corners(a, f); c[0] != c[1] && c[1] != c[2] && c[0] != c[2]
    ensures Accumulated(a, faceNormal, v, f + 1) ==
      (if v in Corners(a, f) then Plus(Accumulated(a, faceNormal, v, f), FaceNormal(a, faceNormal, f))
       else Accumulated(a, faceNormal, v, f))
  {
    var c := Corners(a, f);
    OccurrencesOfThree(v, c);
    var acc := Accumulated(a, faceNormal, v, f);
    var n := FaceNormal(a, faceNormal, f);
    assert Accumulated(a, faceNormal, v, f + 1) == AddTimes(acc, n, Occurrences(v, c));
    if v in c {
      assert Occurrences(v, c) == 1;
      assert AddTimes(acc, n, 1) == Plus(acc, n);
    } else {
      assert Occurrences(v, c) == 0;
    }
  }

  // ---------------------------------------------------------------------------
  // The flattened vertex buffer

  lemma {:induction false} RingLengthsCount(a: Arenas, k: nat)
    requires TriangleRings(a) && k <= |a.faces|
    ensures RingLengths(a, k) == 3 * k
    decreases k
  {
    if k > 0 {
      RingLengthsCount(a, k - 1);
    }
  }

  /** The draw call's vertex count, the buffer length over six, is the total ring
      length of the faces. */
  lemma DrawCount(a: Arenas)
    requires TriangleRings(a)
    ensures |Flattened(a, |a.faces|)| / 6 == RingLengths(a, |a.faces|) == 3 * |a.faces|
  {
    RingLengthsCount(a, |a.faces|);
  }

  /** A face stored by the first loop closes its ring after three steps, also once
      the twin pass has set twins. */
  lemma RingAt(b: Arenas, r: Arenas, h: nat, e: nat, f: nat, t: Triple)
    requires TriangleAt(b, h, e, f, t) && r.faces == b.faces && |r.halfEdges| == |b.halfEdges|
    requires forall x :: 0 <= x < |b.halfEdges| ==> r.halfEdges[x].next == b.halfEdges[x].next
    ensures r.faces[f].halfEdge < |r.halfEdges|
    ensures var h := r.faces[f].halfEdge;
      var h1 := r.halfEdges[h].next;
      var h2 := r.halfEdges[h1].next;
      h1 < |r.halfEdges| && h2 < |r.halfEdges| && r.halfEdges[h2].next == h && h1 != h && h2 != h
  {
    assert r.halfEdges[h].next == h + 1;
    assert r.halfEdges[h + 1].next == h + 2;
  }

  /** Built into empty arenas, every face's ring closes after three steps, so the
      flattening walk is defined. */
  lemma BuildRings(a: Arenas, ts: seq<Triple>)
    requires LinksOk(a) && AllInRange(ts, |a.vertices|)
    requires a.halfEdges == [] && a.edges == [] && a.faces == []
    ensures TriangleRings(BuildSpec(a, ts))
  {
    var r := BuildSpec(a, ts);
    var b := AddTriangles(a, ts, |ts|);
    assert r.faces == b.faces && |r.halfEdges| == |b.halfEdges|;
    assert forall x :: 0 <= x < |b.halfEdges| ==> r.halfEdges[x].next == b.halfEdges[x].next;
    forall f | 0 <= f < |r.faces|
      ensures r.faces[f].halfEdge < |r.halfEdges|
      ensures var h := r.faces[f].halfEdge;
        var h1 := r.halfEdges[h].next;
        var h2 := r.halfEdges[h1].next;
        h1 < |r.halfEdges| && h2 < |r.halfEdges| && r.halfEdges[h2].next == h && h1 != h && h2 != h
    {
      AddTrianglesAt(a, ts, |ts|, f);
      RingAt(b, r, |a.halfEdges| + 3 * f, |a.edges| + 3 * f, |a.faces| + f, ts[f]);
    }
  }
}
