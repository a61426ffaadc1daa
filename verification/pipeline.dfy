/** The per-chunk stages of `Work2` run one after another: finding the nodes
    a seam is contoured over, choosing which chunks a seam request
    recomputes, the per-chunk descent that prepares leaves for recomputation
    (`SetCacheInstant`), and the vertex choice of the vertex stage. */
module MeshPipeline {
  import opened Wrappers
  import opened Lattice
  import opened SpatialOctree
  import opened LeafNodes
  import opened MeshStreams
  import opened Traversal
  import opened Contouring

  // ---------------------------------------------------------------- octree lookup

  /** The octree registry: loaded octrees by their top-LOD ID. */
  type Octrees = map<NodeID, Octree>

  predicate OctreesWF(octrees: Octrees) {
    forall id | id in octrees :: SpatialOctree.WF(octrees[id].root)
  }

  /** `WorldData.FindOctree(point)`: the octree whose top-LOD ID holds the point. */
  function FindOctree(octrees: Octrees, p: Vec3): (r: Option<Octree>)
    ensures r.Some? <==> GetNodeID(p, MaxLOD) in octrees
    ensures r.Some? ==> r.value == octrees[GetNodeID(p, MaxLOD)]
  {
    var id := GetNodeID(p, MaxLOD);
    if id in octrees then Some(octrees[id]) else None
  }

  /** `FindNodeOrParent(worldData, bound)`: the octree of the bound's min
      corner, then its root's `FindNodeOrParent`; null when either misses. */
  function WorldFindNodeOrParent(octrees: Octrees, b: Box): (r: Option<Node>)
    requires OctreesWF(octrees)
    ensures r.Some? <==> GetNodeID(b.Min(), MaxLOD) in octrees && Contains(octrees[GetNodeID(b.Min(), MaxLOD)].root.bound, b)
    ensures r.Some? ==> SpatialOctree.WF(r.value) && InTree(octrees[GetNodeID(b.Min(), MaxLOD)].root, r.value)
    ensures r.Some? ==> r.value.bound.w == b.w || SpatialOctree.IsLeaf(r.value)
  {
    match FindOctree(octrees, b.Min())
    case None => None
    case Some(o) => FindNodeOrParent(o.root, b)
  }

  /** A descendant of a well-formed node is well formed and its leaves are
      leaves of the node. */
  lemma {:induction false} InTreeLeaves(n: Node, m: Node)
    requires SpatialOctree.WF(n) && InTree(n, m)
    decreases n
    ensures SpatialOctree.WF(m) && Leaves(m) <= Leaves(n)
  {
    if m != n {
      var i :| 0 <= i < |n.children| && InTree(n.children[i], m);
      InTreeLeaves(n.children[i], m);
    }
  }

  // ---------------------------------------------------------------- seam filter

  /** Seam sides: 1, 2, 3 are the min-x, min-y, min-z faces; 4, 5, 6 the
      edges along x, y, z at the min corner. */
  predicate KeepsSide(parent: Box, side: int, b: Box) {
    if side == 1 then b.x == parent.x
    else if side == 2 then b.y == parent.y
    else if side == 3 then b.z == parent.z
    else if side == 4 then b.y == parent.y || b.z == parent.z
    else if side == 5 then b.x == parent.x || b.z == parent.z
    else if side == 6 then b.x == parent.x || b.y == parent.y
    else false
  }

  /** `_FilterChunkNodes`: the chunk nodes under a node that touch the
      node's min face (sides 1-3) or one of the two faces meeting at a min
      edge (sides 4-6), in their original order. */
  function FilterChunkNodes(parent: Box, side: int, nodes: seq<Node>): (r: seq<Node>)
    ensures |r| <= |nodes|
    ensures forall n | n in r :: n in nodes
  {
    if nodes == [] then []
    else if KeepsSide(parent, side, nodes[0].bound) then [nodes[0]] + FilterChunkNodes(parent, side, nodes[1..])
    else FilterChunkNodes(parent, side, nodes[1..])
  }

  /** A node is kept iff it is listed and touches the side. */
  lemma {:induction false} FilterChunkNodesIn(parent: Box, side: int, nodes: seq<Node>, n: Node)
    ensures n in FilterChunkNodes(parent, side, nodes) <==> n in nodes && KeepsSide(parent, side, n.bound)
  {
    if nodes != [] {
      FilterChunkNodesIn(parent, side, nodes[1..], n);
      assert nodes == [nodes[0]] + nodes[1..];
    }
  }

  /** An edge side keeps exactly what its two faces keep: side 4 is sides
      2 and 3, side 5 is sides 1 and 3, side 6 is sides 1 and 2.  Unknown
      sides keep nothing. */
  lemma FilterEdgeIsTwoFaces(parent: Box, nodes: seq<Node>, n: Node)
    ensures n in FilterChunkNodes(parent, 4, nodes) <==>
      n in FilterChunkNodes(parent, 2, nodes) || n in FilterChunkNodes(parent, 3, nodes)
    ensures n in FilterChunkNodes(parent, 5, nodes) <==>
      n in FilterChunkNodes(parent, 1, nodes) || n in FilterChunkNodes(parent, 3, nodes)
    ensures n in FilterChunkNodes(parent, 6, nodes) <==>
      n in FilterChunkNodes(parent, 1, nodes) || n in FilterChunkNodes(parent, 2, nodes)
    ensures FilterChunkNodes(parent, 0, nodes) == [] && FilterChunkNodes(parent, 7, nodes) == []
  {
    forall side | 0 <= side <= 7 {
      FilterChunkNodesIn(parent, side, nodes, n);
    }
    FilterNone(parent, 0, nodes);
    FilterNone(parent, 7, nodes);
  }

  lemma {:induction false} FilterNone(parent: Box, side: int, nodes: seq<Node>)
    requires !(1 <= side <= 6)
    ensures FilterChunkNodes(parent, side, nodes) == []
  {
    if nodes != [] {
      FilterNone(parent, side, nodes[1..]);
    }
  }

  // ---------------------------------------------------------------- seam nodes

  /** The ID offsets `_GenerateSeamMeshData` looks up for each seam, in the
      order the nodes are passed on.  A face seam pairs the one neighbour
      with the chunk node itself; an edge seam looks up all four nodes, the
      chunk's own ID included. */
  function SeamLookups(seam: int): (r: seq<Vec3>)
    ensures 1 <= seam <= 3 ==> |r| == 1
    ensures 4 <= seam <= 6 ==> |r| == 4 && r[1] == Vec3(0, 0, 0)
    ensures !(1 <= seam <= 6) ==> r == []
  {
    if seam == 1 then [Vec3(-1, 0, 0)]
    else if seam == 2 then [Vec3(0, -1, 0)]
    else if seam == 3 then [Vec3(0, 0, -1)]
    else if seam == 4 then [Vec3(0, 0, -1), Vec3(0, 0, 0), Vec3(0, -1, -1), Vec3(0, -1, 0)]
    else if seam == 5 then [Vec3(-1, 0, 0), Vec3(0, 0, 0), Vec3(-1, 0, -1), Vec3(0, 0, -1)]
    else if seam == 6 then [Vec3(-1, 0, 0), Vec3(0, 0, 0), Vec3(-1, -1, 0), Vec3(0, -1, 0)]
    else []
  }

  /** The axis a seam's quads run along. */
  function SeamDir(seam: int): (c: char)
    requires 1 <= seam <= 6
    ensures IsDir(c)
  {
    if seam == 1 || seam == 4 then 'x' else if seam == 2 || seam == 5 then 'y' else 'z'
  }

  /** Every seam reads only IDs on its min side: each offset is 0 or -1 on
      every axis, and 0 on the seam's own axis for edge seams. */
  lemma SeamLookupsMinSide(seam: int, k: int)
    requires 1 <= seam <= 6 && 0 <= k < |SeamLookups(seam)|
    ensures var o := SeamLookups(seam)[k];
      -1 <= o.x <= 0 && -1 <= o.y <= 0 && -1 <= o.z <= 0
    ensures var o := SeamLookups(seam)[k];
      (seam == 4 ==> o.x == 0) && (seam == 5 ==> o.y == 0) && (seam == 6 ==> o.z == 0)
  {
  }

  /** The bounds a seam of the chunk with ID `nid` looks up. */
  function SeamTargets(nid: NodeID, seam: int): (r: seq<Box>)
    ensures |r| == |SeamLookups(seam)|
    ensures forall k | 0 <= k < |r| :: r[k] == IdToBound(Shift(nid, SeamLookups(seam)[k]))
  {
    var offs := SeamLookups(seam);
    seq(|offs|, k requires 0 <= k < |offs| => IdToBound(Shift(nid, offs[k])))
  }

  /** Look up every bound; none as soon as one is missing. */
  function FindAll(octrees: Octrees, bs: seq<Box>): (r: Option<seq<Node>>)
    requires OctreesWF(octrees)
    ensures r.Some? <==> forall k | 0 <= k < |bs| :: WorldFindNodeOrParent(octrees, bs[k]).Some?
    ensures r.Some? ==> |r.value| == |bs|
    ensures r.Some? ==> forall k | 0 <= k < |bs| :: WorldFindNodeOrParent(octrees, bs[k]) == Some(r.value[k])
    ensures r.Some? ==> forall k | 0 <= k < |bs| :: SpatialOctree.WF(r.value[k])
  {
    if bs == [] then Some([])
    else
      match WorldFindNodeOrParent(octrees, bs[0])
      case None => None
      case Some(n) =>
        var rest := FindAll(octrees, bs[1..]);
        assert forall k | 1 <= k < |bs| :: bs[k] == bs[1..][k - 1];
        if rest.None? then None else Some([n] + rest.value)
  }

  /** The nodes a seam of the chunk with ID `nid` is contoured over: a
      face seam gives the neighbour and the chunk node, an edge seam the
      four nodes around the edge.  None when a lookup misses (the seam is
      skipped) or the seam index is unknown. */
  function SeamNodes(octrees: Octrees, chunk: Node, nid: NodeID, seam: int): (r: Option<seq<Node>>)
    requires OctreesWF(octrees) && SpatialOctree.WF(chunk)
    ensures r.Some? <==> 1 <= seam <= 6 && FindAll(octrees, SeamTargets(nid, seam)).Some?
    ensures r.Some? && seam <= 3 ==> r.value == FindAll(octrees, SeamTargets(nid, seam)).value + [chunk]
    ensures r.Some? && seam >= 4 ==> r.value == FindAll(octrees, SeamTargets(nid, seam)).value
    ensures r.Some? ==> |r.value| == (if seam <= 3 then 2 else 4)
    ensures r.Some? ==> forall k | 0 <= k < |r.value| :: SpatialOctree.WF(r.value[k])
  {
    if !(1 <= seam <= 6) then None
    else
      match FindAll(octrees, SeamTargets(nid, seam))
      case None => None
      case Some(ns) => if seam <= 3 then Some(ns + [chunk]) else Some(ns)
  }

  /** Every node of the registry's octrees has its leaves in the store. */
  predicate StoreCovers(octrees: Octrees, s: Store)
    requires OctreesWF(octrees)
  {
    forall id | id in octrees :: Leaves(octrees[id].root) <= s.Keys
  }

  /** A node found in the registry has its leaves in the store. */
  lemma FoundCovered(octrees: Octrees, s: Store, b: Box)
    requires OctreesWF(octrees) && StoreCovers(octrees, s) && WorldFindNodeOrParent(octrees, b).Some?
    ensures SpatialOctree.WF(WorldFindNodeOrParent(octrees, b).value)
    ensures Leaves(WorldFindNodeOrParent(octrees, b).value) <= s.Keys
  {
    var id := GetNodeID(b.Min(), MaxLOD);
    InTreeLeaves(octrees[id].root, WorldFindNodeOrParent(octrees, b).value);
  }

  /** The quads a seam's traversal walks. */
  function SeamQuads(ns: seq<Node>, seam: int): seq<Quad>
    requires 1 <= seam <= 6 && |ns| == (if seam <= 3 then 2 else 4)
    requires forall k | 0 <= k < |ns| :: SpatialOctree.WF(ns[k])
  {
    if seam <= 3 then FaceProc(ns[0], ns[1], SeamDir(seam))
    else EdgeProc(ns[0], ns[1], ns[2], ns[3], SeamDir(seam))
  }

  /** A seam's quads over stored nodes can all be contoured. */
  lemma SeamQuadsOk(s: Store, ns: seq<Node>, seam: int)
    requires 1 <= seam <= 6 && |ns| == (if seam <= 3 then 2 else 4)
    requires forall k | 0 <= k < |ns| :: SpatialOctree.WF(ns[k]) && Leaves(ns[k]) <= s.Keys
    requires StoreOk(s)
    ensures AllQuadsOk(s, SeamQuads(ns, seam))
  {
    if seam <= 3 {
      WalkedOk(s, SeamQuads(ns, seam), Leaves(ns[0]) + Leaves(ns[1]));
    } else {
      WalkedOk(s, SeamQuads(ns, seam), Leaves(ns[0]) + Leaves(ns[1]) + Leaves(ns[2]) + Leaves(ns[3]));
    }
  }

  /** The nodes of a seam over a covering store have their leaves stored. */
  lemma SeamNodesCovered(octrees: Octrees, s: Store, chunk: Node, nid: NodeID, seam: int)
    requires OctreesWF(octrees) && StoreCovers(octrees, s)
    requires SpatialOctree.WF(chunk) && Leaves(chunk) <= s.Keys
    requires SeamNodes(octrees, chunk, nid, seam).Some?
    ensures forall k | 0 <= k < |SeamNodes(octrees, chunk, nid, seam).value| ::
      Leaves(SeamNodes(octrees, chunk, nid, seam).value[k]) <= s.Keys
  {
    var ns := SeamNodes(octrees, chunk, nid, seam).value;
    var bs := SeamTargets(nid, seam);
    forall k | 0 <= k < |bs| ensures Leaves(ns[k]) <= s.Keys {
      FoundCovered(octrees, s, bs[k]);
    }
  }

  /** The triangles a seam writes: none when it is skipped. */
  function SeamTris(octrees: Octrees, s: Store, chunk: Node, nid: NodeID, seam: int): (n: nat)
    requires OctreesWF(octrees) && StoreCovers(octrees, s) && StoreOk(s)
    requires SpatialOctree.WF(chunk) && Leaves(chunk) <= s.Keys
    ensures SeamNodes(octrees, chunk, nid, seam).None? ==> n == 0
    ensures SeamNodes(octrees, chunk, nid, seam).Some? ==>
      n <= 2 * |SeamQuads(SeamNodes(octrees, chunk, nid, seam).value, seam)|
  {
    match SeamNodes(octrees, chunk, nid, seam)
    case None => 0
    case Some(ns) =>
      SeamNodesCovered(octrees, s, chunk, nid, seam);
      SeamQuadsOk(s, ns, seam);
      TriCount(s, SeamQuads(ns, seam))
  }

  /** `_GenerateSeamMeshData`: contour seam `seam` of the chunk node
      `chunk` (whose ID is `nid`) into its seam stream `md`.  A missed
      lookup or an unknown seam writes nothing; otherwise the face or edge
      traversal runs over the looked-up nodes. */
  method GenerateSeamMeshData(s: Store, md: MeshData, g: Geometry, octrees: Octrees, chunk: Node, nid: NodeID, seam: int)
    returns (s2: Store, md2: MeshData)
    requires OctreesWF(octrees) && StoreCovers(octrees, s)
    requires SpatialOctree.WF(chunk) && Leaves(chunk) <= s.Keys
    requires StoreOk(s) && MeshValid(md) && StoreSound(s, md)
    ensures MeshValid(md2) && StoreSound(s2, md2) && Extends(md, md2) && CornersSame(s, s2)
    ensures SeamNodes(octrees, chunk, nid, seam).None? ==> s2 == s && md2 == md
    ensures |md2.tris| == |md.tris| + 3 * SeamTris(octrees, s, chunk, nid, seam)
  {
    var found := SeamNodes(octrees, chunk, nid, seam);
    if found.None? {
      s2, md2 := s, md;
      assert Extends(md, md2) by {
        assert md.vertex[..|md.vertex|] == md.vertex && md.normal[..|md.normal|] == md.normal;
        assert md.material[..|md.material|] == md.material && md.tris[..|md.tris|] == md.tris;
      }
      return;
    }
    var ns := found.value;
    SeamNodesCovered(octrees, s, chunk, nid, seam);
    if seam <= 3 {
      s2, md2 := GenerateQuadsInFace(s, md, g, ns[0], ns[1], SeamDir(seam));
    } else {
      s2, md2 := GenerateQuadsInEdge(s, md, g, ns[0], ns[1], ns[2], ns[3], SeamDir(seam));
    }
  }

  // ---------------------------------------------------------------- SetCacheInstant

  /** `Chunk_Node_LOD`: a leaf to recompute, the chunk it belongs to and the
      cube LOD its data is computed at. */
  datatype Target = Target(chunk: Box, node: Box, cubeLOD: int)

  /** `NodeCache`: where a recomputed leaf's data goes.  The node reference
      is named by its bound, which is unique in a tree. */
  datatype NodeCache = NodeCache(chunk: Box, node: Box, cubeLOD: int)

  /** The cache of recalculation targets, keyed by node bound. */
  type Cache = map<Box, NodeCache>

  /** The edge up to which the descent also caches the siblings of its path:
      `(cn.size / ChunkSize) * TerrainResMul` world units.  The engine's
      `n.size < limit + 0.1` is `n.bound.w <= limit` on the lattice. */
  function SiblingLimit(cw: int): int {
    (cw / ChunkSize) * TerrainResMul * Eighths
  }

  /** The bounds of the children of `b` other than child `i`. */
  function Siblings(b: Box, i: int): set<Box>
    requires 0 <= i < 8
  {
    set j | 0 <= j < 8 && j != i :: ChildBound(b, j)
  }

  /** The inner loop over the eight children: every child of `b` except the
      one on the path is cached as a node of `chunk`. */
  function CacheSiblings(b: Box, i: int, chunk: Box, cubeLOD: int, cache: Cache): (r: Cache)
    requires 0 <= i < 8
    ensures r.Keys == cache.Keys + Siblings(b, i)
    ensures forall c | c in Siblings(b, i) :: r[c] == NodeCache(chunk, c, cubeLOD)
    ensures forall c | c in cache && c !in Siblings(b, i) :: r[c] == cache[c]
  {
    map c | c in cache.Keys + Siblings(b, i) :: if c in Siblings(b, i) then NodeCache(chunk, c, cubeLOD) else cache[c]
  }

  /** One target's descent in `SetCacheInstant`: find the node or the leaf
      above it, then divide until the edge matches, caching the siblings of
      every divided node no larger than `limit`; the node reached is cached
      (under the target itself as chunk) only when it is a leaf. */
  function Descend(n: Node, t: Box, chunk: Box, cubeLOD: int, limit: int, cache: Cache): (r: (Node, Cache))
    requires SpatialOctree.WF(n) && Aligned(t) && ValidSize(t.w) && Contains(n.bound, t)
    decreases n.bound.w
    ensures r.0.bound == n.bound && SpatialOctree.WF(r.0)
    ensures cache.Keys <= r.1.Keys
  {
    if t.w == n.bound.w then
      (n, if SpatialOctree.IsLeaf(n) then cache[t := NodeCache(t, t, cubeLOD)] else cache)
    else
      BelowHalf(t.w, n.bound.w);
      var d := Opened(n);
      var i := ChildIdx(n.bound, t.Min());
      ChildIdxHasPoint(n.bound, t.Min());
      ChildBoundFacts(n.bound, i);
      ContainsAligned(ChildBound(n.bound, i), t);
      var cache' := if SpatialOctree.IsLeaf(n) && n.bound.w <= limit then CacheSiblings(n.bound, i, chunk, cubeLOD, cache) else cache;
      var sub := Descend(d.children[i], t, chunk, cubeLOD, limit, cache');
      (SetChild(d, i, sub.0), sub.1)
  }

  /** The descent shapes the tree exactly as `GetNode` does: leaves on the
      path are divided, nothing else changes. */
  lemma {:induction false} DescendIsGetNode(n: Node, t: Box, chunk: Box, cubeLOD: int, limit: int, cache: Cache)
    requires SpatialOctree.WF(n) && Aligned(t) && ValidSize(t.w) && Contains(n.bound, t)
    decreases n.bound.w
    ensures Descend(n, t, chunk, cubeLOD, limit, cache).0 == GetNode(n, t, Keep).0
  {
    if t.w != n.bound.w {
      BelowHalf(t.w, n.bound.w);
      var d := Opened(n);
      var i := ChildIdx(n.bound, t.Min());
      ChildIdxHasPoint(n.bound, t.Min());
      ChildBoundFacts(n.bound, i);
      ContainsAligned(ChildBound(n.bound, i), t);
      var cache' := if SpatialOctree.IsLeaf(n) && n.bound.w <= limit then CacheSiblings(n.bound, i, chunk, cubeLOD, cache) else cache;
      DescendIsGetNode(d.children[i], t, chunk, cubeLOD, limit, cache');
    }
  }

  /** A box inside child `i` is found through child `i`. */
  lemma FindThroughChild(d: Node, i: int, s: Node, b: Box)
    requires SpatialOctree.WF(d) && !SpatialOctree.IsLeaf(d) && 0 <= i < 8
    requires SpatialOctree.WF(s) && s.bound == d.children[i].bound && Contains(s.bound, b) && b.w > 0
    ensures FindRec(SetChild(d, i, s), b) == FindRec(s, b)
  {
    HalfValid(d.bound.w);
    assert s.bound.HasPoint(b.Min());
    ChildIdxOfChildPoint(d.bound, i, b.Min());
  }

  /** After dividing a leaf and replacing child `i`, every other child is
      still a leaf found at its own bound, and none of them is the target
      the path leads to. */
  lemma FindSibling(n: Node, i: int, j: int, s: Node, t: Box)
    requires SpatialOctree.WF(n) && SpatialOctree.IsLeaf(n) && n.bound.w >= 2 * NodeMinSize
    requires 0 <= i < 8 && 0 <= j < 8 && i != j && SpatialOctree.WF(s) && s.bound == ChildBound(n.bound, i)
    requires t.w > 0 && ChildIdx(n.bound, t.Min()) == i
    ensures var root := SetChild(Divide(n), i, s);
      FindRec(root, ChildBound(n.bound, j)).bound == ChildBound(n.bound, j) &&
      SpatialOctree.IsLeaf(FindRec(root, ChildBound(n.bound, j))) &&
      ChildBound(n.bound, j) != t && ChildBound(n.bound, j).w > 0 && Contains(n.bound, ChildBound(n.bound, j))
  {
    var d := Divide(n);
    var b := ChildBound(n.bound, j);
    ChildBoundFacts(n.bound, j);
    HalfValid(n.bound.w);
    assert b.HasPoint(b.Min());
    ChildIdxOfChildPoint(n.bound, j, b.Min());
    assert d.children[j].bound == b && SpatialOctree.IsLeaf(d.children[j]);
    if b == t {
      assert false;
    }
  }

  /** An entry the descent wrote or overwrote. */
  predicate Fresh(before: Cache, after: Cache, b: Box) {
    b in after && (b !in before || after[b] != before[b])
  }

  /** A cache entry as the descent writes it: a leaf of the new tree found
      at its own bound inside the start node, holding the target's cube LOD;
      a sibling carries the chunk and comes from a divided node no larger
      than `limit`, the target carries itself as chunk. */
  predicate CachedLeaf(start: Box, root: Node, r: Cache, b: Box, t: Box, chunk: Box, cubeLOD: int, limit: int)
    requires SpatialOctree.WF(root) && b in r
  {
    Contains(start, b) && b.w > 0 &&
    FindRec(root, b).bound == b && SpatialOctree.IsLeaf(FindRec(root, b)) &&
    r[b] == NodeCache(if b == t then t else chunk, b, cubeLOD) &&
    (b == t || 2 * b.w <= limit)
  }

  /** What the descent caches: an entry it writes or overwrites is such a
      leaf. */
  lemma {:induction false} DescendCaches(n: Node, t: Box, chunk: Box, cubeLOD: int, limit: int, cache: Cache, b: Box)
    requires SpatialOctree.WF(n) && Aligned(t) && ValidSize(t.w) && Contains(n.bound, t)
    requires Fresh(cache, Descend(n, t, chunk, cubeLOD, limit, cache).1, b)
    decreases n.bound.w
    ensures var r := Descend(n, t, chunk, cubeLOD, limit, cache);
      CachedLeaf(n.bound, r.0, r.1, b, t, chunk, cubeLOD, limit)
  {
    var r := Descend(n, t, chunk, cubeLOD, limit, cache);
    if t.w == n.bound.w {
      assert n.bound == t;
    } else {
      BelowHalf(t.w, n.bound.w);
      var d := Opened(n);
      var i := ChildIdx(n.bound, t.Min());
      ChildIdxHasPoint(n.bound, t.Min());
      ChildBoundFacts(n.bound, i);
      ContainsAligned(ChildBound(n.bound, i), t);
      var cache' := if SpatialOctree.IsLeaf(n) && n.bound.w <= limit then CacheSiblings(n.bound, i, chunk, cubeLOD, cache) else cache;
      var c := d.children[i];
      var sub := Descend(c, t, chunk, cubeLOD, limit, cache');
      assert r == (SetChild(d, i, sub.0), sub.1);
      if Fresh(cache', sub.1, b) {
        DescendCaches(c, t, chunk, cubeLOD, limit, cache', b);
        ContainsTransitive(n.bound, c.bound, b);
        FindThroughChild(d, i, sub.0, b);
      } else {
        assert SpatialOctree.IsLeaf(n) && n.bound.w <= limit && b in Siblings(n.bound, i);
        var j :| 0 <= j < 8 && j != i && b == ChildBound(n.bound, j);
        ChildIdxOfChildPoint(n.bound, i, t.Min());
        FindSibling(n, i, j, sub.0, t);
      }
    }
  }

  /** The descent reaches the target, and caches it exactly when the node
      reached is a leaf. */
  lemma {:induction false} DescendReaches(n: Node, t: Box, chunk: Box, cubeLOD: int, limit: int, cache: Cache)
    requires SpatialOctree.WF(n) && Aligned(t) && ValidSize(t.w) && Contains(n.bound, t)
    decreases n.bound.w
    ensures var r := Descend(n, t, chunk, cubeLOD, limit, cache);
      FindRec(r.0, t).bound == t &&
      (SpatialOctree.IsLeaf(FindRec(r.0, t)) ==> t in r.1 && r.1[t] == NodeCache(t, t, cubeLOD)) &&
      (!SpatialOctree.IsLeaf(FindRec(r.0, t)) ==> !Fresh(cache, r.1, t))
  {
    var r := Descend(n, t, chunk, cubeLOD, limit, cache);
    if Fresh(cache, r.1, t) {
      DescendCaches(n, t, chunk, cubeLOD, limit, cache, t);
    }
    if t.w == n.bound.w {
      assert n.bound == t;
    } else {
      BelowHalf(t.w, n.bound.w);
      var d := Opened(n);
      var i := ChildIdx(n.bound, t.Min());
      ChildIdxHasPoint(n.bound, t.Min());
      ChildBoundFacts(n.bound, i);
      ContainsAligned(ChildBound(n.bound, i), t);
      var cache' := if SpatialOctree.IsLeaf(n) && n.bound.w <= limit then CacheSiblings(n.bound, i, chunk, cubeLOD, cache) else cache;
      var c := d.children[i];
      DescendReaches(c, t, chunk, cubeLOD, limit, cache');
      var sub := Descend(c, t, chunk, cubeLOD, limit, cache');
      assert r == (SetChild(d, i, sub.0), sub.1);
      FindThroughChild(d, i, sub.0, t);
    }
  }

  // ---------------------------------------------------------------- per chunk

  /** The targets of one chunk, descended one after the other from its
      chunk node.  A target outside the chunk node makes `FindNodeOrParent`
      return null, and the descent throws. */
  function CacheChunk(cn: Node, chunk: Box, ts: seq<Target>, cache: Cache): (r: Result<(Node, Cache)>)
    requires SpatialOctree.WF(cn)
    requires forall k | 0 <= k < |ts| :: Aligned(ts[k].node) && ValidSize(ts[k].node.w)
    decreases |ts|
    ensures r.Success? <==> forall k | 0 <= k < |ts| :: Contains(cn.bound, ts[k].node)
    ensures r.Failure? ==> r.error == NullNode
    ensures r.Success? ==> r.value.0.bound == cn.bound && SpatialOctree.WF(r.value.0) && cache.Keys <= r.value.1.Keys
  {
    if ts == [] then Success((cn, cache))
    else if !Contains(cn.bound, ts[0].node) then Failure(NullNode)
    else
      var r := Descend(cn, ts[0].node, chunk, ts[0].cubeLOD, SiblingLimit(cn.bound.w), cache);
      assert forall k | 1 <= k < |ts| :: ts[k] == ts[1..][k - 1];
      CacheChunk(r.0, chunk, ts[1..], r.1)
  }

  /** The reference shape: `GetNode` called for every target in turn,
      keeping the found node as it is. */
  function GetNodes(n: Node, ts: seq<Target>): (r: Node)
    requires SpatialOctree.WF(n)
    decreases |ts|
    ensures SpatialOctree.WF(r) && r.bound == n.bound
  {
    if ts == [] then n else GetNodes(GetNode(n, ts[0].node, Keep).0, ts[1..])
  }

  /** The chunk node ends up exactly as the reference shape: caching
      divides what `GetNode` would divide and nothing else. */
  lemma {:induction false} CacheChunkIsGetNodes(cn: Node, chunk: Box, ts: seq<Target>, cache: Cache)
    requires SpatialOctree.WF(cn)
    requires forall k | 0 <= k < |ts| :: Aligned(ts[k].node) && ValidSize(ts[k].node.w)
    requires CacheChunk(cn, chunk, ts, cache).Success?
    decreases |ts|
    ensures CacheChunk(cn, chunk, ts, cache).value.0 == GetNodes(cn, ts)
  {
    if ts != [] {
      var t := ts[0];
      var r := Descend(cn, t.node, chunk, t.cubeLOD, SiblingLimit(cn.bound.w), cache);
      DescendIsGetNode(cn, t.node, chunk, t.cubeLOD, SiblingLimit(cn.bound.w), cache);
      assert forall k | 1 <= k < |ts| :: ts[k] == ts[1..][k - 1];
      CacheChunkIsGetNodes(r.0, chunk, ts[1..], r.1);
    }
  }

  // ---------------------------------------------------------------- grouping and order

  /** The chunks the targets name, each once. */
  function ChunksOf(dic: seq<Target>): (r: seq<Box>)
    ensures NoDup(r)
    ensures forall c :: c in r <==> exists k | 0 <= k < |dic| :: dic[k].chunk == c
  {
    if dic == [] then []
    else
      var rest := ChunksOf(dic[1..]);
      assert forall k | 1 <= k < |dic| :: dic[k] == dic[1..][k - 1];
      if dic[0].chunk in rest then rest else [dic[0].chunk] + rest
  }

  /** The list the grouping builds for one chunk: its targets in
      enumeration order. */
  function TargetsOf(dic: seq<Target>, chunk: Box): (r: seq<Target>)
    ensures forall x :: x in r <==> x in dic && x.chunk == chunk
    ensures multiset(r) <= multiset(dic)
  {
    if dic == [] then []
    else
      var rest := TargetsOf(dic[1..], chunk);
      assert dic == [dic[0]] + dic[1..];
      if dic[0].chunk == chunk then [dic[0]] + rest else rest
  }

  /** Ascending by node size, as the comparison `List.Sort` is given. */
  predicate SortedBySize(ts: seq<Target>) {
    forall a, b | 0 <= a < b < |ts| :: ts[a].node.w <= ts[b].node.w
  }

  /** Every target is at least `w` large. */
  predicate AllAtLeast(ts: seq<Target>, w: int) {
    forall k | 0 <= k < |ts| :: w <= ts[k].node.w
  }

  /** A lower bound carries over to a permutation. */
  lemma AtLeastPermuted(a: seq<Target>, b: seq<Target>, w: int)
    requires multiset(a) == multiset(b) && AllAtLeast(b, w)
    ensures AllAtLeast(a, w)
  {
    forall k | 0 <= k < |a| ensures w <= a[k].node.w {
      assert a[k] in multiset(b);
      var j :| 0 <= j < |b| && b[j] == a[k];
    }
  }

  /** A sorted list stays sorted under a head no larger than its elements. */
  lemma SortedCons(h: Target, ts: seq<Target>)
    requires SortedBySize(ts) && AllAtLeast(ts, h.node.w)
    ensures SortedBySize([h] + ts)
  {
  }

  /** Insert a target after every smaller-or-equal one. */
  function InsertBySize(x: Target, ts: seq<Target>): (r: seq<Target>)
    requires SortedBySize(ts)
    ensures multiset(r) == multiset(ts) + multiset{x}
    ensures SortedBySize(r)
  {
    if ts == [] || x.node.w < ts[0].node.w then
      SortedCons(x, ts);
      [x] + ts
    else
      var rest := InsertBySize(x, ts[1..]);
      assert ts == [ts[0]] + ts[1..];
      AtLeastPermuted(rest, ts[1..] + [x], ts[0].node.w);
      SortedCons(ts[0], rest);
      [ts[0]] + rest
  }

  /** Each chunk's list sorted by size (a stable insertion sort). */
  function SortBySize(ts: seq<Target>): (r: seq<Target>)
    ensures multiset(r) == multiset(ts)
    ensures SortedBySize(r)
  {
    if ts == [] then []
    else
      assert ts == [ts[0]] + ts[1..];
      InsertBySize(ts[0], SortBySize(ts[1..]))
  }

  // ---------------------------------------------------------------- SetCacheInstant

  /** The registered chunk nodes by bound (`AllChunkNodes`). */
  type ChunkTrees = map<Box, Node>

  predicate TreesWF(nodes: ChunkTrees) {
    forall c | c in nodes :: SpatialOctree.WF(nodes[c])
  }

  /** Targets are proper node bounds: aligned, of a valid edge. */
  predicate TargetsOk(dic: seq<Target>) {
    forall k | 0 <= k < |dic| :: Aligned(dic[k].node) && ValidSize(dic[k].node.w)
  }

  /** A target can be descended to: its chunk is registered and its node
      lies inside the chunk node. */
  predicate Reachable(nodes: ChunkTrees, x: Target) {
    x.chunk in nodes && Contains(nodes[x.chunk].bound, x.node)
  }

  /** A chunk's group can run: the chunk is registered and holds every
      target of the group. */
  predicate GroupOk(nodes: ChunkTrees, dic: seq<Target>, c: Box) {
    c in nodes && forall x | x in dic && x.chunk == c :: Contains(nodes[c].bound, x.node)
  }

  /** The sorted group holds exactly the chunk's targets. */
  lemma SortedGroup(dic: seq<Target>, c: Box)
    ensures forall x :: x in SortBySize(TargetsOf(dic, c)) <==> x in dic && x.chunk == c
  {
    var ts := SortBySize(TargetsOf(dic, c));
    forall x ensures x in ts <==> x in TargetsOf(dic, c) {
      assert x in ts <==> x in multiset(ts);
      assert x in TargetsOf(dic, c) <==> x in multiset(TargetsOf(dic, c));
    }
  }

  /** The sorted group of well-formed targets is well formed. */
  lemma SortedGroupOk(dic: seq<Target>, c: Box)
    requires TargetsOk(dic)
    ensures TargetsOk(SortBySize(TargetsOf(dic, c)))
  {
    var ts := SortBySize(TargetsOf(dic, c));
    SortedGroup(dic, c);
    forall k | 0 <= k < |ts| ensures Aligned(ts[k].node) && ValidSize(ts[k].node.w) {
      assert ts[k] in ts;
      var j :| 0 <= j < |dic| && dic[j] == ts[k];
    }
  }

  /** A registered chunk's descents succeed iff its group can run. */
  lemma GroupRuns(nodes: ChunkTrees, dic: seq<Target>, c: Box, cache: Cache)
    requires TreesWF(nodes) && TargetsOk(dic) && c in nodes && TargetsOk(SortBySize(TargetsOf(dic, c)))
    ensures CacheChunk(nodes[c], c, SortBySize(TargetsOf(dic, c)), cache).Success? <==> GroupOk(nodes, dic, c)
  {
    SortedGroupOk(dic, c);
    SortedGroup(dic, c);
    var ts := SortBySize(TargetsOf(dic, c));
    if GroupOk(nodes, dic, c) {
      forall k | 0 <= k < |ts| ensures Contains(nodes[c].bound, ts[k].node) {
        assert ts[k] in ts;
      }
    } else {
      var x :| x in dic && x.chunk == c && !Contains(nodes[c].bound, x.node);
      assert x in ts;
      var k :| 0 <= k < |ts| && ts[k] == x;
    }
  }

  /** Whether a group can run depends only on the chunk bounds. */
  lemma SameBoundsGroupOk(nodes: ChunkTrees, nodes': ChunkTrees, dic: seq<Target>)
    requires nodes'.Keys == nodes.Keys && forall c | c in nodes :: nodes'[c].bound == nodes[c].bound
    ensures forall c :: GroupOk(nodes', dic, c) <==> GroupOk(nodes, dic, c)
  {
  }

  /** The registry after a group ran: same chunks with the same bounds, only
      chunk `c` changed. */
  predicate OnlyChanged(nodes: ChunkTrees, nodes': ChunkTrees, cs: seq<Box>) {
    nodes'.Keys == nodes.Keys && TreesWF(nodes') &&
    (forall c | c in nodes :: nodes'[c].bound == nodes[c].bound) &&
    (forall c | c in nodes && c !in cs :: nodes'[c] == nodes[c])
  }

  /** After the first group ran, the remaining groups can run iff they
      could before. */
  lemma GroupsAfterFirst(nodes: ChunkTrees, nodes': ChunkTrees, dic: seq<Target>, cs: seq<Box>)
    requires |cs| > 0 && OnlyChanged(nodes, nodes', [cs[0]])
    ensures (forall k | 0 <= k < |cs| :: GroupOk(nodes, dic, cs[k])) <==>
      GroupOk(nodes, dic, cs[0]) && forall k | 0 <= k < |cs[1..]| :: GroupOk(nodes', dic, cs[1..][k])
  {
    SameBoundsGroupOk(nodes, nodes', dic);
    assert forall k | 1 <= k < |cs| :: cs[k] == cs[1..][k - 1];
  }

  lemma OnlyChangedTrans(a: ChunkTrees, b: ChunkTrees, c: ChunkTrees, cs: seq<Box>)
    requires |cs| > 0 && OnlyChanged(a, b, [cs[0]]) && OnlyChanged(b, c, cs[1..])
    ensures OnlyChanged(a, c, cs)
  {
    assert forall x | x !in cs :: x !in [cs[0]] && x !in cs[1..] by {
      assert cs == [cs[0]] + cs[1..];
    }
  }

  /** One chunk's group: look the chunk node up, sort its targets, descend. */
  function RunGroup(nodes: ChunkTrees, dic: seq<Target>, c: Box, cache: Cache): (r: Result<(ChunkTrees, Cache)>)
    requires TreesWF(nodes) && TargetsOk(dic)
    ensures r.Success? <==> GroupOk(nodes, dic, c)
    ensures r.Failure? ==> r.error == MissingKey || r.error == NullNode
    ensures r.Success? ==> OnlyChanged(nodes, r.value.0, [c]) && cache.Keys <= r.value.1.Keys
  {
    if c !in nodes then Failure(MissingKey)
    else
      SortedGroupOk(dic, c);
      GroupRuns(nodes, dic, c, cache);
      match CacheChunk(nodes[c], c, SortBySize(TargetsOf(dic, c)), cache)
      case Failure(e) => Failure(e)
      case Success(step) => Success((nodes[c := step.0], step.1))
  }

  /** The groups of `cs`, one chunk after the other. */
  function RunGroups(nodes: ChunkTrees, dic: seq<Target>, cs: seq<Box>, cache: Cache): (r: Result<(ChunkTrees, Cache)>)
    requires TreesWF(nodes) && TargetsOk(dic)
    ensures r.Success? <==> forall k | 0 <= k < |cs| :: GroupOk(nodes, dic, cs[k])
    ensures r.Failure? ==> r.error == MissingKey || r.error == NullNode
    ensures r.Success? ==> OnlyChanged(nodes, r.value.0, cs) && cache.Keys <= r.value.1.Keys
  {
    if cs == [] then Success((nodes, cache))
    else
      match RunGroup(nodes, dic, cs[0], cache)
      case Failure(e) => Failure(e)
      case Success(step) =>
        GroupsAfterFirst(nodes, step.0, dic, cs);
        var r := RunGroups(step.0, dic, cs[1..], step.1);
        if r.Success? then
          OnlyChangedTrans(nodes, step.0, r.value.0, cs);
          r
        else r
  }

  /** Every target can be descended to iff every chunk's group can run. */
  lemma AllGroupsOk(nodes: ChunkTrees, dic: seq<Target>)
    ensures (forall k | 0 <= k < |ChunksOf(dic)| :: GroupOk(nodes, dic, ChunksOf(dic)[k])) <==>
      forall k | 0 <= k < |dic| :: Reachable(nodes, dic[k])
  {
    var cs := ChunksOf(dic);
    if forall k | 0 <= k < |dic| :: Reachable(nodes, dic[k]) {
      forall k | 0 <= k < |cs| ensures GroupOk(nodes, dic, cs[k]) {
        assert cs[k] in cs;
        var j :| 0 <= j < |dic| && dic[j].chunk == cs[k];
        forall x | x in dic && x.chunk == cs[k] ensures Contains(nodes[cs[k]].bound, x.node) {
          var i :| 0 <= i < |dic| && dic[i] == x;
        }
      }
    }
    if forall k | 0 <= k < |cs| :: GroupOk(nodes, dic, cs[k]) {
      forall k | 0 <= k < |dic| ensures Reachable(nodes, dic[k]) {
        assert exists i | 0 <= i < |dic| :: dic[i].chunk == dic[k].chunk;
        assert dic[k].chunk in cs;
        var j :| 0 <= j < |cs| && cs[j] == dic[k].chunk;
      }
    }
  }

  /** `SetCacheInstant`: group the targets by chunk, sort every group by
      node size, and run each group's descents from its chunk node.  A
      chunk missing from the registry throws on the dictionary read; a
      target outside its chunk node throws in the descent. */
  function SetCacheInstant(nodes: ChunkTrees, dic: seq<Target>, cache: Cache): (r: Result<(ChunkTrees, Cache)>)
    requires TreesWF(nodes) && TargetsOk(dic)
    ensures r.Success? <==> forall k | 0 <= k < |dic| :: Reachable(nodes, dic[k])
    ensures r.Failure? ==> r.error == MissingKey || r.error == NullNode
    ensures r.Success? ==> OnlyChanged(nodes, r.value.0, ChunksOf(dic)) && cache.Keys <= r.value.1.Keys
  {
    AllGroupsOk(nodes, dic);
    RunGroups(nodes, dic, ChunksOf(dic), cache)
  }

  // ---------------------------------------------------------------- vertex choice

  /** `GetFixedCubeVertex`: one eighth (the cube-grid offset) above the
      node's min corner on every axis. */
  function FixedCubeVertex(min: Vec3): Vec3 {
    Vec3(min.x + CubeGridOffset, min.y + CubeGridOffset, min.z + CubeGridOffset)
  }

  /** For a node on the cube lattice the fixed vertex is the origin of the
      cube cell the node starts in. */
  lemma FixedCubeVertexIsCellOrigin(min: Vec3)
    requires min.x % CubeSize == 0 && min.y % CubeSize == 0 && min.z % CubeSize == 0
    ensures var g := Vec3(min.x / CubeSize, min.y / CubeSize, min.z / CubeSize);
      GetCubePos(InitializeCubeParam(), FixedCubeVertex(min)) == Success(g) &&
      GetWorldPos(InitializeCubeParam(), g) == Success(FixedCubeVertex(min))
  {
    var g := Vec3(min.x / CubeSize, min.y / CubeSize, min.z / CubeSize);
    CubeGridRoundTrip(InitializeCubeParam(), g);
    assert CellMin(g) == FixedCubeVertex(min);
  }

  /** The vertex stage for one leaf (`CalculateVerticesInstant`): a leaf
      no cube or sphere touches takes the solver's mass point, a leaf only a
      cube touches takes the fixed cube vertex, every other leaf the solved
      position; the normal is the solver's average.  The solver is outside
      the model, so its three results are parameters. */
  function ChooseVertex(d: LeafNodeData, min: Vec3, massPoint: Vec3, solved: Vec3, avgNormal: Vec3): (r: LeafNodeData)
    ensures !d.hasCubeData && !d.hasSphereData ==> r.vertex == massPoint
    ensures d.hasCubeData && !d.hasSphereData && !d.hasTerrainData ==> r.vertex == FixedCubeVertex(min)
    ensures d.hasSphereData || (d.hasCubeData && d.hasTerrainData) ==> r.vertex == solved
    ensures r.normal == avgNormal && r.(vertex := d.vertex, normal := d.normal) == d
  {
    var v :=
      if !HasSDFData(d) then massPoint
      else if d.hasCubeData && !d.hasTerrainData && !d.hasSphereData then FixedCubeVertex(min)
      else solved;
    d.(vertex := v, normal := avgNormal)
  }

  // ---------------------------------------------------------------- seam requests

  /** Every node on a descent path belongs to the tree. */
  lemma {:induction false} PathInTree(n: Node, t: Box)
    requires SpatialOctree.WF(n)
    ensures forall m | m in PathTo(n, t) :: InTree(n, m)
  {
    if !(t.w == n.bound.w || SpatialOctree.IsLeaf(n)) {
      var i := ChildIdx(n.bound, t.Min());
      var c := n.children[i];
      PathInTree(c, t);
      forall m | m in PathTo(c, t) ensures InTree(n, m) {
        assert InTree(c, m);
      }
    }
  }

  /** The chunk nodes one neighbour-seam request recomputes: none when the
      bound's octree is not loaded; the nearest chunk node at or above the
      node found for the bound; else the chunk nodes under that node that
      lie on the seam's side. */
  function SeamChunks(octrees: Octrees, nb: Box, seam: int): (r: seq<Node>)
    requires OctreesWF(octrees)
    ensures WorldFindNodeOrParent(octrees, nb).None? ==> r == []
    ensures r != [] ==> GetNodeID(nb.Min(), MaxLOD) in octrees
    ensures forall m | m in r :: m.isChunk && InTree(octrees[GetNodeID(nb.Min(), MaxLOD)].root, m)
  {
    match WorldFindNodeOrParent(octrees, nb)
    case None => []
    case Some(n) =>
      var root := octrees[GetNodeID(nb.Min(), MaxLOD)].root;
      PathInTree(root, nb);
      match FindParentChunkNode(PathTo(root, nb))
      case Some(cn) => [cn]
      case None =>
        var all := FindAllChunkNodes(n);
        forall m | m in all ensures InTree(root, m) {
          InTreeTrans(root, n, m);
        }
        FilterChunkNodes(n.bound, seam, all)
  }

  /** `m` under `n` under `root` is under `root`. */
  lemma {:induction false} InTreeTrans(root: Node, n: Node, m: Node)
    requires InTree(root, n) && InTree(n, m)
    decreases root
    ensures InTree(root, m)
  {
    if root != n {
      var i :| 0 <= i < |root.children| && InTree(root.children[i], n);
      InTreeTrans(root.children[i], n, m);
    }
  }

  /** Where the request's chunk nodes come from: the chunk node on the path
      when there is one, otherwise exactly the chunk nodes under the found
      node that touch the seam's side. */
  lemma SeamChunksFrom(octrees: Octrees, nb: Box, seam: int, m: Node)
    requires OctreesWF(octrees) && WorldFindNodeOrParent(octrees, nb).Some?
    ensures var root := octrees[GetNodeID(nb.Min(), MaxLOD)].root;
      var n := WorldFindNodeOrParent(octrees, nb).value;
      var up := FindParentChunkNode(PathTo(root, nb));
      (up.Some? ==> SeamChunks(octrees, nb, seam) == [up.value]) &&
      (up.None? ==> (m in SeamChunks(octrees, nb, seam) <==> m in FindAllChunkNodes(n) && KeepsSide(n.bound, seam, m.bound)))
  {
    var n := WorldFindNodeOrParent(octrees, nb).value;
    FilterChunkNodesIn(n.bound, seam, FindAllChunkNodes(n), m);
  }

  /** The path searched for a chunk node runs from the root to the node
      found for the bound. */
  lemma SeamPathEnds(octrees: Octrees, nb: Box)
    requires OctreesWF(octrees) && WorldFindNodeOrParent(octrees, nb).Some?
    ensures var p := PathTo(octrees[GetNodeID(nb.Min(), MaxLOD)].root, nb);
      p[0] == octrees[GetNodeID(nb.Min(), MaxLOD)].root && p[|p| - 1] == WorldFindNodeOrParent(octrees, nb).value
  {
    PathToEnds(octrees[GetNodeID(nb.Min(), MaxLOD)].root, nb);
  }

  /** Request `nb`/`seam` recomputes the chunk node with bound `b`. */
  predicate Requested(octrees: Octrees, nb: Box, seam: int, b: Box)
    requires OctreesWF(octrees)
  {
    exists m | m in SeamChunks(octrees, nb, seam) :: m.bound == b
  }

  /** The de-duplicated (chunk node, seam) requests of a batch, the node
      named by its bound. */
  function SeamRequests(octrees: Octrees, seams: seq<(Box, int)>): (r: set<(Box, int)>)
    requires OctreesWF(octrees)
    ensures forall p :: p in r <==>
      exists k | 0 <= k < |seams| :: p.1 == seams[k].1 && Requested(octrees, seams[k].0, seams[k].1, p.0)
  {
    if seams == [] then {}
    else
      var here := set m | m in SeamChunks(octrees, seams[0].0, seams[0].1) :: (m.bound, seams[0].1);
      assert forall p :: p in here <==> p.1 == seams[0].1 && Requested(octrees, seams[0].0, seams[0].1, p.0);
      var rest := SeamRequests(octrees, seams[1..]);
      assert forall k | 1 <= k < |seams| :: seams[k] == seams[1..][k - 1];
      here + rest
  }
}
