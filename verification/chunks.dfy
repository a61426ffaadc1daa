/** Finding the chunk node that holds a world point.  The main thread keys
    its chunk nodes by `NodeID` (`WorldData.FindChunkNode`); the jobs keep
    the set of chunk bounds (`WorldDataNative.FindChunk`).  Both scan the
    LODs from the finest up and stop at the first registered chunk. */
module ChunkLookup {
  import opened Wrappers
  import opened Lattice
  import opened SpatialOctree

  /** The main thread's registry of chunk nodes. */
  type ChunkNodes = map<NodeID, Node>

  // ---------------------------------------------------------------- by ID

  /** The first LOD from `lod` up whose node ID at `p` is registered. */
  function FirstNodeLod(m: ChunkNodes, p: Vec3, lod: nat): (r: Option<nat>)
    requires lod <= MaxLOD + 1
    decreases MaxLOD + 1 - lod
    ensures r.Some? ==> lod <= r.value <= MaxLOD && GetNodeID(p, r.value) in m
    ensures forall k | lod <= k <= MaxLOD && (r.None? || k < r.value) :: GetNodeID(p, k) !in m
  {
    if lod > MaxLOD then None
    else if GetNodeID(p, lod) in m then Some(lod)
    else FirstNodeLod(m, p, lod + 1)
  }

  /** The ID `FindChunkNode(worldPos)` stops at, if any. */
  function FindChunkNodeId(m: ChunkNodes, p: Vec3): (r: Option<NodeID>)
    ensures r.None? <==> forall k | 0 <= k <= MaxLOD :: GetNodeID(p, k) !in m
    ensures r.Some? ==> r.value in m && r.value.lod <= MaxLOD && r.value == GetNodeID(p, r.value.lod)
    ensures r.Some? ==> IdToBound(r.value).HasPoint(p)
    ensures r.Some? ==> forall k | 0 <= k < r.value.lod :: GetNodeID(p, k) !in m
  {
    match FirstNodeLod(m, p, 0)
    case None => None
    case Some(k) => Some(GetNodeID(p, k))
  }

  /** `FindChunkNode(worldPos)`: the registered chunk node of the finest LOD
      whose ID holds the point, or null.  (A failed `TryGetValue` leaves the
      out variable null, so a miss on the last LOD returns null.) */
  function FindChunkNode(m: ChunkNodes, p: Vec3): (r: Option<Node>)
    ensures r.None? <==> forall k | 0 <= k <= MaxLOD :: GetNodeID(p, k) !in m
    ensures r.Some? ==> exists k | 0 <= k <= MaxLOD ::
      (GetNodeID(p, k) in m && r.value == m[GetNodeID(p, k)] && forall j | 0 <= j < k :: GetNodeID(p, j) !in m)
  {
    match FindChunkNodeId(m, p)
    case None => None
    case Some(id) =>
      assert GetNodeID(p, id.lod) in m && forall j | 0 <= j < id.lod :: GetNodeID(p, j) !in m;
      Some(m[id])
  }

  /** `FindChunkNode(NodeID)`: the dictionary indexer, which throws on a
      missing key. */
  function ChunkNodeAt(m: ChunkNodes, id: NodeID): (r: Result<Node>)
    ensures r.Success? <==> id in m
    ensures r.Success? ==> r.value == m[id]
    ensures r.Failure? ==> r.error == MissingKey
  {
    if id in m then Success(m[id]) else Failure(MissingKey)
  }

  // ---------------------------------------------------------------- by bound

  /** `math.floor(worldPos + 0.001)`: whole world units, in eighths.  On the
      lattice the epsilon never carries a point into the next unit. */
  function UnitFloor(p: Vec3): (r: Vec3)
    ensures r.x <= p.x < r.x + Eighths && r.y <= p.y < r.y + Eighths && r.z <= p.z < r.z + Eighths
  {
    Vec3(FloorToMultiple(p.x, Eighths), FloorToMultiple(p.y, Eighths), FloorToMultiple(p.z, Eighths))
  }

  /** The first LOD from `lod` up whose chunk bound at `p` is registered. */
  function FirstChunkLod(chunks: set<Box>, p: Vec3, lod: nat): (r: Option<nat>)
    requires lod <= MaxLOD + 1
    decreases MaxLOD + 1 - lod
    ensures r.Some? ==> lod <= r.value <= MaxLOD && GetChunkNodeBound(p, r.value) in chunks
    ensures forall k | lod <= k <= MaxLOD && (r.None? || k < r.value) :: GetChunkNodeBound(p, k) !in chunks
  {
    if lod > MaxLOD then None
    else if GetChunkNodeBound(p, lod) in chunks then Some(lod)
    else FirstChunkLod(chunks, p, lod + 1)
  }

  /** The bound `FindChunk` returns when no LOD has a registered chunk. */
  const NoChunk: Box := Box(0, 0, 0, -1)

  /** `FindChunk`: the registered chunk bound of the finest LOD that holds the
      point, or the bound of size -1. */
  function FindChunk(chunks: set<Box>, p: Vec3): (r: Box)
    ensures r == NoChunk <==> forall k | 0 <= k <= MaxLOD :: GetChunkNodeBound(p, k) !in chunks
    ensures r != NoChunk ==> r in chunks && r.HasPoint(p) && LodOfSize(r.w).Some? && LodOfSize(r.w).value <= MaxLOD
    ensures r != NoChunk ==> r == GetChunkNodeBound(p, LodOfSize(r.w).value)
    ensures r != NoChunk ==> forall k | 0 <= k < LodOfSize(r.w).value :: GetChunkNodeBound(p, k) !in chunks
  {
    var u := UnitFloor(p);
    forall k | 0 <= k <= MaxLOD ensures GetChunkNodeBound(u, k) == GetChunkNodeBound(p, k) {
      ChunkBoundIgnoresUnitFloor(p, k);
    }
    match FirstChunkLod(chunks, u, 0)
    case None => NoChunk
    case Some(k) =>
      LodOfLodSize(k);
      GetChunkNodeBound(u, k)
  }

  /** The bounds of the registered chunk nodes' IDs. */
  function RegistryBounds(m: ChunkNodes): set<Box> {
    set id | id in m :: IdToBound(id)
  }

  /** Distinct IDs have distinct bounds. */
  lemma IdToBoundInjective(a: NodeID, b: NodeID)
    requires IdToBound(a) == IdToBound(b)
    ensures a == b
  {
    IdBoundRoundTrip(a);
    IdBoundRoundTrip(b);
  }

  /** When the jobs' chunk set holds exactly the bounds of the main thread's
      chunk IDs, the two lookups find the same chunk. */
  lemma FindChunkAgrees(m: ChunkNodes, p: Vec3)
    ensures FindChunk(RegistryBounds(m), p) ==
      match FindChunkNodeId(m, p) case None => NoChunk case Some(id) => IdToBound(id)
  {
    var chunks := RegistryBounds(m);
    forall k | 0 <= k <= MaxLOD ensures GetChunkNodeBound(p, k) in chunks <==> GetNodeID(p, k) in m {
      RegisteredBound(m, p, k);
    }
    var r := FindChunk(chunks, p);
    match FindChunkNodeId(m, p)
    case None =>
    case Some(id) =>
      ChunkBoundIsNodeBound(p, id.lod);
      assert r != NoChunk;
      FoundSameLod(m, p, r, id);
  }

  /** A chunk bound is registered exactly when the ID of the same LOD is. */
  lemma RegisteredBound(m: ChunkNodes, p: Vec3, k: nat)
    requires k <= MaxLOD
    ensures GetChunkNodeBound(p, k) in RegistryBounds(m) <==> GetNodeID(p, k) in m
  {
    ChunkBoundIsNodeBound(p, k);
    if GetChunkNodeBound(p, k) in RegistryBounds(m) {
      var id :| id in m && IdToBound(id) == GetChunkNodeBound(p, k);
      IdToBoundInjective(id, GetNodeID(p, k));
    }
  }

  /** When both lookups find something and agree on which LODs are
      registered, they stop at the same LOD and so at the same chunk. */
  lemma FoundSameLod(m: ChunkNodes, p: Vec3, r: Box, id: NodeID)
    requires forall k | 0 <= k <= MaxLOD :: GetChunkNodeBound(p, k) in RegistryBounds(m) <==> GetNodeID(p, k) in m
    requires r == FindChunk(RegistryBounds(m), p) && r != NoChunk
    requires FindChunkNodeId(m, p) == Some(id)
    ensures r == IdToBound(id)
  {
    var k := LodOfSize(r.w).value;
    ChunkBoundIsNodeBound(p, k);
    ChunkBoundIsNodeBound(p, id.lod);
    assert GetNodeID(p, k) in m;
    assert GetChunkNodeBound(p, id.lod) in RegistryBounds(m);
    assert k == id.lod;
  }
}
