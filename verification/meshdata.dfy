/** The vertex, normal, material and triangle streams of a chunk
    (`ChunkMeshData` and its nested `MeshData`).

    Positions and normals are carried, never computed, so lattice vectors
    stand for the engine's float vectors.  A material entry is a float
    vector whose components are whole material numbers, one of which may
    carry the `+ 0.999` mark; `MatEntry` records which.  The static counter
    that hands out mesh IDs is a value passed in and returned. */
module MeshStreams {
  import opened Wrappers
  import opened Lattice

  /** A material vector `(m1, m2, m3)`; `marked` is 1, 2 or 3 when that
      component carries the `+ 0.999` mark, 0 when none does. */
  datatype MatEntry = MatEntry(m1: int, m2: int, m3: int, marked: int)

  /** `MeshData.MeshID`: the pair (meshID, meshNum). */
  datatype MeshKey = MeshKey(meshID: int, meshNum: int)

  datatype MeshData = MeshData(
    meshNum: int, meshID: int, chunkID: NodeID,
    vertex: seq<Vec3>, normal: seq<Vec3>, material: seq<MatEntry>, tris: seq<int>,
    needsMeshUpdate: bool)

  function Key(md: MeshData): MeshKey {
    MeshKey(md.meshID, md.meshNum)
  }

  /** Every vertex has its normal. */
  predicate Paired(md: MeshData) {
    |md.vertex| == |md.normal|
  }

  /** All the given IDs were handed out before the counter reached `next`. */
  predicate IssuedBelow(ids: set<int>, next: int) {
    forall id | id in ids :: id < next
  }

  /** `new MeshData(num)`: empty streams and the next ID from the counter. */
  function NewMeshData(num: int, next: int): (r: (MeshData, int))
    ensures r.0.meshNum == num && r.0.meshID == next && r.1 > next
    ensures r.0.vertex == [] && r.0.normal == [] && r.0.material == [] && r.0.tris == []
    ensures !r.0.needsMeshUpdate
  {
    (MeshData(num, next, NodeID(0, 0, 0, 0), [], [], [], [], false), next + 1)
  }

  /** `MeshData.Initialize`: binds the chunk, takes a new ID, empties every
      stream and marks the mesh for upload. */
  function Initialize(md: MeshData, chunkID: NodeID, next: int): (r: (MeshData, int))
    ensures r.0.meshNum == md.meshNum && r.0.chunkID == chunkID && r.0.meshID == next && r.1 > next
    ensures r.0.vertex == [] && r.0.normal == [] && r.0.material == [] && r.0.tris == []
    ensures r.0.needsMeshUpdate
  {
    (md.(chunkID := chunkID, meshID := next, vertex := [], normal := [], material := [], tris := [],
         needsMeshUpdate := true), next + 1)
  }

  /** `MeshData.Clear`: a new ID (so that vertex indices cached under the
      old one are not reused), empty streams, and the mesh marked for
      upload; the second assignment of the flag overrides the first, so
      the mark is set even when the mesh was already empty. */
  function Clear(md: MeshData, next: int): (r: (MeshData, int))
    ensures r.0.meshNum == md.meshNum && r.0.chunkID == md.chunkID && r.0.meshID == next && r.1 > next
    ensures r.0.vertex == [] && r.0.normal == [] && r.0.material == [] && r.0.tris == []
    ensures r.0.needsMeshUpdate
  {
    (md.(meshID := next, vertex := [], normal := [], material := [], tris := [], needsMeshUpdate := true),
     next + 1)
  }

  /** An ID drawn from the counter is new: it differs from every ID issued
      before, and the advanced counter still bounds them all. */
  lemma FreshId(ids: set<int>, md: MeshData, chunkID: NodeID, next: int)
    requires IssuedBelow(ids, next)
    ensures Clear(md, next).0.meshID !in ids && IssuedBelow(ids + {Clear(md, next).0.meshID}, Clear(md, next).1)
    ensures Initialize(md, chunkID, next).0.meshID !in ids
    ensures IssuedBelow(ids + {Initialize(md, chunkID, next).0.meshID}, Initialize(md, chunkID, next).1)
  {
  }

  /** `HasData`: the mesh holds at least one triangle. */
  predicate HasData(md: MeshData) {
    |md.tris| > 0
  }

  /** `AddVertexNormal(v, n)`: the shared-vertex form, without a material. */
  function AddVertexNormal(md: MeshData, v: Vec3, n: Vec3): (r: MeshData)
    ensures r.vertex == md.vertex + [v] && r.normal == md.normal + [n]
    ensures r.material == md.material && r.tris == md.tris && Key(r) == Key(md)
    ensures r.needsMeshUpdate == md.needsMeshUpdate
  {
    md.(vertex := md.vertex + [v], normal := md.normal + [n])
  }

  /** `AddVertexNormal(v, n, mat)`: also one material entry `(mat, mat, mat)`. */
  function AddVertexNormalMat(md: MeshData, v: Vec3, n: Vec3, mat: int): (r: MeshData)
    ensures r.vertex == md.vertex + [v] && r.normal == md.normal + [n]
    ensures r.material == md.material + [MatEntry(mat, mat, mat, 0)]
    ensures r.tris == md.tris && Key(r) == Key(md) && r.needsMeshUpdate == md.needsMeshUpdate
  {
    md.(vertex := md.vertex + [v], normal := md.normal + [n], material := md.material + [MatEntry(mat, mat, mat, 0)])
  }

  /** `AddTriangleMat(i1, i2, i3)`: one triangle over shared vertices. */
  function AddTriangle(md: MeshData, i1: int, i2: int, i3: int): (r: MeshData)
    ensures r.tris == md.tris + [i1, i2, i3] && r.needsMeshUpdate && HasData(r)
    ensures r.vertex == md.vertex && r.normal == md.normal && r.material == md.material && Key(r) == Key(md)
  {
    md.(tris := md.tris + [i1, i2, i3], needsMeshUpdate := true)
  }

  /** `AddTriangleMat(i1, i2, i3, m1, m2, m3)`: one triangle over its own
      vertices; each vertex gets the three materials with its own component
      marked. */
  function AddTriangleMats(md: MeshData, i1: int, i2: int, i3: int, m1: int, m2: int, m3: int): (r: MeshData)
    ensures r.tris == md.tris + [i1, i2, i3] && r.needsMeshUpdate && HasData(r)
    ensures |r.material| == |md.material| + 3 && r.material[..|md.material|] == md.material
    ensures r.material[|md.material|..] == [MatEntry(m1, m2, m3, 1), MatEntry(m1, m2, m3, 2), MatEntry(m1, m2, m3, 3)]
    ensures r.vertex == md.vertex && r.normal == md.normal && Key(r) == Key(md)
  {
    md.(tris := md.tris + [i1, i2, i3], needsMeshUpdate := true,
        material := md.material + [MatEntry(m1, m2, m3, 1), MatEntry(m1, m2, m3, 2), MatEntry(m1, m2, m3, 3)])
  }

  /** A triangle over three fresh vertices, the way the contouring stage
      emits cube, sphere and SDF triangles: the indices name exactly the
      three vertices just added. */
  lemma FreshTriangleIndices(md: MeshData, p: seq<Vec3>, n: seq<Vec3>, m1: int, m2: int, m3: int)
    requires |p| == 3 && |n| == 3 && Paired(md)
    ensures var c := |md.vertex|;
      var r := AddTriangleMats(AddVertexNormal(AddVertexNormal(AddVertexNormal(md, p[0], n[0]), p[1], n[1]), p[2], n[2]),
        c, c + 1, c + 2, m1, m2, m3);
      Paired(r) && |r.vertex| == c + 3 &&
      (forall k | 0 <= k < 3 :: r.vertex[r.tris[|md.tris| + k]] == p[k] && r.normal[r.tris[|md.tris| + k]] == n[k])
  {
  }

  // ---------------------------------------------------------------- ChunkMeshData

  /** The seven streams of a chunk: 0 main, 1..3 the x, y, z face seams,
      4..6 the x, y, z edge seams. */
  const StreamCount: int := 7

  datatype ChunkMeshData = ChunkMeshData(chunkID: NodeID, streams: seq<MeshData>)

  /** Stream `i` sits in slot `i` and knows its number. */
  predicate ChunkOk(c: ChunkMeshData) {
    |c.streams| == StreamCount && forall i | 0 <= i < StreamCount :: c.streams[i].meshNum == i
  }

  /** The field initialisers: seven new streams numbered 0..6, drawing
      seven consecutive IDs. */
  function NewChunkMeshData(next: int): (r: (ChunkMeshData, int))
    ensures ChunkOk(r.0) && r.1 == next + StreamCount
    ensures forall i | 0 <= i < StreamCount ::
      (r.0.streams[i].meshID == next + i && r.0.streams[i].vertex == [] && r.0.streams[i].tris == [] &&
       !r.0.streams[i].needsMeshUpdate)
  {
    var s := seq(StreamCount, i => NewMeshData(i, next + i).0);
    assert forall i | 0 <= i < StreamCount :: s[i] == NewMeshData(i, next + i).0;
    (ChunkMeshData(NodeID(0, 0, 0, 0), s), next + StreamCount)
  }

  /** `ChunkMeshData.Initialize`: every stream re-initialised for the chunk,
      in order, each with an ID of its own. */
  function InitializeChunk(c: ChunkMeshData, chunkID: NodeID, next: int): (r: (ChunkMeshData, int))
    requires ChunkOk(c)
    ensures ChunkOk(r.0) && r.0.chunkID == chunkID && r.1 == next + StreamCount
    ensures forall i | 0 <= i < StreamCount ::
      (r.0.streams[i].meshID == next + i && r.0.streams[i].chunkID == chunkID &&
       r.0.streams[i].vertex == [] && r.0.streams[i].tris == [] && r.0.streams[i].needsMeshUpdate)
  {
    var s := seq(StreamCount, i requires 0 <= i < StreamCount => Initialize(c.streams[i], chunkID, next + i).0);
    (ChunkMeshData(chunkID, s), next + StreamCount)
  }

  /** The streams of one chunk never share an ID after initialisation, and
      none reuses an ID issued before. */
  lemma InitializeChunkFresh(c: ChunkMeshData, chunkID: NodeID, next: int, ids: set<int>, i: int, j: int)
    requires ChunkOk(c) && IssuedBelow(ids, next) && 0 <= i < StreamCount && 0 <= j < StreamCount
    ensures InitializeChunk(c, chunkID, next).0.streams[i].meshID !in ids
    ensures i != j ==> InitializeChunk(c, chunkID, next).0.streams[i].meshID != InitializeChunk(c, chunkID, next).0.streams[j].meshID
  {
  }

  /** `GetMeshData(idx)`: stream `idx` for 0..6, null for anything else. */
  function GetMeshData(c: ChunkMeshData, idx: int): (r: Option<MeshData>)
    requires ChunkOk(c)
    ensures r.Some? <==> 0 <= idx < StreamCount
    ensures r.Some? ==> r.value.meshNum == idx && r.value in c.streams
  {
    if 0 <= idx < StreamCount then Some(c.streams[idx]) else None
  }

  /** Replaces stream `idx` (the model's counterpart of mutating the object
      `GetMeshData` returned). */
  function SetMeshData(c: ChunkMeshData, idx: int, md: MeshData): (r: ChunkMeshData)
    requires ChunkOk(c) && 0 <= idx < StreamCount && md.meshNum == idx
    ensures ChunkOk(r) && GetMeshData(r, idx) == Some(md) && r.chunkID == c.chunkID
    ensures forall k | 0 <= k < StreamCount && k != idx :: r.streams[k] == c.streams[k]
  {
    c.(streams := c.streams[idx := md])
  }

  /** The streams flagged for upload, in stream order. */
  function Flagged(s: seq<MeshData>): (r: seq<MeshData>)
    ensures |r| <= |s|
    ensures forall m :: m in r <==> m in s && m.needsMeshUpdate
  {
    if |s| == 0 then []
    else (if s[0].needsMeshUpdate then [s[0]] else []) + Flagged(s[1..])
  }

  /** `GetAllMeshData`: every stream whose `needsMeshUpdate` is set. */
  function GetAllMeshData(c: ChunkMeshData): (r: seq<MeshData>)
    requires ChunkOk(c)
    ensures forall m :: m in r <==> m in c.streams && m.needsMeshUpdate
    ensures forall i, j | 0 <= i < j < |r| :: r[i].meshNum < r[j].meshNum
  {
    FlaggedOrdered(c.streams);
    Flagged(c.streams)
  }

  /** Streams in increasing number stay in increasing number once the
      unflagged ones are dropped. */
  lemma {:induction false} FlaggedOrdered(s: seq<MeshData>)
    requires forall i, j | 0 <= i < j < |s| :: s[i].meshNum < s[j].meshNum
    ensures forall i, j | 0 <= i < j < |Flagged(s)| :: Flagged(s)[i].meshNum < Flagged(s)[j].meshNum
  {
    if |s| > 0 {
      FlaggedOrdered(s[1..]);
      var t := Flagged(s[1..]);
      forall i | 0 <= i < |t|
        ensures s[0].meshNum < t[i].meshNum
      {
        assert t[i] in s[1..];
        var k :| 0 <= k < |s[1..]| && t[i] == s[1..][k];
        assert t[i] == s[k + 1];
      }
    }
  }
}
