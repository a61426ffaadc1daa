/** The data a leaf of the spatial octree keeps for contouring
    (`WorldData.LeafNodeData`): its eight corner sources, the surface
    crossings on its edges, the dual vertex and its material, and a cache of
    the index that vertex has in each mesh it was written to.

    The object is a value here; each mutator returns the new value.  The
    vertex and normal are carried, not computed, as lattice vectors. */
module LeafNodes {
  import opened Wrappers
  import opened Lattice
  import opened CubeOctrees
  import opened Surfaces
  import opened MeshStreams

  /** `EdgeData`: a crossing kept on a leaf. */
  datatype EdgeData = EdgeData(pos: Vec3, nor: Vec3, dir: char, sdfType: Mat)

  datatype LeafNodeData = LeafNodeData(
    chunkID: NodeID, nodeID: NodeID,
    vertex: Vec3, normal: Vec3,
    corners: seq<SDFInfo>,
    hasCubeData: bool, hasSphereData: bool, hasTerrainData: bool,
    vertexMaterial: Mat, hasFakeVertex: bool,
    edgeData: seq<EdgeData>,
    meshDataIndex: map<MeshKey, int>)

  /** The corner array has its eight slots. */
  predicate LeafOk(d: LeafNodeData) {
    |d.corners| == 8
  }

  /** `HasSDFData`: a cube or a sphere touches the node. */
  predicate HasSDFData(d: LeafNodeData) {
    d.hasCubeData || d.hasSphereData
  }

  /** `HasEdgeData`: at least one crossing is stored. */
  predicate HasEdgeData(d: LeafNodeData) {
    |d.edgeData| > 0
  }

  /** `HasVertex`: a crossing, or a vertex filled in for a missing one. */
  predicate HasVertex(d: LeafNodeData) {
    HasEdgeData(d) || d.hasFakeVertex
  }

  /** `Reset`: invalid corners, no crossings, an empty index cache, the
      origin as vertex, material 0 and every flag cleared.  The normal and
      the IDs are left as they were. */
  function Reset(d: LeafNodeData): (r: LeafNodeData)
    ensures LeafOk(r) && forall k | 0 <= k < 8 :: r.corners[k] == Invalid()
    ensures r.edgeData == [] && r.meshDataIndex == map[] && r.vertex == Vec3(0, 0, 0)
    ensures !HasVertex(r) && !HasSDFData(r) && !r.hasTerrainData && r.vertexMaterial == 0
    ensures r.normal == d.normal && r.chunkID == d.chunkID && r.nodeID == d.nodeID
  {
    d.(corners := seq(8, _ => Invalid()), edgeData := [], meshDataIndex := map[], vertex := Vec3(0, 0, 0),
       hasFakeVertex := false, vertexMaterial := 0, hasCubeData := false, hasSphereData := false,
       hasTerrainData := false)
  }

  /** `Initialize`: binds the chunk and node IDs, then resets. */
  function Initialize(d: LeafNodeData, chunkID: NodeID, nodeID: NodeID): (r: LeafNodeData)
    ensures r.chunkID == chunkID && r.nodeID == nodeID && !HasVertex(r)
    ensures LeafOk(r) && r.edgeData == [] && r.meshDataIndex == map[] && !HasSDFData(r)
  {
    Reset(d.(chunkID := chunkID, nodeID := nodeID))
  }

  // ---------------------------------------------------------------- corners

  /** `SetCornerData(corner, info)`: writes slot `x*4+y*2+z`; a slot outside
      the array throws. */
  function SetCornerData(d: LeafNodeData, c: Vec3, info: SDFInfo): (r: Result<LeafNodeData>)
    requires LeafOk(d)
    ensures r.Failure? <==> !(0 <= OctantIndex(c) < 8)
    ensures r.Failure? ==> r.error == IndexOutOfRange
    ensures r.Success? ==> LeafOk(r.value) && r.value.corners == d.corners[OctantIndex(c) := info]
    ensures r.Success? ==> r.value.(corners := d.corners) == d
  {
    var k := OctantIndex(c);
    if 0 <= k < 8 then Success(d.(corners := d.corners[k := info])) else Failure(IndexOutOfRange)
  }

  /** `GetCornerData(corner, out info)`: reads slot `x*4+y*2+z`; a slot
      outside the array throws. */
  function GetCornerData(d: LeafNodeData, c: Vec3): (r: Result<SDFInfo>)
    requires LeafOk(d)
    ensures r.Failure? <==> !(0 <= OctantIndex(c) < 8)
    ensures r.Failure? ==> r.error == IndexOutOfRange
    ensures r.Success? ==> r.value in d.corners
  {
    var k := OctantIndex(c);
    if 0 <= k < 8 then Success(d.corners[k]) else Failure(IndexOutOfRange)
  }

  /** Writing a corner and reading it back gives the written source; a
      corner with another slot keeps its source. */
  lemma CornerDataRoundTrip(d: LeafNodeData, c: Vec3, info: SDFInfo, c2: Vec3)
    requires LeafOk(d) && 0 <= OctantIndex(c) < 8
    ensures GetCornerData(SetCornerData(d, c, info).value, c) == Success(info)
    ensures OctantIndex(c2) != OctantIndex(c) ==>
      GetCornerData(SetCornerData(d, c, info).value, c2) == GetCornerData(d, c2)
  {
  }

  // ---------------------------------------------------------------- crossings

  /** `AddEdgeData(ed, solidMat)`: appends the crossing and raises the
      vertex material to `solidMat` when that is larger. */
  function AddEdgeData(d: LeafNodeData, ed: EdgeData, solidMat: Mat): (r: LeafNodeData)
    ensures r.edgeData == d.edgeData + [ed] && HasVertex(r)
    ensures r.vertexMaterial >= d.vertexMaterial && r.vertexMaterial >= solidMat
    ensures r.vertexMaterial == d.vertexMaterial || r.vertexMaterial == solidMat
    ensures r.(edgeData := d.edgeData, vertexMaterial := d.vertexMaterial) == d
  {
    d.(edgeData := d.edgeData + [ed], vertexMaterial := if d.vertexMaterial >= solidMat then d.vertexMaterial else solidMat)
  }

  /** The largest material among stored crossings, 0 for none. */
  function MaxMat(ss: seq<Stored>): (m: Mat)
    ensures forall i | 0 <= i < |ss| :: ss[i].mat <= m
    ensures |ss| == 0 ==> m == 0
    ensures |ss| > 0 ==> exists i | 0 <= i < |ss| :: ss[i].mat == m
  {
    if |ss| == 0 then 0
    else
      var rest := MaxMat(ss[1..]);
      assert forall i | 1 <= i < |ss| :: ss[i] == ss[1..][i - 1];
      if ss[0].mat >= rest then ss[0].mat
      else
        var k :| 0 <= k < |ss[1..]| && ss[1..][k].mat == rest;
        assert ss[k + 1].mat == rest;
        rest
  }

  /** The crossing a stored record becomes on the main thread; the source
      kind reads back as 0 from `SingleNodeData`. */
  function ToEdgeData(s: Stored): EdgeData {
    EdgeData(s.pos, s.nor, s.dir, 0)
  }

  /** Adds the stored records in order, each with its own material. */
  function AddAllEdges(d: LeafNodeData, ss: seq<Stored>): (r: LeafNodeData)
    ensures r.corners == d.corners && r.meshDataIndex == d.meshDataIndex && r.hasFakeVertex == d.hasFakeVertex
    ensures r.hasCubeData == d.hasCubeData && r.hasSphereData == d.hasSphereData && r.hasTerrainData == d.hasTerrainData
    decreases |ss|
  {
    if |ss| == 0 then d else AddAllEdges(AddEdgeData(d, ToEdgeData(ss[0]), ss[0].mat), ss[1..])
  }

  /** Adding records appends their crossings in order, and the vertex
      material ends as the largest of its old value and their materials. */
  lemma {:induction false} AddAllEdgesFacts(d: LeafNodeData, ss: seq<Stored>)
    ensures |AddAllEdges(d, ss).edgeData| == |d.edgeData| + |ss|
    ensures AddAllEdges(d, ss).edgeData[..|d.edgeData|] == d.edgeData
    ensures forall i | 0 <= i < |ss| :: AddAllEdges(d, ss).edgeData[|d.edgeData| + i] == ToEdgeData(ss[i])
    ensures AddAllEdges(d, ss).vertexMaterial == if d.vertexMaterial >= MaxMat(ss) then d.vertexMaterial else MaxMat(ss)
    decreases |ss|
  {
    if |ss| > 0 {
      var d1 := AddEdgeData(d, ToEdgeData(ss[0]), ss[0].mat);
      AddAllEdgesFacts(d1, ss[1..]);
      var r := AddAllEdges(d1, ss[1..]);
      assert r == AddAllEdges(d, ss);
      forall i | 0 <= i < |ss|
        ensures r.edgeData[|d.edgeData| + i] == ToEdgeData(ss[i])
      {
        if i > 0 {
          assert ss[i] == ss[1..][i - 1];
        } else {
          assert r.edgeData[..|d1.edgeData|][|d.edgeData|] == d1.edgeData[|d.edgeData|];
        }
      }
      assert r.edgeData[..|d.edgeData|] == r.edgeData[..|d1.edgeData|][..|d.edgeData|];
    }
  }

  // ---------------------------------------------------------------- mesh index cache

  /** `GetMeshDataVertexIndex(meshData)`: the index the node's vertex has in
      that mesh, writing the vertex (with normal and material) on first use
      and remembering the index under the mesh's key. */
  function GetMeshDataVertexIndex(d: LeafNodeData, md: MeshData): (r: (LeafNodeData, MeshData, int))
    ensures Key(md) in d.meshDataIndex ==> r == (d, md, d.meshDataIndex[Key(md)])
    ensures Key(md) !in d.meshDataIndex ==>
      (r.2 == |md.vertex| && r.1.vertex == md.vertex + [d.vertex] && r.1.normal == md.normal + [d.normal] &&
       r.1.tris == md.tris && r.0 == d.(meshDataIndex := d.meshDataIndex[Key(md) := r.2]))
    ensures Key(r.1) == Key(md) && Key(md) in r.0.meshDataIndex
  {
    if Key(md) in d.meshDataIndex then (d, md, d.meshDataIndex[Key(md)])
    else
      var idx := |md.vertex|;
      (d.(meshDataIndex := d.meshDataIndex[Key(md) := idx]), AddVertexNormalMat(md, d.vertex, d.normal, d.vertexMaterial), idx)
  }

  /** The cache is sound for a mesh: a cached index names a vertex of that
      mesh holding this node's vertex and normal. */
  predicate CacheSound(d: LeafNodeData, md: MeshData) {
    Key(md) in d.meshDataIndex ==>
      (0 <= d.meshDataIndex[Key(md)] < |md.vertex| && d.meshDataIndex[Key(md)] < |md.normal| &&
       md.vertex[d.meshDataIndex[Key(md)]] == d.vertex && md.normal[d.meshDataIndex[Key(md)]] == d.normal)
  }

  /** Asking for the index (on a mesh whose vertices all have normals)
      returns a vertex holding the node's vertex and
      normal, keeps the cache sound, and a second request returns the same
      index and writes nothing. */
  lemma VertexIndexStable(d: LeafNodeData, md: MeshData)
    requires CacheSound(d, md) && Paired(md)
    ensures var r := GetMeshDataVertexIndex(d, md);
      CacheSound(r.0, r.1) && Paired(r.1) && 0 <= r.2 < |r.1.vertex| && r.1.vertex[r.2] == d.vertex && r.1.normal[r.2] == d.normal &&
      GetMeshDataVertexIndex(r.0, r.1) == r
  {
  }

  /** Writing other vertices into the mesh keeps a sound cache sound. */
  lemma CacheSoundAfterAppend(d: LeafNodeData, md: MeshData, v: Vec3, n: Vec3)
    requires CacheSound(d, md)
    ensures CacheSound(d, AddVertexNormal(md, v, n))
  {
  }

  /** After the mesh takes a new ID, an index cached under any earlier ID
      is not used: the next request writes the vertex again at the end. */
  lemma ClearedMeshGetsNewVertex(d: LeafNodeData, md: MeshData, next: int)
    requires forall k | k in d.meshDataIndex :: k.meshID < next
    ensures var m := Clear(md, next).0;
      GetMeshDataVertexIndex(d, m).2 == 0 && GetMeshDataVertexIndex(d, m).1.vertex == [d.vertex]
  {
    var m := Clear(md, next).0;
    assert Key(m) !in d.meshDataIndex;
  }

  // ---------------------------------------------------------------- filling from job output

  /** Copies the corner sources `src[j..8]` into corners `(j/4, (j%4)/2, j%2)`. */
  function CopyCorners(d: LeafNodeData, src: seq<SDFInfo>, j: int): (r: LeafNodeData)
    requires LeafOk(d) && |src| == 8 && 0 <= j <= 8
    ensures LeafOk(r) && r.(corners := d.corners) == d
    ensures forall k | 0 <= k < 8 :: r.corners[k] == if k < j then d.corners[k] else src[k]
    decreases 8 - j
  {
    if j == 8 then d
    else
      OctantDivMod(j);
      CopyCorners(SetCornerData(d, Vec3(j / 4, (j % 4) / 2, j % 2), src[j]).value, src, j + 1)
  }

  /** `FillNodeDataInstant` for one leaf: reset, the eight corner sources,
      every stored crossing with its material, then the three source flags. */
  function FillFromNodeData(d: LeafNodeData, s: SingleNodeData): (r: LeafNodeData)
    requires NodeDataOk(s)
    ensures LeafOk(r)
  {
    var d1 := CopyCorners(Reset(d), s.corners, 0);
    var d2 := AddAllEdges(d1, s.surfaces);
    d2.(hasCubeData := s.hasCubeData, hasSphereData := s.hasSphereData, hasTerrainData := s.hasTerrainData)
  }

  /** After filling, the leaf holds exactly what the sampling job produced:
      its corners, one crossing per stored record in order, the largest
      material as vertex material, the job's flags, an empty index cache,
      and a vertex exactly when some crossing was stored. */
  lemma FillMatchesJob(d: LeafNodeData, s: SingleNodeData)
    requires NodeDataOk(s)
    ensures var r := FillFromNodeData(d, s);
      r.corners == s.corners && |r.edgeData| == |s.surfaces| &&
      (forall i | 0 <= i < |s.surfaces| :: r.edgeData[i] == ToEdgeData(s.surfaces[i])) &&
      r.vertexMaterial == MaxMat(s.surfaces) && r.meshDataIndex == map[] &&
      r.hasCubeData == s.hasCubeData && r.hasSphereData == s.hasSphereData && r.hasTerrainData == s.hasTerrainData &&
      (HasVertex(r) <==> |s.surfaces| > 0)
  {
    var d1 := FilledCorners(d, s);
    FilledEdges(d1, s);
  }

  /** The leaf after the reset and the corner copy: the job's corners and
      nothing else, and the fill is the crossings added to it. */
  lemma FilledCorners(d: LeafNodeData, s: SingleNodeData) returns (d1: LeafNodeData)
    requires NodeDataOk(s)
    ensures d1.corners == s.corners && d1.edgeData == [] && !d1.hasFakeVertex
    ensures d1.vertexMaterial == 0 && d1.meshDataIndex == map[]
    ensures FillFromNodeData(d, s) ==
      AddAllEdges(d1, s.surfaces).(hasCubeData := s.hasCubeData, hasSphereData := s.hasSphereData, hasTerrainData := s.hasTerrainData)
  {
    d1 := CopyAll(Reset(d), s.corners);
  }

  /** Adding the job's crossings to an empty leaf stores them in order,
      with the largest material, and gives it a vertex exactly when there
      is one. */
  lemma FilledEdges(d1: LeafNodeData, s: SingleNodeData)
    requires d1.edgeData == [] && !d1.hasFakeVertex && d1.vertexMaterial == 0
    ensures var r := AddAllEdges(d1, s.surfaces);
      |r.edgeData| == |s.surfaces| &&
      (forall i | 0 <= i < |s.surfaces| :: r.edgeData[i] == ToEdgeData(s.surfaces[i])) &&
      r.vertexMaterial == MaxMat(s.surfaces) && (HasVertex(r) <==> |s.surfaces| > 0)
  {
    AddAllEdgesFacts(d1, s.surfaces);
  }

  /** A full copy gives the source's corners and leaves the rest of the
      leaf. */
  lemma CopyAll(d0: LeafNodeData, src: seq<SDFInfo>) returns (d1: LeafNodeData)
    requires LeafOk(d0) && |src| == 8
    ensures d1 == CopyCorners(d0, src, 0)
    ensures d1.corners == src && d1.edgeData == d0.edgeData && d1.hasFakeVertex == d0.hasFakeVertex
    ensures d1.vertexMaterial == d0.vertexMaterial && d1.meshDataIndex == d0.meshDataIndex
  {
    d1 := CopyFrom(d0, src, 0);
  }

  /** `CopyAll` with the start index as a variable: a literal start makes the
      solver unfold all eight steps of the copy. */
  lemma CopyFrom(d0: LeafNodeData, src: seq<SDFInfo>, j: int) returns (d1: LeafNodeData)
    requires LeafOk(d0) && |src| == 8 && j == 0
    ensures d1 == CopyCorners(d0, src, j)
    ensures d1.corners == src && d1.edgeData == d0.edgeData && d1.hasFakeVertex == d0.hasFakeVertex
    ensures d1.vertexMaterial == d0.vertexMaterial && d1.meshDataIndex == d0.meshDataIndex
  {
    d1 := CopyCorners(d0, src, j);
    SameSeq(d1.corners, src);
    KeptFields(d0, d1);
  }

  lemma SameSeq(a: seq<SDFInfo>, b: seq<SDFInfo>)
    requires |a| == 8 && |b| == 8 && forall k | 0 <= k < 8 :: a[k] == b[k]
    ensures a == b
  {
  }

  lemma KeptFields(d0: LeafNodeData, d1: LeafNodeData)
    requires d1.(corners := d0.corners) == d0
    ensures d1.edgeData == d0.edgeData && d1.hasFakeVertex == d0.hasFakeVertex
    ensures d1.vertexMaterial == d0.vertexMaterial && d1.meshDataIndex == d0.meshDataIndex
  {
  }
}
