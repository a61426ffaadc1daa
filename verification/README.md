# Smooth terrain with blocks — a Dafny model of the voxel core

The engine streams a heightmap terrain through an octree of levels of detail
(LODs). It lets the player place cube blocks and sculpt spheres into that
terrain. It then builds meshes by dual contouring over the leaves of the
octree. This project models the engine's integer and structural core and
proves properties of that model:

- **Lattice and IDs** (`Lattice`).
  - World positions are kept in eighths of a world unit, so every position the
    engine can reach is an integer. A chunk is 128 eighths (16 units), the
    smallest node is 2 eighths (0.25) and a cube cell is 8 eighths.
  - The six LOD ranges are `[4, 4, 4, 3, 3, 4]`, and an octree at the top LOD
    is 4096 eighths across.
  - Node IDs, node bounds, cube-grid transforms and C#'s truncating division
    are written out.
- **Spatial octree** (`SpatialOctree`): dividing, collapsing, the descent of
  `_GetNode` and `_FindNodeOrParent`, chunk-node creation and destruction,
  and the parent-chunk search.
- **Cube octrees and the block and sphere stores** (`CubeOctrees`,
  `ChunkLookup`): placing a block, the native mirror of the cube store,
  override values, and the chunk lookups of the main thread and of the jobs.
  The stores are *in step with the trees* (`StoreMatchesTrees`) when the
  managed and native maps mirror each other, every key lies in the box of a
  loaded cube octree, and inside each octree's box the keys are exactly the
  nodes whose value is not 255. Block placement keeps this, and under it
  never throws.
- **Sampling and planning** (`Surfaces`, `Sampling`, `Refinement`,
  `HeightmapFiller`):
  - the per-corner source priority and the per-edge crossing plan;
  - the twelve-record node data;
  - the refinement of cube nodes;
  - the exposed-face tests;
  - the heightmap fast path that writes terrain crossings straight into the
    leaves.
- **Dual contouring and mesh bookkeeping** (`ContourTables`, `Traversal`,
  `Contouring`, `LeafNodes`, `MeshStreams`):
  - the cell, face and edge walks and their tables;
  - edge signs and materials;
  - filling in missing vertices, quads and triangles, and the vertex-index
    cache;
  - the seven per-chunk mesh streams.
- **World update and mesh pipeline** (`WorldUpdater`, `MeshPipeline`):
  - the required chunk nodes around the player, and reconciling them with the
    loaded ones;
  - octree and chunk-node creation and destruction;
  - the seam requests of a changed chunk and the seam nodes;
  - the node cache a meshing pass builds.
- **Ring-buffer queue** (`SimpleQueue`): the bounded FIFO the jobs use.

Throwing operations return a `Failure` of the `Wrappers.Result` type. A
lookup that returns null returns `None`.

Floating-point geometry is a parameter of the model. This covers the terrain
height and normal, sphere distances, and averaged vertex positions. Where the
engine compares floats with a tolerance, the model states the exact lattice
comparison the tolerance stands for.

## Model

| member | source | states |
|---|---|---|
| `Lattice.Constants` | Assets/Scripts/WorldSettings.cs:7-13 | The configured top LOD is 5, an octree is 512 units and a cube octree 512 cells, a minimum node is a quarter unit, and a chunk at terrain resolution is 8 units. |
| `Lattice.Max` | Assets/Scripts/Structs.cs:181 | The max corner is the min corner shifted by the edge on every axis. |
| `Lattice.CsDiv` | Assets/Scripts/Util.cs:24-27 | C#'s `/` truncates toward zero: it agrees with floor division for non-negative dividends, and with the negated floor of the negated dividend for negative ones. |
| `Lattice.FloorToMultiple` | Assets/Scripts/Util.cs:24-27 | The result is a multiple of `size` at most `val` and within one `size` of it, also for negative `val`, where the truncating division needs the correction step. |
| `Lattice.FloorToMultipleIsFloor` | Assets/Scripts/JobsData.cs:267-270 | The engine's truncating formula equals the Euclidean floor `val - val % size`, for every sign of `val`. |
| `Lattice.FloorToMultipleIsGreatest` | Assets/Scripts/Util.cs:24-27 | No multiple of `size` lies strictly between the result and `val`, so it is the greatest multiple at or below `val`. |
| `Lattice.Log2ExactComplete` | Assets/Scripts/Structs.cs:141-152 | The exact base-2 logarithm that the bound-to-ID conversion takes of an edge fails exactly on edges that are not powers of two. |
| `Lattice.LodOfLodSize` | Assets/Scripts/Structs.cs:141-152 | The LOD read back from the edge of a LOD's chunk is that LOD. |
| `Lattice.LodSizeValid` | Assets/Scripts/Structs.cs:59-66 | The edge of a chunk at any LOD is a valid node edge: the minimum edge times a power of two. |
| `Lattice.ValidDivides` | Assets/Scripts/Octree.cs:121-140 | A smaller valid node edge divides a larger one. |
| `Lattice.OctantDivMod` | Assets/Scripts/ParallelWorks.cs:307 | The engine's `(j / 4, (j % 4) / 2, j % 2)` is the octant of child index `j`. |
| `Lattice.OctantRoundTrip` | Assets/Scripts/ParallelWorks.cs:305-308 | Child index and octant are inverse on the unit cube, so the eight slots are distinct. |
| `Lattice.ChildIdxHasPoint` | Assets/Scripts/Octree.cs:179-198 | The child the descent picks toward a point holds the point whenever the parent does. |
| `Lattice.ChildIdxOfChildPoint` | Assets/Scripts/Octree.cs:208-220 | Every point of child `idx` sends the descent into child `idx`. |
| `Lattice.ChildBoundInside` | Assets/Scripts/Octree.cs:121-140 | The child bounds a division creates are aligned to the half edge and lie inside the parent. |
| `Lattice.IdToBound` | Assets/Scripts/Structs.cs:59-66 | An ID's bound has the chunk edge of its LOD, and its min corner is the ID times that edge. |
| `Lattice.BoundToId` | Assets/Scripts/Structs.cs:141-152 | A bound has an ID here exactly when its edge is the chunk edge of a non-negative LOD. The ID then has that LOD, and its box holds the bound's min corner. |
| `Lattice.IdBoundRoundTrip` | Assets/Scripts/Structs.cs:141-152 | ID to bound to ID is the identity. |
| `Lattice.Shift` | Assets/Scripts/Structs.cs:42-45 | Adding a vector moves the coordinates and never changes the LOD. |
| `Lattice.AddIds` | Assets/Scripts/Structs.cs:38-41 | The LODs of the two IDs add, and adding a LOD-0 ID shifts the first by its coordinates. |
| `Lattice.SameBox` | Assets/Scripts/Structs.cs:184-187 | Integer bounds are equal exactly when all four components are. |
| `Lattice.Contains` | Assets/Scripts/Util.cs:83-101 | A box contains another exactly when it is at least as large and the other's extent lies within it on every axis. The float tolerance is read as exact lattice comparison. |
| `Lattice.ContainsReflexive` | Assets/Scripts/Util.cs:83-101 | Every box contains itself. |
| `Lattice.ContainsTransitive` | Assets/Scripts/Util.cs:83-101 | Containment is transitive, so containment in a child implies containment in the root. |
| `Lattice.GetNodeID` | Assets/Scripts/Util.cs:29-42 | The ID at `lod` has that LOD, and its bound holds `pos`. |
| `Lattice.GetNodeIDUnique` | Assets/Scripts/Util.cs:29-42 | An ID of the LOD whose bound holds `pos` is the one `GetNodeID` returns. |
| `Lattice.GetChunkNodeBound` | Assets/Scripts/Util.cs:44-55 | The box is the chunk-sized box of that LOD that holds `pos`, and its min corner is aligned to its edge. |
| `Lattice.ChunkBoundIsNodeBound` | Assets/Scripts/Util.cs:44-55 | The chunk bound of a point is the bound of the point's node ID at the same LOD. |
| `Lattice.ChunkBoundIgnoresUnitFloor` | Assets/Scripts/JobsData.cs:258 | Flooring a position to whole world units before the chunk lookup never changes the chunk found. |
| `Lattice.SignedDirToChar` | Assets/Scripts/Util.cs:12-17 | Directions 1–2 map to `x`, 3–4 to `y`, and everything else to `z`. |
| `Lattice.InitializeCubeParam` | Assets/Scripts/WorldSettings.cs:39-45 | After initialisation the transforms are set, and the cube octree edge is the octree edge in cubes. |
| `Lattice.WorldToCubeGrid` | Assets/Scripts/WorldSettings.cs:19-25 | It fails exactly before initialisation. Afterwards the transform is the grid offset 1 with scale `CubeSize`. |
| `Lattice.CubeGridToWorld` | Assets/Scripts/WorldSettings.cs:26-33 | It fails exactly before initialisation. Afterwards the transform is the grid offset 1 with scale `CubeSize`. |
| `Lattice.GetCubePos` | Assets/Scripts/Util.cs:125-133 | The cube cell returned is the one whose world extent holds the point. |
| `Lattice.GetWorldPos` | Assets/Scripts/Util.cs:135-138 | Returns a cube cell's min corner in world space. |
| `Lattice.CubeGridRoundTrip` | Assets/Scripts/WorldSettings.cs:41-42 | Once initialised, grid to world to grid is the identity on every cell. |
| `ChunkLookup.FindChunkNodeId` | Assets/Scripts/WorldData.cs:234-245 | Nothing is found exactly when no LOD registers the point's ID. Otherwise the result is the registered ID of the point at the lowest LOD that registers one, and its bound holds the point. |
| `ChunkLookup.FindChunkNode` | Assets/Scripts/WorldData.cs:234-245 | It returns the registered chunk node of the finest LOD whose ID holds the point, or null when no LOD registers one. |
| `ChunkLookup.ChunkNodeAt` | Assets/Scripts/WorldData.cs:230-233 | A registered ID yields its node. A missing ID throws. |
| `ChunkLookup.UnitFloor` | Assets/Scripts/JobsData.cs:258 | The result is the whole world unit at or below the point, and the point lies within one unit above it. |
| `ChunkLookup.FindChunk` | Assets/Scripts/JobsData.cs:254-264 | The jobs' lookup returns a registered chunk bound of the finest LOD holding the point, or the size -1 bound when none does. |
| `ChunkLookup.FindChunkAgrees` | Assets/Scripts/WorldData.cs:198-201 | When the jobs' chunk set mirrors the main thread's registry, as `AddChunkNode` keeps it, the jobs' lookup finds the bound of the node the main thread finds. |
| `ChunkLookup.RegisteredBound` | Assets/Scripts/WorldData.cs:215-218 | Under that mirror, a chunk bound is in the jobs' set exactly when the ID of the same LOD is registered. |
| `SpatialOctree.FindChild` | Assets/Scripts/Octree.cs:100-108 | A leaf returns itself. A divided node returns the child in octant `i`, which lies inside the node at half its edge. |
| `SpatialOctree.Divide` | Assets/Scripts/Octree.cs:121-140 | A leaf of at least twice the minimum edge keeps its bound and flags and gets eight new leaf children at the octant offsets of half its edge. |
| `SpatialOctree.DivideLeaves` | Assets/Scripts/Octree.cs:110-119 | The leaves of the divided node are exactly its eight child bounds. |
| `SpatialOctree.CollapseAll` | Assets/Scripts/Octree.cs:141-154 | The node becomes a leaf with everything else kept, and the bounds returned to the pool are exactly its descendants, each once. |
| `SpatialOctree.CollapseAllLeaves` | Assets/Scripts/Octree.cs:141-154 | After collapsing, the node is the only registered leaf of its subtree. |
| `SpatialOctree.FindRec` | Assets/Scripts/Octree.cs:208-220 | The node returned lies in the tree, holds the target's min corner, and has the target's edge unless it is a leaf. |
| `SpatialOctree.FindNodeOrParent` | Assets/Scripts/Octree.cs:200-207 | A target outside the node gives null. Otherwise it returns the node of the target's edge on the path, or the leaf the path ends in. |
| `SpatialOctree.GetNodeRec` | Assets/Scripts/Octree.cs:179-198 | The descent keeps the root bound and a well-formed tree. |
| `SpatialOctree.GetNodeRecFound` | Assets/Scripts/Octree.cs:179-198 | A node `_GetNode` returns has the target's edge, carries the edit, and is what `_FindNodeOrParent` finds in the new tree. |
| `SpatialOctree.GetNodeRecReaches` | Assets/Scripts/Octree.cs:179-198 | For an aligned target of a valid edge inside the node, `_GetNode` never returns null: it reaches a node whose bound is the target. |
| `SpatialOctree.GetNode` | Assets/Scripts/Octree.cs:169-178 | A target the node does not contain gives null and changes nothing. A node found has the target's edge, holds the target's min corner, carries the edit, and is what `FindNodeOrParent` then finds. |
| `SpatialOctree.GetNodeReaches` | Assets/Scripts/Octree.cs:169-178 | `GetNode` reaches every aligned target of a valid edge inside the node. |
| `SpatialOctree.PathToEnds` | Assets/Scripts/Octree.cs:77-91 | The path searched upward for a chunk node runs from the node to the node the descent stops at. |
| `SpatialOctree.FindParentChunkNode` | Assets/Scripts/Octree.cs:77-91 | A node is found exactly when some node on the path is a chunk, and it is then a chunk node of the path. |
| `SpatialOctree.GetParentChunkNodeID` | Assets/Scripts/Octree.cs:62-76 | No ID when there is no chunk node on the path. An ID found has the LOD of that node's edge and, for an aligned node, the node's bound. |
| `SpatialOctree.ChunkLodOf` | Assets/Scripts/Octree.cs:279 | A non-negative LOD stored is the LOD whose chunk edge is the node's edge. |
| `SpatialOctree.FindAllChunkNodes` | Assets/Scripts/Octree.cs:222-244 | Every node listed is a chunk node of the tree. A chunk node lists just itself. |
| `SpatialOctree.FindAllChunkNodesExact` | Assets/Scripts/Octree.cs:222-244 | The walk lists exactly the chunk nodes it reaches: a node is listed iff it is a chunk reached through non-chunk divided nodes of edge at least twice the chunk edge. |
| `SpatialOctree.InitializeOctree` | Assets/Scripts/Octree.cs:250-256 | A new octree is a single leaf root of the octree edge at the given ID's bound, with no chunk nodes. |
| `SpatialOctree.AddOnce` | Assets/Scripts/Octree.cs:281-282 | A guarded add lists an absent bound exactly once more and leaves a present one as it was, so the list stays free of duplicates. |
| `SpatialOctree.CreateChunkNode` | Assets/Scripts/Octree.cs:268-289 | An aligned bound of valid edge inside the root always succeeds; the only failure is null node. The node found at the bound becomes a leaf flagged as a chunk, with its LOD and the mesh flag set, and the chunk list gains its bound once. |
| `SpatialOctree.RemoveOnce` | Assets/Scripts/Octree.cs:303-304 | Removing a bound drops its first occurrence, so from a duplicate-free list it removes the bound entirely and keeps the rest in order. |
| `SpatialOctree.DestroyChunkNode` | Assets/Scripts/Octree.cs:290-309 | An aligned bound of valid edge inside the root always succeeds; the only failure is null node. The node at the bound is a leaf without chunk or mesh flag, with LOD -1, and its bound leaves the chunk list once. |
| `SpatialOctree.CleanUpOctree` | Assets/Scripts/Octree.cs:258-266 | Every node of the tree goes back to the pool, the root last. |
| `CubeOctrees.AddCubeNode` | Assets/Scripts/WorldData.cs:298-310 | Material 255 changes nothing. A key already present throws a duplicate-key error. Otherwise both maps gain the key with the material, order and leaf flag, an existing parent entry loses its leaf flag, every other key is kept, and the two maps stay mirrors. |
| `CubeOctrees.AddCubeNodeLeaf` | Assets/Scripts/JobsData.cs:294-297 | After an add, the native `IsLeaf` of the key holds iff it was added as a leaf, and an existing parent entry is no longer a leaf. |
| `CubeOctrees.CubeValueUpdate` | Assets/Scripts/WorldData.cs:311-319 | An existing key gets the new material and order and keeps its leaf flag. A missing key throws. |
| `CubeOctrees.UpdateThenPureValue` | Assets/Scripts/WorldData.cs:311-319 | An updated cube reads back through `GetCubePureValue` with the new material and order, and keeps its leaf flag. |
| `CubeOctrees.AddThenPureValue` | Assets/Scripts/JobsData.cs:272-292 | An added cube reads back through `GetCubePureValue` with the material and order added. |
| `CubeOctrees.AlignedKeyOfCell` | Assets/Scripts/JobsData.cs:299-328 | Every point of an aligned cell yields that cell's key. |
| `CubeOctrees.GetCubePureValue` | Assets/Scripts/JobsData.cs:272-292 | Returns the stored material and order under the cube's aligned key, or 255 when nothing is stored. Overrides are ignored. |
| `CubeOctrees.GetCubeValue` | Assets/Scripts/JobsData.cs:299-328 | An override entry under the aligned key wins over the store. Otherwise the stored value is returned, or 255. |
| `CubeOctrees.GetCubeValueCellwise` | Assets/Scripts/JobsData.cs:299-328 | The value depends only on the aligned cell, not on the point in it. |
| `CubeOctrees.FindCubeGridPos` | Assets/Scripts/Util.cs:172-190 | A position whose key aligned to the LOD has a managed node reads that node's current value; one with no node reads 255. |
| `CubeOctrees.FindCube` | Assets/Scripts/Util.cs:162-165 | It fails before initialisation. Otherwise it is the lookup of the point's cube cell. |
| `CubeOctrees.FindCubeGridPosAgrees` | Assets/Scripts/JobWorks.cs:295-301 | On mirrored stores, the managed lookup and the native lookup without overrides agree. |
| `CubeOctrees.GetCubeOctreeID` | Assets/Scripts/Util.cs:139-143 | The ID is the cube octree whose box holds the cell. |
| `CubeOctrees.InitializeCubeOctree` | Assets/Scripts/Octree.cs:314-320 | A new cube octree is one leaf root covering its ID's box, with the given material and order 0, registered through `AddCubeNode` as a leaf with order 0. |
| `CubeOctrees.DivideCube` | Assets/Scripts/Octree.cs:351-381 | A division gives eight leaf children. The child on the path takes the node's value and order, the others are unset with order 0, and one add is recorded per child with the node as parent. |
| `CubeOctrees.GetNodeAndSetVal` | Assets/Scripts/Octree.cs:383-415 | The tree stays well formed with the same box. The first write recorded is an add when the node was unset and an update otherwise. |
| `CubeOctrees.SetValPath` | Assets/Scripts/Octree.cs:383-415 | After the descent, the whole path carries the new material and order. |
| `CubeOctrees.PathEndHolds` | Assets/Scripts/Octree.cs:383-415 | In a well-formed tree, the descent from a node holding the point ends at a node of the target edge holding the point. |
| `CubeOctrees.SetValLastOp` | Assets/Scripts/Octree.cs:418-421 | The last write of the descent is at a cell of the target edge holding the point, with the material and order. |
| `CubeOctrees.GetOrCreateCubeOctree` | Assets/Scripts/WorldData.cs:273-285 | An existing octree is returned unchanged. Otherwise the ID gains an octree, and the existing octrees, the spheres and the order counter are kept. |
| `CubeOctrees.SetData` | Assets/Scripts/Octree.cs:418-421 | On success the path in octree `id` carries the material and order from the root down to the unit cell holding the point. The order counter and the spheres are kept. |
| `CubeOctrees.OctreeIdOfCell` | Assets/Scripts/Util.cs:139-143 | Every cell of an octree's box has that octree's ID, so the boxes of different octrees share no cell. |
| `CubeOctrees.OctreeBoxesApart` | Assets/Scripts/Util.cs:139-143 | A non-empty box inside one octree's box is not inside another's. |
| `CubeOctrees.MarksChild` | Assets/Scripts/Octree.cs:383-415 | Inside the box of a child, a divided node has a registered node exactly where that child has one. |
| `CubeOctrees.AddOpsApply` | Assets/Scripts/WorldData.cs:298-310 | A run of child registrations on mirrored stores, at most one of them with a material other than 255 and that one under a fresh key, never throws; the stores stay mirrors and gain at most that key. |
| `CubeOctrees.DivideOpsApply` | Assets/Scripts/Octree.cs:351-381 | The registrations of a division on mirrored stores, with the child on the path not yet a key, never throw; exactly that child's key is added. |
| `CubeOctrees.HereOpApply` | Assets/Scripts/Octree.cs:386-397 | The write at a node of a tree that tracks mirrored stores never throws: an unset node is not yet a key, so its add succeeds, and a set node is a key, so its update succeeds. Afterwards the node's box is a key. |
| `CubeOctrees.StepTracksChild` | Assets/Scripts/Octree.cs:383-415 | One level of the descent: the writes so far succeed, and the child it descends into tracks the stores, with the node's box and, after a division, the child's box added. |
| `CubeOctrees.ParentTracks` | Assets/Scripts/Octree.cs:383-415 | Back up one level: once the child on the path tracks the stores, so does the node, and no key outside the node's box changed. |
| `CubeOctrees.SetValTracks` | Assets/Scripts/Octree.cs:383-415 | The whole descent on a tree that tracks mirrored stores never throws. The stores stay mirrors, the new tree tracks them, and no key outside the tree's box changes. |
| `CubeOctrees.NoKeysInNewRoot` | Assets/Scripts/WorldData.cs:273-285 | When the stores are in step with the trees, no registered node lies in the box of an octree not yet created. |
| `CubeOctrees.GetOrCreateKeepsStore` | Assets/Scripts/WorldData.cs:273-285 | With a material other than 255 on stores in step with the trees, getting or creating an octree never throws, and the stores stay in step. |
| `CubeOctrees.SetDataOk` | Assets/Scripts/Octree.cs:418-421 | With a material other than 255 on stores in step with the trees, `SetData` never throws and keeps them in step. |
| `CubeOctrees.AddCubeOk` | Assets/Scripts/Util.cs:154-161 | On an initialised grid whose stores are in step with the trees, adding a cube of a material other than 255 succeeds and keeps the stores in step. |
| `CubeOctrees.AddCube` | Assets/Scripts/Util.cs:154-161 | It fails before initialisation. On success the path in the point's cube octree carries the material and the old counter value down to the unit cell, the counter advances by one, and the spheres are kept. |
| `CubeOctrees.AddCubeReadBack` | Assets/Scripts/Util.cs:154-161 | After a successful add of a material other than 255, the cell reads back that material and the order used. |
| `CubeOctrees.AddSphere` | Assets/Scripts/WorldData.cs:321-324 | The sphere is appended with the current order, the order counter advances by one, and the cube octrees and their store are unchanged. |
| `CubeOctrees.EditOrdersIncrease` | Assets/Scripts/WorldData.cs:12 | Across any sequence of block and sphere edits, the orders given out start at the counter, increase strictly, and stay below the final counter. |
| `CubeOctrees.ApplyEditsAllStamped` | Assets/Scripts/Util.cs:154-161 | On an initialised grid whose stores are in step with the trees, when no block edit uses material 255, every edit is stamped, the counter advances by the number of edits, and the stores stay in step. |
| `CubeOctrees.FindOverlappingMaxChunk` | Assets/Scripts/Util.cs:191-232 | The highest LOD is the maximum of the LODs found, -1 exactly when nothing is found; the LODs differ flag is set exactly when they differ; the chunk set is exactly the bounds found. |
| `CubeOctrees.FoundComplete` | Assets/Scripts/Util.cs:191-232 | A chunk node is in the list exactly when some corner's lookup returns it. |
| `SimpleQueue.NewQueue` | Assets/Scripts/JobsData.cs:348-355 | A new queue is valid and empty, with the given capacity. |
| `SimpleQueue.Next` | Assets/Scripts/JobsData.cs:363 | The index step stays inside the buffer and wraps from the last slot to 0. |
| `SimpleQueue.Enqueue` | Assets/Scripts/JobsData.cs:357-365 | A full queue throws. Otherwise the item becomes the last item, the earlier items are kept in order, and the queue stays valid. |
| `SimpleQueue.Dequeue` | Assets/Scripts/JobsData.cs:367-376 | An empty queue throws. Otherwise the first item is returned and the queue holds the rest in order. |
| `SimpleQueue.Peek` | Assets/Scripts/JobsData.cs:378-383 | An empty queue throws. Otherwise the first item is returned and the queue is unchanged. |
| `SimpleQueue.Count` | Assets/Scripts/JobsData.cs:385 | The count is the number of items in the queue. |
| `SimpleQueue.IsEmpty` | Assets/Scripts/JobsData.cs:387 | The queue is empty exactly when it holds no items. |
| `SimpleQueue.Clear` | Assets/Scripts/JobsData.cs:389-394 | The queue ends empty and valid, with the same capacity. |
| `SimpleQueue.EnqueueAllAppends` | Assets/Scripts/JobsData.cs:357-365 | FIFO order: items enqueued onto a queue with room for them all are appended in order. Enqueuing more than the room fails. |
| `SimpleQueue.DequeueNTakesPrefix` | Assets/Scripts/JobsData.cs:367-376 | FIFO order: dequeuing `n` items yields the first `n` in order and leaves the rest. Asking for more than the count fails. |
| `LeafNodes.Reset` | Assets/Scripts/WorldData.cs:41-55 | A reset leaf has invalid corners, no crossings, no cached index, no vertex, vertex material 0 and no data flags. The normal and the chunk and node IDs are kept. |
| `LeafNodes.Initialize` | Assets/Scripts/WorldData.cs:32-39 | The chunk and node IDs are bound, and the leaf is otherwise in its reset state. |
| `LeafNodes.SetCornerData` | Assets/Scripts/WorldData.cs:132-135 | A corner inside the unit cube writes its slot only. A corner outside throws. |
| `LeafNodes.GetCornerData` | Assets/Scripts/WorldData.cs:136-139 | A corner outside the unit cube throws an index error. Any other corner reads one of the stored corners. |
| `LeafNodes.CornerDataRoundTrip` | Assets/Scripts/WorldData.cs:132-139 | Writing a corner and reading it back gives the written source. Reading any other corner gives its old value. |
| `LeafNodes.AddEdgeData` | Assets/Scripts/WorldData.cs:125-129 | The crossing is appended, and the vertex material becomes the larger of itself and the solid material. |
| `LeafNodes.AddAllEdgesFacts` | Assets/Scripts/ParallelWorks.cs:310-314 | Adding records appends their crossings in order, and the vertex material ends as the largest of its start and the records' materials. |
| `LeafNodes.GetMeshDataVertexIndex` | Assets/Scripts/WorldData.cs:109-124 | A cache entry for the mesh's current ID is reused. Otherwise the vertex is written once at the end of the mesh and its index cached under that ID. |
| `LeafNodes.VertexIndexStable` | Assets/Scripts/WorldData.cs:109-124 | The index returned names a vertex holding the leaf's position and normal, and asking again returns the same index without writing. |
| `LeafNodes.ClearedMeshGetsNewVertex` | Assets/Scripts/ChunkMeshData.cs:29-40 | After a mesh takes a new ID, an index cached under an earlier ID is not reused: the vertex is written again, at index 0. |
| `LeafNodes.CopyCorners` | Assets/Scripts/ParallelWorks.cs:305-308 | Corners from `j` on take the job's corners, earlier ones are kept, and nothing else of the leaf changes. |
| `LeafNodes.FillFromNodeData` | Assets/Scripts/ParallelWorks.cs:289-321 | Filling a leaf from its sampling job keeps it well formed. `FillMatchesJob` states what it holds. |
| `LeafNodes.FillMatchesJob` | Assets/Scripts/ParallelWorks.cs:289-321 | After filling, the leaf holds exactly what the job produced: its corners, one crossing per stored record in order, the largest material, and its flags. |
| `Surfaces.MakeSDF` | Assets/Scripts/Structs.cs:403-410 | The source keeps the type, material and order given. The type stays as given even for material 255, because the constructor's later assignment writes the parameter. |
| `Surfaces.SphereSDFInfo` | Assets/Scripts/Structs.cs:411-418 | A sphere source takes its material and order from the sphere and keeps the given type. |
| `Surfaces.ConstructorsKeepType` | Assets/Scripts/Structs.cs:403-418 | Neither constructor rewrites the type of a material-255 source. |
| `Surfaces.Terrain` | Assets/Scripts/Structs.cs:394-397 | A terrain source has kind terrain, the material given, and order 0, so any edit outranks it. |
| `Surfaces.Invalid` | Assets/Scripts/Structs.cs:398-401 | The invalid source has the unset kind and material and order 0. |
| `Surfaces.GridPointCeiled` | Assets/Scripts/Util.cs:117-122 | The result is a cube-grid plane, at or above the coordinate and less than one cube above it. |
| `Surfaces.GridPointCeiledUnique` | Assets/Scripts/Util.cs:117-122 | It is the only grid plane in that range. |
| `Surfaces.CubeSurfacePosNor` | Assets/Scripts/Structs.cs:434-454 | On a cube edge, the surface point moves only along the edge axis to the ceiled grid plane. The normal is the axis unit vector, positive iff the edge sign is. |
| `Surfaces.CubeSurfaceOnEdge` | Assets/Scripts/Structs.cs:434-454 | The cube surface point lies on the edge's line, at most one cube ahead of the edge start. |
| `Surfaces.CreateNodeData` | Assets/Scripts/JobsData.cs:90-100 | Fresh node data is well formed for the given node, with no crossings and no flags. |
| `Surfaces.CornerSlot` | Assets/Scripts/JobsData.cs:104-124 | A corner of the unit cube has slot `x*4+y*2+z`. Anything else falls to slot 7, as the `default` case does. |
| `Surfaces.SetCornerSDF` | Assets/Scripts/JobsData.cs:102-125 | Only the corner's slot changes, and it holds the value written. |
| `Surfaces.CornerRoundTrip` | Assets/Scripts/JobsData.cs:102-155 | Writing corner `(x, y, z)` and reading index `x*4+y*2+z` gives the value back, and every other corner keeps its value. |
| `Surfaces.AddSurfaceData` | Assets/Scripts/JobsData.cs:157-179 | An invalid record, or one past twelve, changes nothing. A valid record with room is stored at the next slot. |
| `Surfaces.GetSurfaceData` | Assets/Scripts/JobsData.cs:180-203 | An index out of range reads no surface. A stored slot reads a valid record whose type reads 0. |
| `Surfaces.AddAllKeepsAccepted` | Assets/Scripts/JobsData.cs:157-179 | Adding a list of records keeps, in order, the first valid ones that fit in the twelve slots. |
| `Surfaces.AddAllFull` | Assets/Scripts/JobsData.cs:157-179 | A node with twelve records takes no more. |
| `Surfaces.ReadBackAccepted` | Assets/Scripts/JobsData.cs:180-203 | For a node filled from empty, slot `i` reads back the `i`-th valid record of the list. |
| `MeshStreams.NewMeshData` | Assets/Scripts/ChunkMeshData.cs:11-16 | A new stream is empty, not flagged, and draws a new ID from the counter. |
| `MeshStreams.Initialize` | Assets/Scripts/ChunkMeshData.cs:18-27 | The stream is bound to the chunk, takes a new ID, is emptied, and is flagged for upload. |
| `MeshStreams.Clear` | Assets/Scripts/ChunkMeshData.cs:29-40 | A cleared stream keeps its number and chunk, has a new ID and empty streams, and is flagged for upload. |
| `MeshStreams.FreshId` | Assets/Scripts/ChunkMeshData.cs:29-40 | An ID drawn from the counter differs from every ID drawn before, and the counter moves past it. |
| `MeshStreams.AddVertexNormal` | Assets/Scripts/ChunkMeshData.cs:60-64 | One vertex and its normal are appended at the next index. The triangles are kept. |
| `MeshStreams.AddVertexNormalMat` | Assets/Scripts/ChunkMeshData.cs:66-71 | It also appends one material entry, so vertices and materials stay in step. |
| `MeshStreams.AddTriangle` | Assets/Scripts/ChunkMeshData.cs:74-81 | One triangle over the three indices is appended and the stream is flagged and has data. The vertices and materials are kept. |
| `MeshStreams.AddTriangleMats` | Assets/Scripts/ChunkMeshData.cs:83-94 | One triangle is appended, with three material entries carrying the three materials and corner tags 1, 2 and 3. Earlier materials and the vertices are kept. |
| `MeshStreams.FreshTriangleIndices` | Assets/Scripts/OctreeEdgeIterator.cs:568-575 | Three vertices written one after the other get the consecutive indices that the following triangle names. |
| `MeshStreams.NewChunkMeshData` | Assets/Scripts/ChunkMeshData.cs:110-116 | A new chunk has seven empty, unflagged streams with the IDs `next` to `next+6`, and the counter moves past them. |
| `MeshStreams.InitializeChunk` | Assets/Scripts/ChunkMeshData.cs:97-107 | Every stream is re-initialised for the chunk, in order, each with a new ID. |
| `MeshStreams.InitializeChunkFresh` | Assets/Scripts/ChunkMeshData.cs:97-107 | After initialisation, no two streams of the chunk share an ID, and none reuses an ID issued before. |
| `MeshStreams.GetMeshData` | Assets/Scripts/ChunkMeshData.cs:118-129 | Index 0..6 yields that stream. Any other index yields null. |
| `MeshStreams.GetAllMeshData` | Assets/Scripts/ChunkMeshData.cs:133-144 | The result is exactly the streams flagged for upload, in stream order. |
| `MeshStreams.FlaggedOrdered` | Assets/Scripts/ChunkMeshData.cs:133-144 | The streams returned stay in increasing stream number. |
| `Sampling.FindSphereIsMax` | Assets/Scripts/JobWorks.cs:312-328 | No containing sphere has a greater order than the one chosen. None is chosen exactly when every containing sphere has order 0. Otherwise the one chosen contains the point, has positive order, and every earlier containing sphere has a smaller order. |
| `Sampling.CornerSource` | Assets/Scripts/JobWorks.cs:1648-1664 | A corner always gets a concrete material, never the unset mark. `CornerPriority` states which source wins. |
| `Sampling.CornerPriority` | Assets/Scripts/JobWorks.cs:1648-1664 | The cube wins when strictly newer, a tie goes to the sphere, and when the winner has no material the corner is terrain, 1 in the ground and 0 above it. |
| `Sampling.EmptyCornerIsTerrain` | Assets/Scripts/JobWorks.cs:1648-1664 | A corner with neither a cube nor a sphere is terrain, 1 in the ground and 0 above it. |
| `Sampling.PlanEdge` | Assets/Scripts/JobWorks.cs:1571-1600 | An SDF crossing has sign 1 or -1, and its source is one of the two ends. |
| `Sampling.PlanCrossing` | Assets/Scripts/JobWorks.cs:1571-1600 | Between sampled sources an edge is crossed exactly when one end is air and the other is not. It is a terrain edge exactly when both ends are terrain of different materials. An SDF edge has sign 1 exactly when the first end is solid, takes the solid end's material, and its source is the end of higher order, the second on a tie. |
| `Sampling.SDFEdgeData` | Assets/Scripts/JobWorks.cs:1564-1570 | The record is valid with the given material, axis and the source's type. A cube source places it on the cube grid surface. |
| `Sampling.EdgeSurface` | Assets/Scripts/JobWorks.cs:1571-1600 | An edge record is valid exactly when the plan finds a crossing. A terrain edge gives a terrain record of material 1. An SDF edge carries the source's type and the plan's material. Both lie on the edge's axis. |
| `Sampling.EdgeEnds` | Assets/Scripts/JobWorks.cs:1675-1686 | Each of the twelve edges joins two of the eight corners. `EdgeTable` states which. |
| `Sampling.EdgeTable` | Assets/Scripts/JobWorks.cs:1675-1686 | Each edge joins two corners that differ exactly in its axis's bit, clear in the first corner, and no edge is listed twice. |
| `Sampling.RecalculateSingleNode` | Assets/Scripts/JobWorks.cs:1602-1709 | The node keeps the eight corner sources. Its flags say which kinds of source occur, and its records are the valid edge crossings in edge order. |
| `Sampling.AddAllFromEmpty` | Assets/Scripts/JobWorks.cs:1602-1709 | Filling an empty node with at most twelve records keeps exactly the valid ones. |
| `Sampling.StoredCrossingsSeparateAir` | Assets/Scripts/JobWorks.cs:1602-1709 | Every stored crossing of a sampled node lies on an edge with one air end and one solid end. |
| `Refinement.DivCntOfPow2` | Assets/Scripts/JobWorks.cs:374-375 | For a cube of edge `2^k`, the bit-length formula gives `max(2, k - 1)` override levels. |
| `Refinement.LevelKeysAll` | Assets/Scripts/JobWorks.cs:371-394 | One level's loops visit exactly that level's cells. |
| `Refinement.OverrideKeys` | Assets/Scripts/JobWorks.cs:371-394 | The keys tried are the cells of every level from `i` to `n`, in loop order. |
| `Refinement.TryAddAll` | Assets/Scripts/JobWorks.cs:371-394 | A key already in the map keeps its entry, and every new key gets the value. |
| `Refinement.SetOverrideValues` | Assets/Scripts/JobWorks.cs:371-394 | Every cell of every level of the cube is mapped. A cell already mapped keeps its entry, and the others get the cube's own value and order. |
| `Refinement.OverrideReadsCoarse` | Assets/Scripts/JobWorks.cs:371-394 | After the overrides, a lookup at any point of the cube at any override level reads the cube's value, unless that cell was already overridden. |
| `Refinement.Get8Children` | Assets/Scripts/JobWorks.cs:1005-1018 | The result is the eight half-size children in index order. |
| `Refinement.ChildrenTile` | Assets/Scripts/JobWorks.cs:1005-1018 | The children are aligned, lie inside the node, and every point of the node lies in exactly one of them. |
| `Refinement.CubeChildren` | Assets/Scripts/JobWorks.cs:330-344 | A cube-grid node has eight children. `CubeChildrenAreChildren` states which. |
| `Refinement.CubeChildrenAreChildren` | Assets/Scripts/JobWorks.cs:330-344 | For the non-negative edges cube nodes have, these are the octree children. |
| `Refinement.Add8Children` | Assets/Scripts/JobWorks.cs:330-344 | The eight children are enqueued in order. A queue without room for all eight throws. |
| `Refinement.NodesAroundEdge` | Assets/Scripts/JobWorks.cs:776-801 | Four cells surround an edge, the second being the cell that starts at the edge. |
| `Refinement.NodesAroundEdgeShareIt` | Assets/Scripts/JobWorks.cs:776-801 | The four cells are distinct, and they are exactly the cells that share the edge. |
| `Refinement.FaceExposed` | Assets/Scripts/JobWorks.cs:537-540 | A face is exposed iff it is an air cube against an unset neighbour, or a solid cube against air or an unset neighbour. |
| `Refinement.AddFoundEdge` | Assets/Scripts/JobWorks.cs:396-516 | At most one hit is recorded, exactly when the direction is a face direction, that face crosses and lies on the grid. The hit is for that face, with the material and an air flag for material 0; its direction is on the face's axis, and equals the face's own exactly when the cube is solid. |
| `Refinement.AddFoundEdgeAgrees` | Assets/Scripts/JobWorks.cs:415-447 | For solid cubes and for max faces, the code as written records exactly what the intended code records. |
| `Refinement.AddFoundEdgeAirMinFace` | Assets/Scripts/JobWorks.cs:415-447 | For an air cube asked for its min face, the as-written code also runs the max-face block: it records the intended edges plus the opposite face's. |
| `Refinement.DivideChild` | Assets/Scripts/JobWorks.cs:993 | A child is divided further exactly when it is not accepted as is. |
| `Refinement.ProcessNode` | Assets/Scripts/JobWorks.cs:1020-1085 | Above cube LOD 1, or when the node is accepted as is, the node itself is sent to sampling. At cube LOD 1 otherwise its eight children are sent. |
| `Refinement.ProcessNodeTiles` | Assets/Scripts/JobWorks.cs:1020-1085 | The nodes sent tile the node: each is an aligned descendant at most two levels down, every point is covered, and no two overlap. |
| `HeightmapFiller.CellEdge` | Assets/Scripts/OctreeDataFiller.cs:8 | The cell edge is positive and `GridCount` cells make the chunk edge. |
| `HeightmapFiller.CellBelow` | Assets/Scripts/OctreeDataFiller.cs:28 | The cell returned is the one whose half-open range `(c*s, (c+1)*s]` holds the height. |
| `HeightmapFiller.CellBelowUnique` | Assets/Scripts/OctreeDataFiller.cs:28 | That cell is the only one whose range holds the height. |
| `HeightmapFiller.LevelCrossed` | Assets/Scripts/OctreeDataFiller.cs:42-78 | A level lies strictly between the cells of two neighbouring heights exactly when the surface passes it between the two columns. |
| `HeightmapFiller.SideJobsExact` | Assets/Scripts/OctreeDataFiller.cs:42-78 | A side job at a level exists exactly when the level is in the grid and the surface passes it between the column and its neighbour. The direction says which of the two is higher. |
| `HeightmapFiller.YEdgeAsWrittenLosesFloor` | Assets/Scripts/OctreeDataFiller.cs:34 | The y test as written takes a height on the chunk's floor, whose cell is below the chunk, and rejects a height on its ceiling. |
| `HeightmapFiller.YEdgeInside` | Assets/Scripts/OctreeDataFiller.cs:34 | The corrected test keeps exactly the heights whose cell lies inside the chunk. |
| `HeightmapFiller.YEdgeOwnedOnce` | Assets/Scripts/OctreeDataFiller.cs:34 | Of a stack of chunks of one edge, exactly one takes a given height with the corrected test: the one that holds its cell. |
| `HeightmapFiller.YJobsExact` | Assets/Scripts/OctreeDataFiller.cs:28-40 | The vertical job is the up edge of the cell holding the height, when the test takes the height, and there is none otherwise. |
| `HeightmapFiller.YJobsAsWrittenMisplaced` | Assets/Scripts/OctreeDataFiller.cs:34 | With the test as written, a height on the chunk's floor gives a job at level -1, outside the chunk's cells. |
| `HeightmapFiller.ColumnJobsExact` | Assets/Scripts/OctreeDataFiller.cs:6-83 | A column's jobs, by direction: one up edge at the height's cell, and one side edge per crossed level toward each neighbour. |
| `HeightmapFiller.ChunkJobsExact` | Assets/Scripts/OctreeDataFiller.cs:6-83 | The chunk's jobs are exactly the jobs of its columns. |
| `HeightmapFiller.Offsets` | Assets/Scripts/OctreeDataFiller.cs:87-89 | Four cells surround an edge of each axis. `OffsetsShareEdge` states where. |
| `HeightmapFiller.OffsetsShareEdge` | Assets/Scripts/OctreeDataFiller.cs:87-89 | For the six directions, the four cells are those `_FindNodesAroundEdge` lists, so they are exactly the cells sharing the edge. |
| `HeightmapFiller.EdgePosOnEdge` | Assets/Scripts/OctreeDataFiller.cs:91-171 | Seen from each of the four cells, the air corner is the edge's air end and the solid corner its solid end. |
| `HeightmapFiller.NodeCornersOnEdge` | Assets/Scripts/OctreeDataFiller.cs:91-171 | At world scale, the air corner of every cell is the air end of the edge, and the solid corner the solid end. |
| `HeightmapFiller.MarkLeaf` | Assets/Scripts/OctreeDataFiller.cs:209-211 | The leaf gains the crossing and a vertex. Its air corner becomes terrain 0 and its solid corner terrain 1. The other corners are kept. |
| `HeightmapFiller.FillCell` | Assets/Scripts/OctreeDataFiller.cs:174-214 | It fails with null node exactly when the cell is to be marked and the probe finds a node that is not a leaf. Otherwise the cell is recorded as visited; a leaf found is marked when asked, and in every other case the probe's state is kept. |
| `HeightmapFiller.FillEdgeDataHeightmap` | Assets/Scripts/OctreeDataFiller.cs:174-214 | It fails before cube-grid initialisation, and otherwise only with null node. The edge's four cells are recorded as visited. A leaf is marked only when neither end holds a cube in the cube grid. |
| `HeightmapFiller.FillChunkHeightMap` | Assets/Scripts/OctreeDataFiller.cs:6-83 | The cells visited are those of every job of the chunk's columns, with the y test as written. The only failures are an uninitialised cube grid and null node. |
| `HeightmapFiller.FillChunkHeightMapCorrected` | Assets/Scripts/OctreeDataFiller.cs:34 | The cells visited are those of every job of the chunk's columns, with the corrected y test. The only failures are an uninitialised cube grid and null node. |
| `HeightmapFiller.CorrectedYJobsInChunk` | Assets/Scripts/OctreeDataFiller.cs:34 | With the corrected test, every vertical crossing lies on an edge of a cell of the chunk. |
| `HeightmapFiller.FillChunkHeightMapFindsLeaves` | Assets/Scripts/OctreeDataFiller.cs:6-83 | On a collapsed chunk of its LOD's size, both fills succeed exactly when the cube grid is initialised or there are no jobs, and then fail only with not initialised. |
| `ContourTables.AxisOf` | Assets/Scripts/OctreeEdgeIterator.cs:327-377 | The result is an axis, and it is 0 exactly for `x`. |
| `ContourTables.QuadrantsAroundEdge` | Assets/Scripts/OctreeEdgeIterator.cs:54-181 | The four nodes of an edge step sit around their edge in LT, RT, LB, RB order. |
| `ContourTables.CellFaceLayout` | Assets/Scripts/OctreeEdgeIterator.cs:200-213 | Each listed child pair shares a face along its direction, low child first, and the pair determines the face. |
| `ContourTables.CellFacesDistinct` | Assets/Scripts/OctreeEdgeIterator.cs:200-213 | The twelve pairs are twelve different inner faces. |
| `ContourTables.CellEdgeLayout` | Assets/Scripts/OctreeEdgeIterator.cs:214-225 | Each listed quadruple surrounds an inner edge of the node in LT, RT, LB, RB order, and the six rows are different edges. |
| `ContourTables.FaceFaceLayout` | Assets/Scripts/OctreeEdgeIterator.cs:227-243 | Each listed pair of a face step shares one quarter of the face. The first child comes from the low node and the second from the high node. |
| `ContourTables.FaceEdgeLayout` | Assets/Scripts/OctreeEdgeIterator.cs:244-283 | Each listed quadruple of a face step surrounds one of the four edges that cross the face, in LT, RT, LB, RB order. |
| `ContourTables.EdgeEdgeLayout` | Assets/Scripts/OctreeEdgeIterator.cs:285-299 | Each listed quadruple of an edge step surrounds one half of the same edge, and node `k` gives its own child around that half. |
| `ContourTables.EdgeCornersOnEdge` | Assets/Scripts/OctreeEdgeIterator.cs:54-181 | Whichever node `GetEdgeSign` reads, the two corners it reads are the two ends of the edge the four nodes share. |
| `Traversal.FindChildLower` | Assets/Scripts/Octree.cs:100-108 | A child returned by `FindChild` is no higher than its parent, and strictly lower unless the parent is a leaf. |
| `Traversal.CellProc` | Assets/Scripts/OctreeEdgeIterator.cs:302-325 | A leaf gives no quads. Every quad a cell step emits is over four leaves of the node. |
| `Traversal.FaceProc` | Assets/Scripts/OctreeEdgeIterator.cs:327-377 | Two leaves give no quads. Every quad a face step emits is over leaves of the two nodes. |
| `Traversal.EdgeProc` | Assets/Scripts/OctreeEdgeIterator.cs:379-406 | Four leaves give exactly their own quad. Otherwise every quad is over leaves of the four nodes. |
| `Traversal.FaceWalk` | Assets/Scripts/OctreeEdgeIterator.cs:311-316 | A face step over children that are all leaves emits nothing. Otherwise its quads are over the node's leaves. |
| `Traversal.EdgeWalk` | Assets/Scripts/OctreeEdgeIterator.cs:318-323 | When an inner edge's four cells are leaves, its step emits exactly that edge's quad. |
| `Traversal.CrossWalk` | Assets/Scripts/OctreeEdgeIterator.cs:363-375 | When the four children around a crossing edge are leaves, its step emits exactly their quad. |
| `Traversal.HalfWalk` | Assets/Scripts/OctreeEdgeIterator.cs:389-404 | When the four children around one half of the edge are leaves, its step emits exactly their quad. |
| `Traversal.CellProcReachesEdge` | Assets/Scripts/OctreeEdgeIterator.cs:302-325 | A cell step emits the quad of each of the six inner edges of a split node whose four cells around the edge are leaves. |
| `Traversal.CellProcOneLevel` | Assets/Scripts/OctreeEdgeIterator.cs:302-325 | A node split once into eight leaves walks exactly its six inner edges, in table order. |
| `Traversal.EdgeProcReachesHalf` | Assets/Scripts/OctreeEdgeIterator.cs:379-406 | An edge step that is not over four leaves emits the quad of each half of its edge whose four nearest children are leaves. |
| `Traversal.EdgeProcHalves` | Assets/Scripts/OctreeEdgeIterator.cs:379-406 | An edge step that goes down a level is its two halves, in order. |
| `Traversal.FaceProcReachesCrossing` | Assets/Scripts/OctreeEdgeIterator.cs:327-377 | A face step that is not over two leaves emits the quad of each of the four edges crossing the face whose four children are leaves. |
| `Contouring.SmallestNode` | Assets/Scripts/OctreeEdgeIterator.cs:54-181 | The leaf read is one of the four, and none of the four is smaller. |
| `Contouring.SignOf` | Assets/Scripts/OctreeEdgeIterator.cs:164-180 | The sign is 1 for solid then air, -1 for air then solid, and 0 when the ends agree in solidity. |
| `Contouring.SignAntisymmetric` | Assets/Scripts/OctreeEdgeIterator.cs:164-180 | Reading the edge from its other end negates the sign. |
| `Contouring.Dominant` | Assets/Scripts/OctreeEdgeIterator.cs:496 | The source deciding the edge is the end of higher edit order, the second end on a tie. |
| `Contouring.EdgeMat` | Assets/Scripts/OctreeEdgeIterator.cs:495 | The surface material is that of one of the ends, and on a crossed edge that of the solid end. |
| `Contouring.EdgeMatSolid` | Assets/Scripts/OctreeEdgeIterator.cs:495 | On a crossed edge, the surface material is the solid end's: never air and never the invalid mark. |
| `Contouring.GetEdgeSign` | Assets/Scripts/OctreeEdgeIterator.cs:54-181 | The sign is that of the two corners read. It reports a cube edge, or a sphere edge, exactly when the deciding source is of that type. |
| `Contouring.EdgeSignReads` | Assets/Scripts/OctreeEdgeIterator.cs:54-181 | The corners read are the two ends of the quad's shared edge, in a smallest leaf, low end first. |
| `Contouring.DistinctLeaves` | Assets/Scripts/OctreeEdgeIterator.cs:417-421 | The result holds the quad's leaves, each exactly once. |
| `Contouring.Contributors` | Assets/Scripts/OctreeEdgeIterator.cs:409-440 | The vertices averaged are those of the distinct leaves that hold a crossing, each leaf counted once. |
| `Contouring.MatSource` | Assets/Scripts/OctreeEdgeIterator.cs:450-454 | A filled-in vertex takes its material from the first of LT, RT, LB that has a vertex, and from RB when none does. |
| `Contouring.FixMissingData` | Assets/Scripts/OctreeEdgeIterator.cs:443-489 | When some leaf lacks a vertex, each such leaf borrows the average position and normal and the chosen material, and is marked as filled in. Otherwise nothing changes. |
| `Contouring.FixGivesVertices` | Assets/Scripts/OctreeEdgeIterator.cs:443-489 | After filling in, every leaf of the quad has a vertex, keeps its corners, and is otherwise unchanged if it had a vertex. |
| `Contouring.FixIdempotent` | Assets/Scripts/OctreeEdgeIterator.cs:447 | Filling in is idempotent: once every leaf has a vertex, a second pass changes nothing. |
| `Contouring.FixKeepsCorners` | Assets/Scripts/OctreeEdgeIterator.cs:443-489 | Filling in vertices never changes a corner. |
| `Contouring.FixKeepsSound` | Assets/Scripts/OctreeEdgeIterator.cs:443-489 | Filling in keeps the index caches sound: a leaf that borrows a vertex had none, and so had nothing cached. |
| `Contouring.GetCubeNormal` | Assets/Scripts/OctreeEdgeIterator.cs:542-559 | The result is the unit vector along the edge axis on the side the plane normal faces, positive on a zero component. |
| `Contouring.CubeNormalFacesPlane` | Assets/Scripts/OctreeEdgeIterator.cs:542-559 | The cube normal is a unit axis vector whose dot product with the plane normal is not negative. |
| `Contouring.CubeNormalStable` | Assets/Scripts/OctreeEdgeIterator.cs:542-559 | A cube normal is its own cube normal: the choice is a projection. |
| `Contouring.FreshTriValid` | Assets/Scripts/OctreeEdgeIterator.cs:563-576 | A triangle over three fresh vertices keeps the mesh valid and extends it by one triangle whose corners hold the given positions, normals and materials. |
| `Contouring.CornerNormals` | Assets/Scripts/OctreeEdgeIterator.cs:560-608 | A triangle over the leaves' own vertices takes the leaves' normals. On a cube edge all three corners get one cube normal. |
| `Contouring.OwnMats` | Assets/Scripts/OctreeEdgeIterator.cs:586-589 | Except on a sphere edge of material 1, the triangle takes the edge material three times. |
| `Contouring.OwnTri` | Assets/Scripts/OctreeEdgeIterator.cs:560-608 | The cube, sphere and SDF branches write three new vertices and one triangle over them, with the branch's normals and materials. |
| `Contouring.SharedVertex` | Assets/Scripts/OctreeEdgeIterator.cs:611 | The index found names a vertex holding the leaf's position and normal, and the leaf's cache now maps the mesh ID to it. |
| `Contouring.SharedTri` | Assets/Scripts/OctreeEdgeIterator.cs:609-612 | One triangle is written over the three leaves' shared vertices, adding at most three vertices. Only caches and the mesh change. |
| `Contouring.SharedIndices` | Assets/Scripts/OctreeEdgeIterator.cs:611 | Each of the three lookups finds its own leaf's position and normal, adding at most three vertices. |
| `Contouring.CreateTri` | Assets/Scripts/OctreeEdgeIterator.cs:560-613 | One triangle is appended whose corners hold the three leaves' vertex positions, in order. The mesh stays valid and the corners of the store are kept. |
| `Contouring.Ordered` | Assets/Scripts/OctreeEdgeIterator.cs:502-514 | The leaves are reordered: along z the columns swap, and a negative sign swaps them again. The result is a permutation of the quad. |
| `Contouring.TriPlan` | Assets/Scripts/OctreeEdgeIterator.cs:516-540 | Four distinct leaves give two triangles. A quad with one collapsed side gives one triangle that leaves out the repeated leaf. |
| `Contouring.SignFlipsWinding` | Assets/Scripts/OctreeEdgeIterator.cs:510-514 | A negative edge sign writes the same quad with the columns swapped, with as many triangles and the winding reversed. |
| `Contouring.QuadTriangles` | Assets/Scripts/OctreeEdgeIterator.cs:492-541 | At most two triangles, and none exactly when the edge has no crossing. |
| `Contouring.QuadTrianglesInQuad` | Assets/Scripts/OctreeEdgeIterator.cs:516-540 | Every triangle of a quad is over leaves of the quad. |
| `Contouring.QuadTrianglesReady` | Assets/Scripts/OctreeEdgeIterator.cs:500 | Once the quad is filled in, every triangle `CreateQuad` writes is over leaves with vertices. |
| `Contouring.QuadPositions` | Assets/Scripts/OctreeEdgeIterator.cs:516-540 | There are three corner positions per triangle of the quad. |
| `Contouring.CreateQuad` | Assets/Scripts/OctreeEdgeIterator.cs:492-541 | An edge without a crossing changes nothing. Otherwise the quad is filled in and its planned triangles are appended over the leaves' vertices. Corners are kept and the mesh stays valid. |
| `Contouring.TriCountZero` | Assets/Scripts/OctreeEdgeIterator.cs:498 | A walk writes nothing exactly when none of its edges is crossed. |
| `Contouring.RunQuads` | Assets/Scripts/OctreeEdgeIterator.cs:379-406 | `CreateQuad` runs over a walk's quads in order. Corners are untouched, the mesh stays valid and only grows, and it gains the walk's triangle count. |
| `Contouring.GenerateQuadsInNode` | Assets/Scripts/OctreeEdgeIterator.cs:616-621 | The mesh stays valid, only grows, and gains three indices per triangle of the node's cell walk. Corners are kept, and a leaf changes nothing. |
| `Contouring.GenerateQuadsInFace` | Assets/Scripts/OctreeEdgeIterator.cs:624-627 | The mesh stays valid, only grows, and gains three indices per triangle of the face walk. Corners are kept, and two leaves change nothing. |
| `Contouring.GenerateQuadsInEdge` | Assets/Scripts/OctreeEdgeIterator.cs:628-631 | The mesh stays valid, only grows, and gains three indices per triangle of the edge walk. Corners are kept. |
| `MeshPipeline.FindOctree` | Assets/Scripts/WorldData.cs:160-169 | The octree found is loaded, and its top-LOD ID holds the point. None means no loaded octree holds it. |
| `MeshPipeline.WorldFindNodeOrParent` | Assets/Scripts/ParallelWorks.cs:454-459 | A node is found exactly when the octree of the bound's min corner is loaded and contains the bound. It is then in that tree, and has the bound's edge or is a leaf. |
| `MeshPipeline.FilterChunkNodes` | Assets/Scripts/ParallelWorks.cs:415-453 | The nodes kept are drawn from those listed. `FilterChunkNodesIn` states which. |
| `MeshPipeline.FilterChunkNodesIn` | Assets/Scripts/ParallelWorks.cs:415-453 | A node is kept iff it is listed and touches the side. |
| `MeshPipeline.FilterEdgeIsTwoFaces` | Assets/Scripts/ParallelWorks.cs:415-453 | An edge side keeps exactly what both of its faces keep. |
| `MeshPipeline.SeamLookupsMinSide` | Assets/Scripts/ParallelWorks.cs:460-533 | Every seam reads only IDs on the chunk's min side: each offset is 0 or -1 per axis, and the chunk itself comes first. |
| `MeshPipeline.SeamNodes` | Assets/Scripts/ParallelWorks.cs:460-533 | A seam is contoured over the chunk and its neighbours as the seam lists them. A face seam gives the neighbour its filtered chunk nodes. A missing neighbour skips the seam. |
| `MeshPipeline.GenerateSeamMeshData` | Assets/Scripts/ParallelWorks.cs:460-533 | A seam with a missing neighbour writes nothing. Otherwise every quad of the seam's walk is contoured: the mesh stays valid and only grows, and corners are kept. |
| `MeshPipeline.Descend` | Assets/Scripts/ParallelWorks.cs:155-179 | The descent keeps the root bound and a well-formed tree, and the cache only grows. |
| `MeshPipeline.DescendIsGetNode` | Assets/Scripts/ParallelWorks.cs:155-179 | The descent shapes the tree exactly as `GetNode` does: leaves on the path are divided, and nothing else changes. |
| `MeshPipeline.DescendReaches` | Assets/Scripts/ParallelWorks.cs:155-179 | The descent reaches the target, and caches it exactly when the node reached is a leaf. |
| `MeshPipeline.DescendCaches` | Assets/Scripts/ParallelWorks.cs:155-179 | Every cache entry the descent writes or overwrites is a leaf of the new tree with the bound it is stored under. |
| `MeshPipeline.SortBySize` | Assets/Scripts/ParallelWorks.cs:136 | The result is a permutation of the targets sorted by node size, ascending. |
| `MeshPipeline.SortedGroup` | Assets/Scripts/ParallelWorks.cs:136 | The sorted group holds exactly the chunk's targets. |
| `MeshPipeline.AllGroupsOk` | Assets/Scripts/ParallelWorks.cs:120-185 | Every target can be descended to iff every chunk's group can run. |
| `MeshPipeline.CacheChunkIsGetNodes` | Assets/Scripts/ParallelWorks.cs:120-185 | The chunk node ends up exactly as `GetNode` called for every target leaves it: caching divides what `GetNode` divides and nothing else. |
| `MeshPipeline.SetCacheInstant` | Assets/Scripts/ParallelWorks.cs:120-185 | It succeeds exactly when every target is reachable, and fails otherwise with missing key or null node. On success only the targets' chunk nodes change and the cache only grows. |
| `MeshPipeline.FixedCubeVertexIsCellOrigin` | Assets/Scripts/ParallelWorks.cs:398-405 | For a node on the cube lattice, the fixed vertex is the origin of the cube cell holding the node. |
| `MeshPipeline.ChooseVertex` | Assets/Scripts/ParallelWorks.cs:398-405 | A leaf no cube or sphere touches takes the solver's vertex. A cube leaf takes its fixed cube vertex. |
| `MeshPipeline.SeamChunks` | Assets/Scripts/ParallelWorks.cs:698-726 | A bound whose octree is not loaded yields nothing. Every node yielded is a chunk node of the bound's octree. |
| `MeshPipeline.SeamChunksFrom` | Assets/Scripts/ParallelWorks.cs:698-726 | Every chunk node a request yields is the chunk node on the path, or one listed under the node found. |
| `MeshPipeline.SeamRequests` | Assets/Scripts/ParallelWorks.cs:698-726 | The batch is de-duplicated into (chunk node, seam) requests, each naming a chunk node of its bound's octree. |
| `WorldUpdater.ChildIdOfMin` | Assets/Scripts/WorldUpdater.cs:85 | The engine's child ID, taken from the child's min corner, is the child ID one LOD down. |
| `WorldUpdater.NodeIdParent` | Assets/Scripts/WorldUpdater.cs:51-124 | The node at the next LOD that holds a point is the parent of the node that holds it. |
| `WorldUpdater.Required` | Assets/Scripts/WorldUpdater.cs:51-124 | Every node needs at least one tile. `RequiredCovers` and `RequiredUnique` state which. |
| `WorldUpdater.RequiredCovers` | Assets/Scripts/WorldUpdater.cs:51-124 | The tiles cover the start node: the tile at a point is among the tiles and holds the point. |
| `WorldUpdater.RequiredUnique` | Assets/Scripts/WorldUpdater.cs:51-124 | The tiles do not overlap: any tile holding a point is the tile at that point. |
| `WorldUpdater.RequiredChunkNodesUnsplit` | Assets/Scripts/WorldUpdater.cs:51-124 | Every required chunk node is the bound of a node the rule does not split. |
| `WorldUpdater.RequiredChunkNodesTile` | Assets/Scripts/WorldUpdater.cs:51-124 | Every point of an octree root lies in exactly one required chunk node. |
| `WorldUpdater.Reconcile` | Assets/Scripts/WorldUpdater.cs:131-144 | It destroys exactly the loaded nodes that are not required and creates exactly the required nodes that are not loaded. |
| `WorldUpdater.RequiredOctreesIn` | Assets/Scripts/WorldUpdater.cs:189-236 | The required octrees are exactly the top-LOD IDs within the top LOD's range of the player. |
| `WorldUpdater.CreateOctree` | Assets/Scripts/WorldUpdater.cs:289-294 | A new octree's root is the ID's bound, with no chunk nodes. |
| `WorldUpdater.UpdateOctrees` | Assets/Scripts/WorldUpdater.cs:189-236 | The loaded octrees not required are dropped and their chunk nodes released. The missing required octrees are created, so the loaded set becomes the required set. |
| `WorldUpdater.GetParentOctree` | Assets/Scripts/WorldUpdater.cs:268-287 | An octree is found exactly when the bound's parent octree ID is loaded, and it is then that octree. |
| `WorldUpdater.ParentOctreeContains` | Assets/Scripts/WorldUpdater.cs:268-287 | The parent octree of a chunk bound contains the bound, as `CreateChunkNode` requires. |
| `WorldUpdater.NeighborSeamIdsExact` | Assets/Scripts/WorldUpdater.cs:314-336 | The face and edge tables name exactly the seams whose lookups reach the changed chunk. |
| `WorldUpdater.NeighborSeamsExact` | Assets/Scripts/WorldUpdater.cs:314-336 | A changed chunk queues exactly the neighbour seams whose node lookups read it, and no others. |
| `WorldUpdater.RegisteredIffLoaded` | Assets/Scripts/WorldUpdater.cs:338-360 | In a consistent state, a chunk ID is registered exactly when its bound is loaded in its octree. |
| `WorldUpdater.AddChunkNode` | Assets/Scripts/WorldData.cs:198-214 | A new ID is registered with its node. An ID already present throws a duplicate-key error. |
| `WorldUpdater.CreateChunkStep` | Assets/Scripts/WorldUpdater.cs:338-345 | On success the ID was not registered and now is, with a chunk leaf; the octree keys are kept and the neighbour seams are queued. A missing parent octree fails with null node; the only other failure is a duplicate key. |
| `WorldUpdater.DestroyChunkStep` | Assets/Scripts/WorldUpdater.cs:346-360 | On success the ID was registered and is removed; the octree keys are kept and the neighbour seams are queued. An unregistered ID fails, and a missing parent octree fails with null node. |
| `WorldUpdater.CreateInParentOk` | Assets/Scripts/WorldUpdater.cs:338-345 | Creating a chunk that is not loaded, under a loaded octree, succeeds, keeps every octree placed, and loads exactly that chunk. |
| `WorldUpdater.DestroyInParentOk` | Assets/Scripts/WorldUpdater.cs:346-360 | Destroying a loaded chunk succeeds, keeps every octree placed, and unloads exactly that chunk. |
| `WorldUpdater.CreateChunkStepOk` | Assets/Scripts/WorldUpdater.cs:338-345 | After a create, the registry stays in step with the octrees. |
| `WorldUpdater.DestroyChunkStepOk` | Assets/Scripts/WorldUpdater.cs:346-360 | After a destroy, the registry stays in step with the octrees. |
| `WorldUpdater.DestroyChunksOk` | Assets/Scripts/WorldUpdater.cs:239-253 | Destroying distinct loaded chunks one by one succeeds and unloads exactly them. |
| `WorldUpdater.CreateChunksOk` | Assets/Scripts/WorldUpdater.cs:239-253 | Creating distinct unloaded chunks, each under a loaded octree, one by one succeeds and loads exactly them. |
| `WorldUpdater.UpdateChunkNodes` | Assets/Scripts/WorldUpdater.cs:239-253 | On success the octree keys are kept and the seams of every destroyed and every created chunk are queued. |
| `WorldUpdater.UpdateChunkNodesReachesRequired` | Assets/Scripts/WorldUpdater.cs:239-253 | In whatever order the plan's two sets are enumerated, the update succeeds, and the loaded chunks become exactly the required ones. |
| `WorldUpdater.DestroyBounds` | Assets/Scripts/WorldUpdater.cs:299-302 | On success the octree keys are kept, every octree stays well-formed, and the neighbour seams of every listed chunk are queued. A bound with no ID fails with a missing key. |
| `WorldUpdater.DestroyOctree` | Assets/Scripts/WorldUpdater.cs:295-311 | An unloaded octree ID fails with a missing key. On success exactly that key is gone, and the seams of every chunk it listed are queued. |
| `WorldUpdater.DestroyOctrees` | Assets/Scripts/WorldUpdater.cs:227-230 | On success exactly the listed octree keys are gone. |
| `WorldUpdater.AddOctree` | Assets/Scripts/WorldUpdater.cs:289-294 | It succeeds exactly when the ID is not loaded, and then adds a fresh octree under it and changes nothing else. A loaded ID fails with a duplicate key. |
| `WorldUpdater.CreateOctrees` | Assets/Scripts/WorldUpdater.cs:232-235 | On success the listed IDs are added to the octree keys; the registry and the seams are unchanged. |
| `WorldUpdater.UpdateOctreesIn` | Assets/Scripts/WorldUpdater.cs:189-236 | On success the octree keys are the loaded ones minus those removed, plus those created. |
| `WorldUpdater.LoadedHasId` | Assets/Scripts/WorldUpdater.cs:346-360 | In a consistent state every loaded chunk bound has an ID, and is that ID's bound. |
| `WorldUpdater.DestroyBoundsOk` | Assets/Scripts/WorldUpdater.cs:299-302 | Destroying distinct loaded chunk bounds succeeds, keeps the registry in step, and unloads exactly them. |
| `WorldUpdater.DestroyBoundsFrame` | Assets/Scripts/WorldUpdater.cs:299-302 | Destroying chunks of one octree leaves every other octree unchanged. |
| `WorldUpdater.ListedLoaded` | Assets/Scripts/WorldUpdater.cs:295-302 | Every chunk an octree lists is loaded and has that octree as its parent. |
| `WorldUpdater.LoadedWithout` | Assets/Scripts/WorldUpdater.cs:227-230 | Dropping a set of placed octrees unloads exactly the chunks they list. |
| `WorldUpdater.EmptiedOctree` | Assets/Scripts/WorldUpdater.cs:299-304 | Once every chunk an octree listed is destroyed, its list is empty. |
| `WorldUpdater.DestroyOctreeOk` | Assets/Scripts/WorldUpdater.cs:295-311 | Destroying a loaded octree succeeds, keeps the registry in step, and removes exactly that octree. |
| `WorldUpdater.DestroyOctreesOk` | Assets/Scripts/WorldUpdater.cs:227-230 | Destroying distinct loaded octrees succeeds, keeps the registry in step, and removes exactly them. |
| `WorldUpdater.CreateOctreesOk` | Assets/Scripts/WorldUpdater.cs:232-235 | Adding distinct new top-LOD octrees succeeds and keeps the registry in step. The kept octrees are unchanged, the added ones are fresh, and the loaded chunks do not change. |
| `WorldUpdater.OctreePlanFacts` | Assets/Scripts/WorldUpdater.cs:212-225 | The octrees to remove are loaded; the octrees to create are top-LOD IDs that are not loaded. |
| `WorldUpdater.UpdateOctreesInOk` | Assets/Scripts/WorldUpdater.cs:189-236 | In whatever order the two sets are enumerated, the update succeeds and keeps the registry in step. The octrees become those of `UpdateOctrees`. Exactly the chunks of the dropped octrees are unloaded, and exactly their IDs leave the registry. |
| `WorldUpdater.ChunkIdsBetweenIn` | Assets/Scripts/WorldUpdater.cs:646-658 | The cells enumerated are exactly the LOD-0 chunks whose bound meets the region. |
| `WorldUpdater.BlockChunksExact` | Assets/Scripts/WorldUpdater.cs:639-661 | With an initialised cube grid, the block edits succeed iff every LOD-0 chunk they touch is registered. The chunks queued are then exactly those chunks. |
| `WorldUpdater.SphereChunksExact` | Assets/Scripts/WorldUpdater.cs:663-686 | The sphere edits succeed iff every LOD-0 chunk their boxes meet is registered. The chunks queued are then exactly those chunks. |
| `WorldUpdater.UpdateWorld` | Assets/Scripts/WorldUpdater.cs:619-697 | While busy, nothing happens. Otherwise a queued player position is taken first, and the queued edits are turned into the set of chunks to remesh, after which both edit queues are empty. |

## Left out

- Floating-point geometry is a parameter of the model, never computed. This covers:
  - the terrain height and normal;
  - the linear interpolation of terrain crossings (Assets/Scripts/JobWorks.cs:1517-1563);
  - sphere distance and normal, and plane normals;
  - the averaging in `_GetMidPosNormal`;
  - the `+ 0.999` material encoding;
  - the node-versus-terrain, node-versus-sphere and node-versus-cube tests, which are abstract booleans.
- The per-chunk QEF solver is a parameter too. `MeshPipeline.ChooseVertex` takes its vertex as given.
- Jobs, threads, locks, `Parallel.ForEach` partitioning and object pools are left out. Each job is modelled as a sequential function over its inputs. A pool return is modelled as forgetting the node.
- Unity glue is outside the core and not modelled: `Pool.cs`, `Noise.cs`, `Terrain.cs`, `UnityWorld.cs`, coroutines, mesh upload, hash codes, `Debug.Assert` and `Debug.LogError`. A logged error is modelled as the branch the code takes next. An asserted precondition becomes a `requires` on three members: `Lattice.GetNodeID` (`lod <= MaxLOD`, Assets/Scripts/Util.cs:31), `Traversal.FaceProc` and `Traversal.EdgeProc` (a known axis, Assets/Scripts/OctreeEdgeIterator.cs:352 and 387). Every call site in the model meets them.
- `SimpleQueue.Queue` is a value: a datatype with buffer, head, tail, capacity and count, where the engine has a class over a native array. Every operation returns the new queue. Contents and order are what the contracts keep.
- `SpatialOctree.FindAllChunkNodes` lists chunk nodes depth-first, child by child. The engine walks breadth-first with a queue. Both list the same set of nodes; `FindAllChunkNodesExact` states that set, not the engine's order.
- `Traversal.CellProc`, `Traversal.FaceProc`, `Traversal.EdgeProc`: their contracts state soundness (every quad emitted is over leaves of the nodes given), plus completeness one level down (`CellProcReachesEdge`, `FaceProcReachesCrossing`, `EdgeProcReachesHalf`, `CellProcOneLevel`). That every minimal edge of an arbitrarily deep tree is emitted exactly once is not proved.
- `MeshPipeline.Descend`: the leaf data that `Divide` registers and unregisters is not threaded through the descent. The contract states the tree shape and the cache, not that everything off the path is unchanged in the leaf-data store.
- `SpatialOctree.CreateChunkNode`: the leaf-data register and unregister of the collapse are not threaded through. No contract states that nodes outside the subtree are unchanged.
- `SpatialOctree.DestroyChunkNode`: same as `CreateChunkNode`. No leaf-data store threading, and no frame condition outside the subtree.
- `Lattice.BoundToId`: IDs below chunk size are not represented. The engine converts every node bound (Assets/Scripts/Structs.cs:141-152, stored for every node at Assets/Scripts/Octree.cs:24), giving a sub-chunk edge a negative LOD. The model's `NodeID` has a non-negative LOD, so it has no ID for such a bound, and the model keys those nodes by bound.
- `WorldUpdater.DestroyChunkStep` does not enqueue the seven mesh IDs into `destroyedChunkMeshIDs` (Assets/Scripts/WorldUpdater.cs:351-356). Mesh disposal is Unity-side.
- `WorldUpdater.DestroyOctree` does not model `CleanUpOctree` or the return of the octree to the pool (Assets/Scripts/WorldUpdater.cs:304-309). The octree is dropped from the map, and pooling is object reuse only.
- `WorldUpdater.DestroyOctrees`, `WorldUpdater.CreateOctrees`, `WorldUpdater.UpdateOctreesIn`: their own contracts state only the octree keys, registry and seams. Success, consistency and the resulting octrees are stated by `DestroyOctreesOk`, `CreateOctreesOk` and `UpdateOctreesInOk`.
- `WorldUpdater.UpdateWorld` returns a plain `Failure` when a sphere's chunk lookup throws (Assets/Scripts/WorldUpdater.cs:677). The engine has already cleared the block queue at that point (line 661), and the model does not return that partly updated state.
- `WorldUpdater.SphereChunksExact`: sphere centres and radii are on the integer lattice of eighths. The engine takes an off-lattice `hit.point` as the centre.
- The seam lookup tables of `WorldUpdater.cs` (lines 168-187) are not modelled as separate members. `NeighborSeamIdsExact` states their content.
- `FindNeighborSmallLODChunkWithCubeInBetween` (Assets/Scripts/Util.cs:234-320) is not modelled. It is a float search with tolerances over neighbour chunks.
- `FindAllTerrainIntersectingNodes` and `FindAllCubeIntersectionNodesDiv1` are not modelled. They depend on float terrain and cube-intersection tests; their results are modelled only as the abstract booleans that `ProcessNode` and `DivideChild` take.
- The body of the `ProcessChunk` job is not modelled. Its steps are modelled one by one: `ProcessNode`, `RecalculateSingleNode`, `FillFromNodeData`, `ChooseVertex` and the walks.
- `MeshData.HasData` (Assets/Scripts/ChunkMeshData.cs:48) is a one-line read of the triangle stream and is not modelled separately.
- `CubeOctrees.AddCube`: a failure leaves the world unchanged, order counter included. The engine evaluates `WorldData.PlaceOrder++` (Assets/Scripts/Util.cs:160) before `SetData` runs, so an add that throws has already used up an order. `AddCubeOk` shows that no add of a material other than 255 throws while the stores are in step with the trees, so the difference only shows on stores that are already out of step.
- `WorldData.PlaceOrder` wrap-around at 2^32 is not modelled. Orders are unbounded integers, because the engine would need four billion edits to wrap.
- Noise-based terrain generation is out of scope. The heightmap is a parameter.
- `Sampling.EdgeEnds`, `Refinement.CubeChildren`, `HeightmapFiller.Offsets`: their own contracts state only the table's shape. The content is stated by `EdgeTable`, `CubeChildrenAreChildren` and `OffsetsShareEdge`.
- `Sampling.CornerSource`, `Sampling.PlanEdge`: their own contracts are weak. The source priority and the edge plan are stated by `CornerPriority` and `PlanCrossing`.
- `LeafNodes.FillFromNodeData`: its own contract states only well-formedness. What the leaf holds afterwards is stated by `FillMatchesJob`.
- `SpatialOctree.GetNodeRec`, `MeshPipeline.Descend`: their own contracts state only the root bound and well-formedness. The shape of the result is stated through `GetNode` and `DescendIsGetNode`.
- `MeshPipeline.FilterChunkNodes`, `WorldUpdater.Required`, `Contouring.QuadPositions`: their own contracts state only containment or length. `FilterChunkNodesIn`, `RequiredCovers` with `RequiredUnique`, and `CreateQuad` state the content.

## Findings

| source | as written | input that shows it | evidently intended | confidence | as-written member | corrected member |
|---|---|---|---|---|---|---|
| Assets/Scripts/JobWorks.cs:415-447 | For an air cube, the min-face block sets `dir` to the opposite face (line 417), so the following `if (dir == 1 ...)` max-face block runs as well. | An air cube asked for direction 2 where both faces cross the node and lie on the grid: the edges of both faces are recorded. | Only the edges of the face asked for are recorded. | not executed | `Refinement.AddFoundEdgeAirMinFace` | `Refinement.AddFoundEdgeAgrees` |
| Assets/Scripts/OctreeDataFiller.cs:34 | The y-edge test is `height0 >= 0 && height0 < size`. A height on the chunk's floor has cell `CeilToInt(h0 / s) - 1 == -1` (line 28), which lies below the chunk, while a height on the chunk's ceiling, whose cell is the top one, is rejected. | `height0 == 0`: the chunk takes a crossing at level -1. It records the four terrain bounds there, which lie outside itself, and writes no crossing. The chunk below, where that cell lies, rejects its `height0 == size`. The crossing is lost. | Take the height iff its cell lies in the chunk, i.e. `0 < height0 <= size`. | not executed | `HeightmapFiller.YEdgeAsWrittenLosesFloor` | `HeightmapFiller.YEdgeOwnedOnce` |
