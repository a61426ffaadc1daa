/** The streaming planner (`WorldUpdater`): which octrees and chunk nodes
    must exist around the player, what to create and destroy to get there,
    which seams a changed chunk invalidates, and which chunks an edit
    schedules for a rebuild.

    Distances are compared squared, which is exact on integer IDs. */
module WorldUpdater {
  import opened Wrappers
  import opened Lattice
  import opened SpatialOctree
  import opened ChunkLookup
  import opened MeshPipeline

  // ---------------------------------------------------------------- distance

  function Dist2(a: NodeID, b: NodeID): int {
    (a.x - b.x) * (a.x - b.x) + (a.y - b.y) * (a.y - b.y) + (a.z - b.z) * (a.z - b.z)
  }

  /** `Vector3.Distance(a, b) <= LODDis[lod]`. */
  predicate InRange(a: NodeID, b: NodeID, lod: nat)
    requires lod <= MaxLOD
  {
    Dist2(a, b) <= LODDis[lod] * LODDis[lod]
  }

  // ---------------------------------------------------------------- required chunk nodes

  /** Child `i` of a node, by ID: twice the coordinates plus the octant,
      one LOD down. */
  function ChildId(id: NodeID, i: int): (c: NodeID)
    requires id.lod > 0 && 0 <= i < 8
    ensures c.lod == id.lod - 1
  {
    var o := Octant(i);
    NodeID(2 * id.x + o.x, 2 * id.y + o.y, 2 * id.z + o.z, id.lod - 1)
  }

  /** The parent of a node, by ID. */
  function ParentId(c: NodeID): NodeID {
    NodeID(c.x / 2, c.y / 2, c.z / 2, c.lod + 1)
  }

  lemma ParentOfChild(id: NodeID, i: int)
    requires id.lod > 0 && 0 <= i < 8
    ensures ParentId(ChildId(id, i)) == id
  {
  }

  /** The child ID's bound is the child bound of the parent's bound. */
  lemma ChildIdBound(id: NodeID, i: int)
    requires id.lod > 0 && 0 <= i < 8
    ensures IdToBound(ChildId(id, i)) == ChildBound(IdToBound(id), i)
  {
    var o := Octant(i);
    assert ChildId(id, i) == NodeID(2 * id.x + o.x, 2 * id.y + o.y, 2 * id.z + o.z, id.lod - 1);
    assert ChildBound(IdToBound(id), i) == OctantBox(IdToBound(id), o);
    OctantIdBound(id, o);
  }

  lemma OctantIdBound(id: NodeID, o: Vec3)
    requires id.lod > 0 && 0 <= o.x < 2 && 0 <= o.y < 2 && 0 <= o.z < 2
    ensures IdToBound(NodeID(2 * id.x + o.x, 2 * id.y + o.y, 2 * id.z + o.z, id.lod - 1))
         == OctantBox(IdToBound(id), o)
  {
    var w := LodSize(id.lod - 1);
    var b := IdToBound(id);
    assert b.w == 2 * w;
    assert b.w / 2 == w;
    ChildCoord(id.x, o.x, w, b.w);
    ChildCoord(id.y, o.y, w, b.w);
    ChildCoord(id.z, o.z, w, b.w);
  }

  lemma ChildCoord(v: int, bit: int, h: int, w: int)
    requires 0 <= bit < 2 && w == 2 * h
    ensures (2 * v + bit) * h == v * w + Step(bit, h)
  {
    StepMul(bit, h);
    assert (2 * v + bit) * h == 2 * v * h + bit * h;
  }

  /** The engine's child ID, `GetNodeID(n.MinPos + (i, j, k) * n.Size * .5,
      lod - 1)`, is the child ID. */
  lemma ChildIdOfMin(id: NodeID, i: int)
    requires 0 < id.lod <= MaxLOD && 0 <= i < 8
    ensures GetNodeID(ChildBound(IdToBound(id), i).Min(), id.lod - 1) == ChildId(id, i)
  {
    ChildIdBound(id, i);
    GetNodeIDUnique(ChildBound(IdToBound(id), i).Min(), ChildId(id, i));
  }

  /** On one axis, halving the floor index gives the floor index at twice the size. */
  lemma AxisParent(v: int, w: int)
    requires w > 0
    ensures (v / w / 2) * (2 * w) <= v < (v / w / 2) * (2 * w) + 2 * w
  {
    var g := v / w;
    var h := g / 2;
    FloorBounds(v, w);
    assert g == 2 * h + g % 2;
    assert g * w == h * (2 * w) + (g % 2) * w;
  }

  /** The node at the next LOD holding a point is the parent of the node
      holding it. */
  lemma NodeIdParent(q: Vec3, lod: nat)
    requires lod < MaxLOD
    ensures GetNodeID(q, lod + 1) == ParentId(GetNodeID(q, lod))
  {
    var w := LodSize(lod);
    assert LodSize(lod + 1) == 2 * w;
    AxisParent(q.x, w);
    AxisParent(q.y, w);
    AxisParent(q.z, w);
    GetNodeIDUnique(q, ParentId(GetNodeID(q, lod)));
  }

  /** The child of the node holding `q` that holds `q`. */
  lemma ChildToward(id: NodeID, q: Vec3) returns (j: int)
    requires 0 < id.lod <= MaxLOD && id == GetNodeID(q, id.lod)
    ensures 0 <= j < 8 && ChildId(id, j) == GetNodeID(q, id.lod - 1)
  {
    var g := GetNodeID(q, id.lod - 1);
    NodeIdParent(q, id.lod - 1);
    var o := Vec3(g.x - 2 * id.x, g.y - 2 * id.y, g.z - 2 * id.z);
    OctantRoundTrip(o);
    j := OctantIndex(o);
  }

  /** The player's node ID at every LOD, finest first. */
  predicate IsPlayer(pl: seq<NodeID>) {
    |pl| == MaxLOD + 1
  }

  function PlayerIds(p: Vec3): (pl: seq<NodeID>)
    ensures IsPlayer(pl)
    ensures forall lod | 0 <= lod <= MaxLOD :: pl[lod] == GetNodeID(p, lod)
  {
    seq(MaxLOD + 1, lod requires 0 <= lod <= MaxLOD => GetNodeID(p, lod))
  }

  /** Some child, one LOD down, is within range of the player. */
  predicate HasChunkBelow(pl: seq<NodeID>, id: NodeID)
    requires IsPlayer(pl) && 0 < id.lod <= MaxLOD
  {
    exists i | 0 <= i < 8 :: InRange(ChildId(id, i), pl[id.lod - 1], id.lod - 1)
  }

  /** The node is replaced by its eight children: it is above LOD 0, within
      range of the player, and a child is within range one LOD down.
      Otherwise it is a required chunk node, in range or not. */
  predicate Split(pl: seq<NodeID>, id: NodeID)
    requires IsPlayer(pl) && id.lod <= MaxLOD
  {
    id.lod > 0 && InRange(id, pl[id.lod], id.lod) && HasChunkBelow(pl, id)
  }

  /** `_FindRequiredChunkNodes` from one node: the node itself, or the
      tiles of its eight children when it splits.  Nodes are named by ID;
      the engine's `NodeBound`s are their `IdToBound`. */
  function Required(pl: seq<NodeID>, id: NodeID): (r: seq<NodeID>)
    requires IsPlayer(pl) && id.lod <= MaxLOD
    decreases id.lod, 1
    ensures |r| >= 1
  {
    if Split(pl, id) then RequiredKids(pl, id, 0) else [id]
  }

  /** The tiles of children `i..7`. */
  function RequiredKids(pl: seq<NodeID>, id: NodeID, i: nat): (r: seq<NodeID>)
    requires IsPlayer(pl) && 0 < id.lod <= MaxLOD && i <= 8
    decreases id.lod, 0, 8 - i
    ensures |r| >= 8 - i
  {
    if i == 8 then [] else Required(pl, ChildId(id, i)) + RequiredKids(pl, id, i + 1)
  }

  /** The tile holding point `q`: descend toward `q` while the node splits. */
  function RequiredAt(pl: seq<NodeID>, id: NodeID, q: Vec3): (t: NodeID)
    requires IsPlayer(pl) && id.lod <= MaxLOD
    decreases id.lod
    ensures t.lod <= id.lod
  {
    if Split(pl, id) then RequiredAt(pl, GetNodeID(q, id.lod - 1), q) else id
  }

  /** Every tile is an unsplit node at or below the start LOD, and the start
      node holds every point the tile holds. */
  lemma {:induction false} RequiredInside(pl: seq<NodeID>, id: NodeID, c: NodeID, q: Vec3)
    requires IsPlayer(pl) && id.lod <= MaxLOD && c in Required(pl, id)
    decreases id.lod, 1
    ensures c.lod <= id.lod && !Split(pl, c)
    ensures IdToBound(c).HasPoint(q) ==> IdToBound(id).HasPoint(q)
  {
    if Split(pl, id) {
      KidsInside(pl, id, 0, c, q);
    }
  }

  lemma {:induction false} KidsInside(pl: seq<NodeID>, id: NodeID, i: nat, c: NodeID, q: Vec3)
    requires IsPlayer(pl) && 0 < id.lod <= MaxLOD && i <= 8 && c in RequiredKids(pl, id, i)
    decreases id.lod, 0, 8 - i
    ensures c.lod < id.lod && !Split(pl, c)
    ensures IdToBound(c).HasPoint(q) ==> IdToBound(id).HasPoint(q)
  {
    var k := ChildId(id, i);
    if c in Required(pl, k) {
      RequiredInside(pl, k, c, q);
      if IdToBound(c).HasPoint(q) {
        GetNodeIDUnique(q, k);
        NodeIdParent(q, id.lod - 1);
        ParentOfChild(id, i);
      }
    } else {
      KidsInside(pl, id, i + 1, c, q);
    }
  }

  lemma {:induction false} KidsInclude(pl: seq<NodeID>, id: NodeID, i: nat, j: nat, c: NodeID)
    requires IsPlayer(pl) && 0 < id.lod <= MaxLOD && i <= j < 8 && c in Required(pl, ChildId(id, j))
    decreases 8 - i
    ensures c in RequiredKids(pl, id, i)
  {
    if i < j {
      KidsInclude(pl, id, i + 1, j, c);
    }
  }

  /** The tile at `q` is among the tiles and holds `q`: the tiles cover the
      start node. */
  lemma {:induction false} RequiredCovers(pl: seq<NodeID>, id: NodeID, q: Vec3)
    requires IsPlayer(pl) && id.lod <= MaxLOD && IdToBound(id).HasPoint(q)
    decreases id.lod
    ensures RequiredAt(pl, id, q) in Required(pl, id)
    ensures IdToBound(RequiredAt(pl, id, q)).HasPoint(q)
  {
    if Split(pl, id) {
      GetNodeIDUnique(q, id);
      var j := ChildToward(id, q);
      RequiredCovers(pl, ChildId(id, j), q);
      KidsInclude(pl, id, 0, j, RequiredAt(pl, id, q));
    }
  }

  /** Any tile holding `q` is the tile at `q`: the tiles do not overlap. */
  lemma {:induction false} RequiredUnique(pl: seq<NodeID>, id: NodeID, q: Vec3, c: NodeID)
    requires IsPlayer(pl) && id.lod <= MaxLOD && c in Required(pl, id) && IdToBound(c).HasPoint(q)
    decreases id.lod, 1
    ensures c == RequiredAt(pl, id, q)
  {
    if Split(pl, id) {
      KidsUnique(pl, id, 0, q, c);
    }
  }

  lemma {:induction false} KidsUnique(pl: seq<NodeID>, id: NodeID, i: nat, q: Vec3, c: NodeID)
    requires IsPlayer(pl) && 0 < id.lod <= MaxLOD && i <= 8 && c in RequiredKids(pl, id, i)
    requires IdToBound(c).HasPoint(q)
    decreases id.lod, 0, 8 - i
    ensures c == RequiredAt(pl, GetNodeID(q, id.lod - 1), q)
  {
    var k := ChildId(id, i);
    if c in Required(pl, k) {
      RequiredInside(pl, k, c, q);
      GetNodeIDUnique(q, k);
      RequiredUnique(pl, k, q, c);
    } else {
      KidsUnique(pl, id, i + 1, q, c);
    }
  }

  /** The octree roots are nodes of the top LOD. */
  predicate Roots(roots: seq<NodeID>) {
    forall k | 0 <= k < |roots| :: roots[k].lod == MaxLOD
  }

  function RequiredIds(pl: seq<NodeID>, roots: seq<NodeID>): (r: set<NodeID>)
    requires IsPlayer(pl) && Roots(roots)
  {
    if roots == [] then {}
    else (set c | c in Required(pl, roots[0])) + RequiredIds(pl, roots[1..])
  }

  /** `_FindRequiredChunkNodes`: the bounds of the tiles of every octree root. */
  function RequiredChunkNodes(p: Vec3, roots: seq<NodeID>): (r: set<Box>)
    requires Roots(roots)
  {
    set c | c in RequiredIds(PlayerIds(p), roots) :: IdToBound(c)
  }

  /** The root a required tile came from. */
  function TileRoot(pl: seq<NodeID>, roots: seq<NodeID>, c: NodeID): (m: nat)
    requires IsPlayer(pl) && Roots(roots) && c in RequiredIds(pl, roots)
    ensures m < |roots| && c in Required(pl, roots[m])
  {
    if c in Required(pl, roots[0]) then 0 else 1 + TileRoot(pl, roots[1..], c)
  }

  lemma {:induction false} TileOfRoot(pl: seq<NodeID>, roots: seq<NodeID>, k: nat, c: NodeID)
    requires IsPlayer(pl) && Roots(roots) && k < |roots| && c in Required(pl, roots[k])
    ensures c in RequiredIds(pl, roots)
  {
    if k > 0 {
      TileOfRoot(pl, roots[1..], k - 1, c);
    }
  }

  /** Every required chunk node is the bound of an unsplit node. */
  lemma RequiredChunkNodesUnsplit(p: Vec3, roots: seq<NodeID>, b: Box)
    requires Roots(roots) && b in RequiredChunkNodes(p, roots)
    ensures BoundToId(b).Some? && BoundToId(b).value.lod <= MaxLOD && !Split(PlayerIds(p), BoundToId(b).value)
  {
    var pl := PlayerIds(p);
    var c :| c in RequiredIds(pl, roots) && b == IdToBound(c);
    var m := TileRoot(pl, roots, c);
    RequiredInside(pl, roots[m], c, b.Min());
    IdBoundRoundTrip(c);
  }

  /** Every point of an octree root lies in exactly one required chunk
      node: the bound of the tile at that point. */
  lemma RequiredChunkNodesTile(p: Vec3, roots: seq<NodeID>, k: nat, q: Vec3)
    requires Roots(roots) && k < |roots| && IdToBound(roots[k]).HasPoint(q)
    ensures IdToBound(RequiredAt(PlayerIds(p), roots[k], q)) in RequiredChunkNodes(p, roots)
    ensures IdToBound(RequiredAt(PlayerIds(p), roots[k], q)).HasPoint(q)
    ensures forall b | b in RequiredChunkNodes(p, roots) && b.HasPoint(q) :: b == IdToBound(RequiredAt(PlayerIds(p), roots[k], q))
  {
    var pl := PlayerIds(p);
    var t := RequiredAt(pl, roots[k], q);
    RequiredCovers(pl, roots[k], q);
    TileOfRoot(pl, roots, k, t);
    forall b | b in RequiredChunkNodes(p, roots) && b.HasPoint(q) ensures b == IdToBound(t) {
      var c :| c in RequiredIds(pl, roots) && b == IdToBound(c);
      var m := TileRoot(pl, roots, c);
      RequiredInside(pl, roots[m], c, q);
      GetNodeIDUnique(q, roots[m]);
      GetNodeIDUnique(q, roots[k]);
      RequiredUnique(pl, roots[m], q, c);
    }
  }

  // ---------------------------------------------------------------- set differences

  /** What to create and what to destroy. */
  datatype Diff<T> = Diff(create: set<T>, destroy: set<T>)

  /** `_FindChunkNodesToUpdate`, and the same step of `UpdateOctrees`:
      destroy what is loaded but not required, create what is required but
      not loaded.  Applying the diff to the loaded set gives the required set. */
  function Reconcile<T>(required: set<T>, current: set<T>): (d: Diff<T>)
    ensures (current - d.destroy) + d.create == required
    ensures d.destroy <= current && d.destroy !! required
    ensures d.create <= required && d.create !! current
  {
    Diff(required - current, current - required)
  }

  // ---------------------------------------------------------------- octrees

  /** The octree load radius, in top-LOD IDs. */
  const OctreeRange: int := LODDis[MaxLOD]

  /** `UpdateOctrees`' required set: the player's top-LOD ID plus every
      offset `(i, j, k)` with `|(i, j, k)| <= OctreeRange`.  The float
      magnitude test is exact on these small integers, squared. */
  function RequiredOctrees(p: Vec3): set<NodeID> {
    var c := GetNodeID(p, MaxLOD);
    set i, j, k | -OctreeRange <= i <= OctreeRange && -OctreeRange <= j <= OctreeRange
                  && -OctreeRange <= k <= OctreeRange && i * i + j * j + k * k <= OctreeRange * OctreeRange
      :: AddIds(c, NodeID(i, j, k, 0))
  }

  /** A square within `r * r` bounds its root. */
  lemma SquareBound(i: int, r: int)
    requires r >= 0 && i * i <= r * r
    ensures -r <= i <= r
  {
    var j := if i < 0 then -i else i;
    assert j * j == i * i;
    if j > r {
      MulLe(j, r, j);
      if r > 0 {
        MulLe(r, j, r);
      }
    }
  }

  /** The required octrees are exactly the top-LOD IDs within the top
      LOD's range of the player's. */
  lemma RequiredOctreesIn(p: Vec3, id: NodeID)
    ensures id in RequiredOctrees(p) <==> id.lod == MaxLOD && InRange(id, GetNodeID(p, MaxLOD), MaxLOD)
  {
    if id in RequiredOctrees(p) {
      RequiredInRange(p, id);
    }
    if id.lod == MaxLOD && InRange(id, GetNodeID(p, MaxLOD), MaxLOD) {
      InRangeRequired(p, id);
    }
  }

  /** A required octree is a top-LOD ID within range. */
  lemma RequiredInRange(p: Vec3, id: NodeID)
    requires id in RequiredOctrees(p)
    ensures id.lod == MaxLOD && InRange(id, GetNodeID(p, MaxLOD), MaxLOD)
  {
    var c := GetNodeID(p, MaxLOD);
    var R := OctreeRange;
    var i, j, k :| -R <= i <= R && -R <= j <= R && -R <= k <= R && i * i + j * j + k * k <= R * R &&
                   id == AddIds(c, NodeID(i, j, k, 0));
    assert id.x - c.x == i && id.y - c.y == j && id.z - c.z == k;
    assert Dist2(id, c) == i * i + j * j + k * k;
  }

  /** A top-LOD ID within range is required. */
  lemma InRangeRequired(p: Vec3, id: NodeID)
    requires id.lod == MaxLOD && InRange(id, GetNodeID(p, MaxLOD), MaxLOD)
    ensures id in RequiredOctrees(p)
  {
    var c := GetNodeID(p, MaxLOD);
    var R := OctreeRange;
    var i, j, k := id.x - c.x, id.y - c.y, id.z - c.z;
    assert i * i + j * j + k * k <= R * R;
    assert i * i >= 0 && j * j >= 0 && k * k >= 0;
    SquareBound(i, R);
    SquareBound(j, R);
    SquareBound(k, R);
    assert id == AddIds(c, NodeID(i, j, k, 0));
  }

  /** `_CreateOctree`: a fresh octree whose root is the ID's bound. */
  function CreateOctree(id: NodeID): (o: Octree)
    requires id.lod == MaxLOD
    ensures WF(o.root) && SpatialOctree.IsLeaf(o.root) && o.chunkNodes == []
    ensures o.root.bound == IdToBound(id)
  {
    InitializeOctree(Vec3(id.x, id.y, id.z))
  }

  /** The outcome of `UpdateOctrees`: the new registry and the chunk bounds
      `_DestroyOctree` released from the removed octrees. */
  datatype OctreeUpdate = OctreeUpdate(octrees: Octrees, released: set<Box>)

  /** `UpdateOctrees`: drop the loaded octrees that are not required
      (releasing their chunk nodes) and create the required ones that are
      not loaded.  Kept octrees are untouched. */
  function UpdateOctrees(loaded: Octrees, p: Vec3): (r: OctreeUpdate)
    requires forall id | id in loaded :: id.lod == MaxLOD
    ensures r.octrees.Keys == RequiredOctrees(p)
    ensures forall id | id in r.octrees && id in loaded :: r.octrees[id] == loaded[id]
    ensures forall id | id in r.octrees && id !in loaded :: r.octrees[id] == CreateOctree(id)
    ensures forall b :: b in r.released <==>
      exists id | id in loaded && id !in RequiredOctrees(p) :: b in loaded[id].chunkNodes
  {
    var required := RequiredOctrees(p);
    forall id | id in required ensures id.lod == MaxLOD {
      RequiredOctreesIn(p, id);
    }
    var d := Reconcile(required, loaded.Keys);
    OctreeUpdate(ApplyDiff(loaded, d), Released(loaded, d.destroy))
  }

  /** The loaded octrees minus those destroyed, plus fresh ones created. */
  function ApplyDiff(loaded: Octrees, d: Diff<NodeID>): (r: Octrees)
    requires d.create !! loaded.Keys && forall id | id in d.create :: id.lod == MaxLOD
    ensures r.Keys == (loaded.Keys - d.destroy) + d.create
    ensures forall id | id in r && id in loaded :: r[id] == loaded[id]
    ensures forall id | id in r && id !in loaded :: r[id] == CreateOctree(id)
  {
    var kept := map id | id in loaded && id !in d.destroy :: loaded[id];
    var created := map id | id in d.create :: CreateOctree(id);
    kept + created
  }

  /** The chunk nodes of the destroyed octrees. */
  function Released(loaded: Octrees, destroy: set<NodeID>): (r: set<Box>)
    ensures forall b :: b in r <==> exists id | id in loaded && id in destroy :: b in loaded[id].chunkNodes
  {
    set id, b | id in destroy && id in loaded && b in loaded[id].chunkNodes :: b
  }

  /** `_GetParentOctree`'s key: the bound's own ID when it is octree-sized,
      else the top-LOD ID of its min corner. */
  function ParentOctreeId(b: Box): (id: NodeID)
    ensures id.lod == MaxLOD && IdToBound(id).HasPoint(b.Min())
  {
    if b.w == OctreeSize then
      LodOfLodSize(MaxLOD);
      var r := BoundToId(b);
      GetNodeIDUnique(b.Min(), r.value);
      r.value
    else GetNodeID(b.Min(), MaxLOD)
  }

  /** `_GetParentOctree`: the loaded octree for that key, or none (the
      engine logs an error and returns null). */
  function GetParentOctree(octrees: Octrees, b: Box): (r: Option<Octree>)
    ensures r.Some? <==> ParentOctreeId(b) in octrees
    ensures r.Some? ==> r.value == octrees[ParentOctreeId(b)]
  {
    var id := ParentOctreeId(b);
    if id in octrees then Some(octrees[id]) else None
  }

  /** A node ID's bound is aligned to its edge. */
  lemma IdBoundAligned(id: NodeID)
    ensures Aligned(IdToBound(id))
  {
    var b := IdToBound(id);
    DivUnique(b.x, b.w, id.x, 0);
    DivUnique(b.y, b.w, id.y, 0);
    DivUnique(b.z, b.w, id.z, 0);
  }

  /** Every chunk node's parent octree, once created, contains the chunk:
      `CreateChunkNode` on it can reach the chunk's bound. */
  lemma ParentOctreeContains(c: NodeID)
    requires c.lod <= MaxLOD
    ensures Contains(CreateOctree(ParentOctreeId(IdToBound(c))).root.bound, IdToBound(c))
    ensures Aligned(IdToBound(c)) && ValidSize(IdToBound(c).w)
  {
    var b := IdToBound(c);
    var o := IdToBound(ParentOctreeId(b));
    IdBoundAligned(c);
    IdBoundAligned(ParentOctreeId(b));
    LodSizeValid(c.lod);
    LodSizeValid(MaxLOD);
    if c.lod < MaxLOD {
      Pow2Mono(c.lod, MaxLOD);
    }
    ContainsAligned(o, b);
  }

  // ---------------------------------------------------------------- neighbour seams

  /** `AddNeighborSeamsToUpdate`'s tables: the ID offsets of the neighbours
      whose face seams (mesh slots 1 to 3) and edge seams (slots 4 to 6)
      read a changed chunk. */
  const NeighborFaceSeams: seq<Vec3> := [Vec3(1, 0, 0), Vec3(0, 1, 0), Vec3(0, 0, 1)]
  const NeighborFaceSeamMeshIndex: seq<int> := [1, 2, 3]
  const NeighborEdgeSeams: seq<Vec3> := [
    Vec3(0, 1, 0), Vec3(0, 1, 1), Vec3(1, 1, 0), Vec3(0, 1, 0),
    Vec3(0, 0, 1), Vec3(1, 0, 1), Vec3(1, 0, 0),
    Vec3(0, 0, 1), Vec3(1, 0, 0)]
  const NeighborEdgeSeamMeshIndex: seq<int> := [6, 4, 6, 4, 5, 5, 5, 4, 6]

  /** The (neighbour ID, seam slot) pairs queued for chunk `c`. */
  function NeighborSeamIds(c: NodeID): (r: set<(NodeID, int)>)
  {
    (set i | 0 <= i < 3 :: (Shift(c, NeighborFaceSeams[i]), NeighborFaceSeamMeshIndex[i]))
    + (set i | 0 <= i < 9 :: (Shift(c, NeighborEdgeSeams[i]), NeighborEdgeSeamMeshIndex[i]))
  }

  /** `AddNeighborSeamsToUpdate`: the queued pairs, named by bound. */
  function NeighborSeams(c: NodeID): set<(Box, int)> {
    set p | p in NeighborSeamIds(c) :: (IdToBound(p.0), p.1)
  }

  /** Seam `s` of chunk `t` looks up `c` through one of its offsets other
      than the chunk's own. */
  predicate LooksUp(t: NodeID, s: int, c: NodeID) {
    exists k | 0 <= k < |SeamLookups(s)| :: SeamLookups(s)[k] != Vec3(0, 0, 0) && Shift(t, SeamLookups(s)[k]) == c
  }

  /** Every queued pair is a seam that reads the chunk. */
  lemma QueuedLooksUp(c: NodeID, t: NodeID, s: int)
    requires (t, s) in NeighborSeamIds(c)
    ensures LooksUp(t, s, c)
  {
    if i :| 0 <= i < 3 && (t, s) == (Shift(c, NeighborFaceSeams[i]), NeighborFaceSeamMeshIndex[i]) {
      assert Shift(t, SeamLookups(s)[0]) == c;
    } else {
      var i :| 0 <= i < 9 && (t, s) == (Shift(c, NeighborEdgeSeams[i]), NeighborEdgeSeamMeshIndex[i]);
      EdgeEntryLooksUp(c, i);
    }
  }

  /** Entry `i` of the edge table names a seam that reads the chunk. */
  lemma EdgeEntryLooksUp(c: NodeID, i: int)
    requires 0 <= i < 9
    ensures LooksUp(Shift(c, NeighborEdgeSeams[i]), NeighborEdgeSeamMeshIndex[i], c)
  {
    var t, s := Shift(c, NeighborEdgeSeams[i]), NeighborEdgeSeamMeshIndex[i];
    var k := if i == 1 || i == 2 || i == 5 then 2 else if i == 0 || i == 3 || i == 4 then 3 else 0;
    assert Shift(t, SeamLookups(s)[k]) == c;
  }

  /** Every seam that reads the chunk from a neighbour is queued. */
  lemma LooksUpQueued(c: NodeID, t: NodeID, s: int)
    requires LooksUp(t, s, c)
    ensures (t, s) in NeighborSeamIds(c)
  {
    var k :| 0 <= k < |SeamLookups(s)| && SeamLookups(s)[k] != Vec3(0, 0, 0) && Shift(t, SeamLookups(s)[k]) == c;
    if s <= 3 {
      var i := s - 1;
      assert (t, s) == (Shift(c, NeighborFaceSeams[i]), NeighborFaceSeamMeshIndex[i]);
    } else {
      var i := if s == 4 then (if k == 0 then 7 else if k == 2 then 1 else 3)
               else if s == 5 then (if k == 0 then 6 else if k == 2 then 5 else 4)
               else (if k == 0 then 8 else if k == 2 then 2 else 0);
      assert (t, s) == (Shift(c, NeighborEdgeSeams[i]), NeighborEdgeSeamMeshIndex[i]);
    }
  }

  /** The face and edge tables name exactly the seams whose lookups reach
      the changed chunk from a neighbour. */
  lemma NeighborSeamIdsExact(c: NodeID, t: NodeID, s: int)
    ensures (t, s) in NeighborSeamIds(c) <==> LooksUp(t, s, c)
  {
    if (t, s) in NeighborSeamIds(c) { QueuedLooksUp(c, t, s); }
    if LooksUp(t, s, c) { LooksUpQueued(c, t, s); }
  }

  /** In the engine's terms: a changed chunk queues exactly the neighbour
      seams whose node lookups include the chunk's bound. */
  lemma NeighborSeamsExact(c: NodeID, t: NodeID, s: int)
    ensures (IdToBound(t), s) in NeighborSeams(c) <==> 1 <= s <= 6 && t != c && IdToBound(c) in SeamTargets(t, s)
  {
    var ts := SeamTargets(t, s);
    if (IdToBound(t), s) in NeighborSeams(c) {
      var p :| p in NeighborSeamIds(c) && (IdToBound(t), s) == (IdToBound(p.0), p.1);
      IdToBoundInjective(t, p.0);
      NeighborSeamIdsExact(c, t, s);
      var k :| 0 <= k < |SeamLookups(s)| && SeamLookups(s)[k] != Vec3(0, 0, 0) && Shift(t, SeamLookups(s)[k]) == c;
      assert ts[k] == IdToBound(c);
    }
    if 1 <= s <= 6 && t != c && IdToBound(c) in ts {
      var k :| 0 <= k < |ts| && ts[k] == IdToBound(c);
      IdToBoundInjective(c, Shift(t, SeamLookups(s)[k]));
      assert SeamLookups(s)[k] != Vec3(0, 0, 0);
      NeighborSeamIdsExact(c, t, s);
      assert (IdToBound(t), s) == (IdToBound((t, s).0), (t, s).1);
    }
  }

  // ---------------------------------------------------------------- chunk nodes

  /** `_FindCurrentLoadedChunkNodes`: the chunk bounds every loaded octree lists. */
  function LoadedChunkNodes(octrees: Octrees): set<Box> {
    set id, b | id in octrees && b in octrees[id].chunkNodes :: b
  }

  /** Bound `b` is a chunk that belongs in the octree keyed `id`: a node
      bound of at most the top LOD whose parent octree key is `id`. */
  predicate ChunkOf(id: NodeID, b: Box) {
    BoundToId(b).Some? && BoundToId(b).value.lod <= MaxLOD && ParentOctreeId(b) == id
  }

  /** A loaded octree sits at its key and lists each of its own chunks once. */
  predicate OctreePlaced(id: NodeID, o: Octree) {
    id.lod == MaxLOD && WF(o.root) && o.root.bound == IdToBound(id) && NoDup(o.chunkNodes)
    && forall k | 0 <= k < |o.chunkNodes| :: ChunkOf(id, o.chunkNodes[k])
  }

  /** The streaming state: the octrees, `WorldData`'s chunk-node registry
      and the neighbour seams queued for a rebuild. */
  datatype Streaming = Streaming(octrees: Octrees, registry: ChunkNodes, seams: set<(Box, int)>)

  /** Every octree is placed, and the bounds of the registry's IDs (the
      jobs' chunk set) are exactly the loaded chunk nodes. */
  predicate Consistent(w: Streaming) {
    AllPlaced(w.octrees) && RegistryBounds(w.registry) == LoadedChunkNodes(w.octrees)
  }

  lemma RegistryBoundsAdd(m: ChunkNodes, c: NodeID, n: Node)
    ensures RegistryBounds(m[c := n]) == RegistryBounds(m) + {IdToBound(c)}
  {
  }

  lemma RegistryBoundsRemove(m: ChunkNodes, c: NodeID)
    ensures RegistryBounds(m - {c}) == RegistryBounds(m) - {IdToBound(c)}
  {
    forall x | x in RegistryBounds(m) && x != IdToBound(c) ensures x in RegistryBounds(m - {c}) {
      var c2 :| c2 in m && x == IdToBound(c2);
      assert c2 in m - {c};
    }
    forall x | x in RegistryBounds(m - {c}) ensures x != IdToBound(c) {
      var c2 :| c2 in m - {c} && x == IdToBound(c2);
      if x == IdToBound(c) { IdToBoundInjective(c2, c); }
    }
  }

  /** In a consistent state a chunk ID is registered exactly when its bound
      is loaded. */
  lemma RegisteredIffLoaded(w: Streaming, c: NodeID)
    requires Consistent(w)
    ensures c in w.registry <==> IdToBound(c) in LoadedChunkNodes(w.octrees)
  {
    if IdToBound(c) in LoadedChunkNodes(w.octrees) {
      var c2 :| c2 in w.registry && IdToBound(c2) == IdToBound(c);
      IdToBoundInjective(c2, c);
    }
  }

  /** With every octree placed, a chunk is loaded exactly when its parent
      octree lists it. */
  lemma LoadedAt(octrees: Octrees, b: Box)
    requires AllPlaced(octrees)
    ensures b in LoadedChunkNodes(octrees) <==> ParentOctreeId(b) in octrees && b in octrees[ParentOctreeId(b)].chunkNodes
  {
    if b in LoadedChunkNodes(octrees) {
      var id :| id in octrees && b in octrees[id].chunkNodes;
      var k :| 0 <= k < |octrees[id].chunkNodes| && octrees[id].chunkNodes[k] == b;
      assert ChunkOf(id, octrees[id].chunkNodes[k]);
    }
  }

  /** A loaded chunk is the bound of an ID of at most the top LOD. */
  lemma LoadedIsNode(octrees: Octrees, c: NodeID)
    requires AllPlaced(octrees)
    requires IdToBound(c) in LoadedChunkNodes(octrees)
    ensures c.lod <= MaxLOD && ParentOctreeId(IdToBound(c)) in octrees
  {
    var b := IdToBound(c);
    LoadedAt(octrees, b);
    var id := ParentOctreeId(b);
    var k :| 0 <= k < |octrees[id].chunkNodes| && octrees[id].chunkNodes[k] == b;
    assert ChunkOf(id, octrees[id].chunkNodes[k]);
    IdBoundRoundTrip(c);
  }

  /** The octree half of `_CreateChunkNode`: `CreateChunkNode` on the
      parent octree.  A missing parent octree dereferences null. */
  function CreateInParent(octrees: Octrees, b: Box): (r: Result<(Octrees, Node)>)
    requires OctreesWF(octrees)
    ensures r.Success? ==> OctreesWF(r.value.0) && r.value.0.Keys == octrees.Keys
    ensures r.Success? ==> IsLeaf(r.value.1) && r.value.1.isChunk
    ensures ParentOctreeId(b) !in octrees ==> r == Failure(NullNode)
    ensures r.Failure? ==> r.error == NullNode
  {
    match GetParentOctree(octrees, b)
    case None => Failure(NullNode)
    case Some(o) =>
      match CreateChunkNode(o, b)
      case Failure(e) => Failure(e)
      case Success(on) => Success((PutOctree(octrees, ParentOctreeId(b), on.0), on.1))
  }

  /** Replacing a loaded octree by a well-formed one. */
  function PutOctree(octrees: Octrees, id: NodeID, o: Octree): (r: Octrees)
    requires OctreesWF(octrees) && id in octrees && WF(o.root)
    ensures OctreesWF(r) && r.Keys == octrees.Keys && r[id] == o
    ensures forall id2 | id2 in octrees && id2 != id :: r[id2] == octrees[id2]
  {
    octrees[id := o]
  }

  /** The octree half of `_DestroyChunkNode`: `DestroyChunkNode` on the
      parent octree. */
  function DestroyInParent(octrees: Octrees, b: Box): (r: Result<Octrees>)
    requires OctreesWF(octrees)
    ensures r.Success? ==> OctreesWF(r.value) && r.value.Keys == octrees.Keys
    ensures r.Success? ==> forall id | id in octrees && id != ParentOctreeId(b) :: r.value[id] == octrees[id]
    ensures ParentOctreeId(b) !in octrees ==> r == Failure(NullNode)
    ensures r.Failure? ==> r.error == NullNode
  {
    match GetParentOctree(octrees, b)
    case None => Failure(NullNode)
    case Some(o) =>
      match DestroyChunkNode(o, b)
      case Failure(e) => Failure(e)
      case Success(o2) => Success(PutOctree(octrees, ParentOctreeId(b), o2))
  }

  /** `WorldData.AddChunkNode`'s `Dictionary.Add`: throws on a key
      already present. */
  function AddChunkNode(registry: ChunkNodes, c: NodeID, n: Node): (r: Result<ChunkNodes>)
    ensures r.Success? <==> c !in registry
    ensures r.Success? ==> r.value == registry[c := n]
    ensures r.Failure? ==> r.error == DuplicateKey
  {
    if c in registry then Failure(DuplicateKey) else Success(registry[c := n])
  }

  /** `_CreateChunkNode` for the chunk with ID `c`: collapse its node in the
      parent octree to a chunk, register it and queue the neighbour seams. */
  function CreateChunkStep(w: Streaming, c: NodeID): (r: Result<Streaming>)
    requires OctreesWF(w.octrees)
    ensures r.Success? ==> OctreesWF(r.value.octrees) && r.value.octrees.Keys == w.octrees.Keys
    ensures r.Success? ==> c !in w.registry && c in r.value.registry && r.value.registry == w.registry[c := r.value.registry[c]]
    ensures r.Success? ==> r.value.registry[c].isChunk && IsLeaf(r.value.registry[c])
    ensures r.Success? ==> r.value.seams == w.seams + NeighborSeams(c)
    ensures ParentOctreeId(IdToBound(c)) !in w.octrees ==> r == Failure(NullNode)
    ensures r.Failure? ==> r.error == NullNode || r.error == DuplicateKey
  {
    match CreateInParent(w.octrees, IdToBound(c))
    case Failure(e) => Failure(e)
    case Success(on) =>
      match AddChunkNode(w.registry, c, on.1)
      case Failure(e) => Failure(e)
      case Success(reg) => Success(Streaming(on.0, reg, w.seams + NeighborSeams(c)))
  }

  /** `_DestroyChunkNode` for the chunk with ID `c`: clear its node in the
      parent octree, drop it from the registry (whose mesh slots it reads
      first, by indexer) and queue the neighbour seams. */
  function DestroyChunkStep(w: Streaming, c: NodeID): (r: Result<Streaming>)
    requires OctreesWF(w.octrees)
    ensures r.Success? ==> OctreesWF(r.value.octrees) && r.value.octrees.Keys == w.octrees.Keys
    ensures r.Success? ==> c in w.registry && r.value.registry == w.registry - {c}
    ensures r.Success? ==> forall id | id in w.octrees && id != ParentOctreeId(IdToBound(c)) :: r.value.octrees[id] == w.octrees[id]
    ensures r.Success? ==> r.value.seams == w.seams + NeighborSeams(c)
    ensures ParentOctreeId(IdToBound(c)) !in w.octrees ==> r == Failure(NullNode)
    ensures c !in w.registry ==> r.Failure?
    ensures r.Failure? ==> r.error == NullNode || r.error == MissingKey
  {
    match DestroyInParent(w.octrees, IdToBound(c))
    case Failure(e) => Failure(e)
    case Success(os) =>
      if c !in w.registry then Failure(MissingKey)
      else Success(Streaming(os, w.registry - {c}, w.seams + NeighborSeams(c)))
  }

  /** Every octree of the registry is placed. */
  predicate AllPlaced(octrees: Octrees) {
    forall id | id in octrees :: OctreePlaced(id, octrees[id])
  }

  /** An octree whose list only gains chunks of its own stays placed. */
  lemma PlacedAfter(id: NodeID, o: Octree, o2: Octree, b: Box)
    requires OctreePlaced(id, o) && WF(o2.root) && o2.root.bound == o.root.bound && NoDup(o2.chunkNodes)
    requires ChunkOf(id, b) && forall x | x in o2.chunkNodes :: x in o.chunkNodes || x == b
    ensures OctreePlaced(id, o2)
  {
    forall k | 0 <= k < |o2.chunkNodes| ensures ChunkOf(id, o2.chunkNodes[k]) {
      var x := o2.chunkNodes[k];
      if x != b {
        assert x in o.chunkNodes;
        var j :| 0 <= j < |o.chunkNodes| && o.chunkNodes[j] == x;
        assert ChunkOf(id, o.chunkNodes[j]);
      }
    }
  }

  /** Replacing an octree whose list gains (`add`) or loses chunk `b`
      changes the loaded chunks by exactly `b`. */
  lemma LoadedSwap(octrees: Octrees, pid: NodeID, o2: Octree, b: Box, add: bool)
    requires pid in octrees && AllPlaced(octrees) && AllPlaced(octrees[pid := o2]) && ParentOctreeId(b) == pid
    requires forall x | x in o2.chunkNodes :: x in octrees[pid].chunkNodes || x == b
    requires forall x | x in octrees[pid].chunkNodes && x != b :: x in o2.chunkNodes
    requires add ==> b in o2.chunkNodes
    requires !add ==> b !in o2.chunkNodes
    ensures add ==> LoadedChunkNodes(octrees[pid := o2]) == LoadedChunkNodes(octrees) + {b}
    ensures !add ==> LoadedChunkNodes(octrees[pid := o2]) == LoadedChunkNodes(octrees) - {b}
  {
    var os := octrees[pid := o2];
    forall x ensures x in LoadedChunkNodes(os) <==> (if add then x in LoadedChunkNodes(octrees) + {b} else x in LoadedChunkNodes(octrees) - {b}) {
      LoadedAt(octrees, x);
      LoadedAt(os, x);
    }
  }

  /** A placed chunk's bound lies inside its parent octree's root. */
  lemma ChunkInParent(octrees: Octrees, c: NodeID)
    requires AllPlaced(octrees)
    requires c.lod <= MaxLOD && ParentOctreeId(IdToBound(c)) in octrees
    ensures Aligned(IdToBound(c)) && ValidSize(IdToBound(c).w)
    ensures Contains(octrees[ParentOctreeId(IdToBound(c))].root.bound, IdToBound(c))
  {
    assert OctreePlaced(ParentOctreeId(IdToBound(c)), octrees[ParentOctreeId(IdToBound(c))]);
    ParentOctreeContains(c);
  }

  /** Creating a chunk that is not loaded, under a loaded octree, succeeds,
      keeps every octree placed and loads exactly that chunk, whose node
      has the chunk's bound. */
  lemma CreateInParentOk(octrees: Octrees, c: NodeID)
    requires AllPlaced(octrees) && c.lod <= MaxLOD && ParentOctreeId(IdToBound(c)) in octrees
    requires IdToBound(c) !in LoadedChunkNodes(octrees)
    ensures CreateInParent(octrees, IdToBound(c)).Success?
    ensures CreateInParent(octrees, IdToBound(c)).value.1.bound == IdToBound(c)
    ensures AllPlaced(CreateInParent(octrees, IdToBound(c)).value.0)
    ensures LoadedChunkNodes(CreateInParent(octrees, IdToBound(c)).value.0) == LoadedChunkNodes(octrees) + {IdToBound(c)}
  {
    var b := IdToBound(c);
    var pid := ParentOctreeId(b);
    var o := octrees[pid];
    assert OctreePlaced(pid, o);
    assert CreateChunkNode(o, b).Success? && CreateChunkNode(o, b).value.1.bound == b by {
      ChunkInParent(octrees, c);
    }
    var on := CreateChunkNode(o, b).value;
    assert b !in o.chunkNodes by {
      LoadedAt(octrees, b);
    }
    assert ChunkOf(pid, b) by {
      IdBoundRoundTrip(c);
    }
    assert on.0.chunkNodes == AddOnce(o.chunkNodes, b);
    PlacedAfter(pid, o, on.0, b);
    var os := octrees[pid := on.0];
    assert CreateInParent(octrees, b) == Success((os, on.1));
    assert AllPlaced(os);
    LoadedSwap(octrees, pid, on.0, b, true);
  }

  /** Destroying a loaded chunk succeeds, keeps every octree placed and
      unloads exactly that chunk. */
  lemma DestroyInParentOk(octrees: Octrees, c: NodeID)
    requires AllPlaced(octrees) && IdToBound(c) in LoadedChunkNodes(octrees)
    ensures DestroyInParent(octrees, IdToBound(c)).Success?
    ensures AllPlaced(DestroyInParent(octrees, IdToBound(c)).value)
    ensures LoadedChunkNodes(DestroyInParent(octrees, IdToBound(c)).value) == LoadedChunkNodes(octrees) - {IdToBound(c)}
  {
    var b := IdToBound(c);
    LoadedIsNode(octrees, c);
    var pid := ParentOctreeId(b);
    var o := octrees[pid];
    assert OctreePlaced(pid, o);
    assert DestroyChunkNode(o, b).Success? && DestroyChunkNode(o, b).value.chunkNodes == RemoveOnce(o.chunkNodes, b) by {
      ChunkInParent(octrees, c);
    }
    var o2 := DestroyChunkNode(o, b).value;
    assert ChunkOf(pid, b) by {
      IdBoundRoundTrip(c);
    }
    PlacedAfter(pid, o, o2, b);
    var os := octrees[pid := o2];
    assert DestroyInParent(octrees, b) == Success(os);
    assert AllPlaced(os);
    LoadedSwap(octrees, pid, o2, b, false);
  }

  /** The registry step after a create: it stays in step with the octrees. */
  lemma CreateChunkStepOk(w: Streaming, c: NodeID)
    requires Consistent(w) && c.lod <= MaxLOD && ParentOctreeId(IdToBound(c)) in w.octrees
    requires IdToBound(c) !in LoadedChunkNodes(w.octrees)
    ensures CreateChunkStep(w, c).Success?
    ensures CreateChunkStep(w, c).value.registry[c].bound == IdToBound(c)
    ensures Consistent(CreateChunkStep(w, c).value)
    ensures LoadedChunkNodes(CreateChunkStep(w, c).value.octrees) == LoadedChunkNodes(w.octrees) + {IdToBound(c)}
  {
    CreateInParentOk(w.octrees, c);
    RegisteredIffLoaded(w, c);
    var n := CreateInParent(w.octrees, IdToBound(c)).value.1;
    RegistryBoundsAdd(w.registry, c, n);
  }

  /** The registry step after a destroy: it stays in step with the octrees. */
  lemma DestroyChunkStepOk(w: Streaming, c: NodeID)
    requires Consistent(w) && IdToBound(c) in LoadedChunkNodes(w.octrees)
    ensures DestroyChunkStep(w, c).Success?
    ensures Consistent(DestroyChunkStep(w, c).value)
    ensures LoadedChunkNodes(DestroyChunkStep(w, c).value.octrees) == LoadedChunkNodes(w.octrees) - {IdToBound(c)}
  {
    DestroyInParentOk(w.octrees, c);
    RegisteredIffLoaded(w, c);
    RegistryBoundsRemove(w.registry, c);
  }

  /** The bounds of a list of chunk IDs. */
  function Bounds(cs: seq<NodeID>): set<Box> {
    set c | c in cs :: IdToBound(c)
  }

  /** Every neighbour seam a list of changed chunks queues. */
  function SeamsOf(cs: seq<NodeID>): set<(Box, int)> {
    if cs == [] then {} else NeighborSeams(cs[0]) + SeamsOf(cs[1..])
  }

  /** `foreach (var n in chunksToRemove) _DestroyChunkNode(n)`, in the
      set's enumeration order `cs`; the first failure aborts the update. */
  function DestroyChunks(w: Streaming, cs: seq<NodeID>): (r: Result<Streaming>)
    requires OctreesWF(w.octrees)
    decreases |cs|
    ensures r.Success? ==> OctreesWF(r.value.octrees) && r.value.octrees.Keys == w.octrees.Keys
    ensures r.Success? ==> r.value.seams == w.seams + SeamsOf(cs)
  {
    if cs == [] then Success(w)
    else
      match DestroyChunkStep(w, cs[0])
      case Failure(e) => Failure(e)
      case Success(w1) => DestroyChunks(w1, cs[1..])
  }

  /** `foreach (var n in chunksToCreate) _CreateChunkNode(n)`. */
  function CreateChunks(w: Streaming, cs: seq<NodeID>): (r: Result<Streaming>)
    requires OctreesWF(w.octrees)
    decreases |cs|
    ensures r.Success? ==> OctreesWF(r.value.octrees) && r.value.octrees.Keys == w.octrees.Keys
    ensures r.Success? ==> r.value.seams == w.seams + SeamsOf(cs)
  {
    if cs == [] then Success(w)
    else
      match CreateChunkStep(w, cs[0])
      case Failure(e) => Failure(e)
      case Success(w1) => CreateChunks(w1, cs[1..])
  }

  /** `UpdateChunkNodes` once the plan is known: destroy, then create. */
  function UpdateChunkNodes(w: Streaming, destroy: seq<NodeID>, create: seq<NodeID>): (r: Result<Streaming>)
    requires OctreesWF(w.octrees)
    ensures r.Success? ==> r.value.octrees.Keys == w.octrees.Keys
    ensures r.Success? ==> r.value.seams == w.seams + SeamsOf(destroy) + SeamsOf(create)
  {
    match DestroyChunks(w, destroy)
    case Failure(e) => Failure(e)
    case Success(w1) => CreateChunks(w1, create)
  }

  lemma BoundsCons(cs: seq<NodeID>)
    requires |cs| > 0
    ensures Bounds(cs) == {IdToBound(cs[0])} + Bounds(cs[1..])
  {
    assert cs == [cs[0]] + cs[1..];
  }

  /** After the head of a duplicate-free list leaves or joins a set of
      bounds, the rest of the list is still in or out of it. */
  lemma RestOfList(cs: seq<NodeID>, before: set<Box>, after: set<Box>, add: bool)
    requires |cs| > 0 && NoDup(cs)
    requires add ==> after == before + {IdToBound(cs[0])}
    requires !add ==> after == before - {IdToBound(cs[0])}
    requires forall k | 0 <= k < |cs| :: (IdToBound(cs[k]) in before <==> !add)
    ensures forall k | 0 <= k < |cs[1..]| :: (IdToBound(cs[1..][k]) in after <==> !add)
  {
    forall k | 0 <= k < |cs[1..]| ensures IdToBound(cs[1..][k]) in after <==> !add {
      assert cs[1..][k] == cs[k + 1];
      if IdToBound(cs[k + 1]) == IdToBound(cs[0]) {
        IdToBoundInjective(cs[k + 1], cs[0]);
      }
    }
  }

  /** Distinct chunks, all loaded. */
  predicate Destroyable(w: Streaming, cs: seq<NodeID>) {
    Consistent(w) && NoDup(cs) && forall k | 0 <= k < |cs| :: IdToBound(cs[k]) in LoadedChunkNodes(w.octrees)
  }

  /** Distinct chunks, none loaded, each under a loaded octree. */
  predicate Creatable(w: Streaming, cs: seq<NodeID>) {
    Consistent(w) && NoDup(cs) &&
    (forall k | 0 <= k < |cs| :: cs[k].lod <= MaxLOD && ParentOctreeId(IdToBound(cs[k])) in w.octrees) &&
    (forall k | 0 <= k < |cs| :: IdToBound(cs[k]) !in LoadedChunkNodes(w.octrees))
  }

  /** The first destroy of `DestroyChunks` leaves the rest of the list
      destroyable. */
  lemma DestroyHead(w: Streaming, cs: seq<NodeID>) returns (w1: Streaming)
    requires Destroyable(w, cs) && |cs| > 0
    ensures DestroyChunkStep(w, cs[0]) == Success(w1)
    ensures Destroyable(w1, cs[1..])
    ensures LoadedChunkNodes(w1.octrees) == LoadedChunkNodes(w.octrees) - {IdToBound(cs[0])}
    ensures DestroyChunks(w, cs) == DestroyChunks(w1, cs[1..])
  {
    DestroyChunkStepOk(w, cs[0]);
    w1 := DestroyChunkStep(w, cs[0]).value;
    RestOfList(cs, LoadedChunkNodes(w.octrees), LoadedChunkNodes(w1.octrees), false);
  }

  /** Destroying distinct loaded chunks one by one succeeds and unloads
      exactly them. */
  lemma {:induction false} DestroyChunksOk(w: Streaming, cs: seq<NodeID>)
    requires Destroyable(w, cs)
    decreases |cs|
    ensures DestroyChunks(w, cs).Success?
    ensures Consistent(DestroyChunks(w, cs).value)
    ensures LoadedChunkNodes(DestroyChunks(w, cs).value.octrees) == LoadedChunkNodes(w.octrees) - Bounds(cs)
  {
    if cs != [] {
      var w1 := DestroyHead(w, cs);
      DestroyChunksOk(w1, cs[1..]);
      BoundsCons(cs);
    }
  }

  /** The first create of `CreateChunks` leaves the rest of the list
      creatable. */
  lemma CreateHead(w: Streaming, cs: seq<NodeID>) returns (w1: Streaming)
    requires Creatable(w, cs) && |cs| > 0
    ensures CreateChunkStep(w, cs[0]) == Success(w1)
    ensures Creatable(w1, cs[1..])
    ensures LoadedChunkNodes(w1.octrees) == LoadedChunkNodes(w.octrees) + {IdToBound(cs[0])}
    ensures CreateChunks(w, cs) == CreateChunks(w1, cs[1..])
  {
    CreateChunkStepOk(w, cs[0]);
    w1 := CreateChunkStep(w, cs[0]).value;
    RestOfList(cs, LoadedChunkNodes(w.octrees), LoadedChunkNodes(w1.octrees), true);
    assert forall k | 0 <= k < |cs[1..]| :: cs[1..][k] == cs[k + 1];
  }

  /** Creating distinct chunks that are not loaded, each under a loaded
      octree, succeeds and loads exactly them. */
  lemma {:induction false} CreateChunksOk(w: Streaming, cs: seq<NodeID>)
    requires Creatable(w, cs)
    decreases |cs|
    ensures CreateChunks(w, cs).Success?
    ensures Consistent(CreateChunks(w, cs).value)
    ensures LoadedChunkNodes(CreateChunks(w, cs).value.octrees) == LoadedChunkNodes(w.octrees) + Bounds(cs)
  {
    if cs != [] {
      var w1 := CreateHead(w, cs);
      CreateChunksOk(w1, cs[1..]);
      BoundsCons(cs);
    }
  }

  /** A required chunk node lies in the octree of one of the roots. */
  lemma RequiredParent(p: Vec3, roots: seq<NodeID>, c: NodeID)
    requires Roots(roots) && IdToBound(c) in RequiredChunkNodes(p, roots)
    ensures c.lod <= MaxLOD && ParentOctreeId(IdToBound(c)) in roots
  {
    var pl := PlayerIds(p);
    var b := IdToBound(c);
    var c0 :| c0 in RequiredIds(pl, roots) && b == IdToBound(c0);
    IdToBoundInjective(c, c0);
    var m := TileRoot(pl, roots, c);
    RequiredInside(pl, roots[m], c, b.Min());
    var pid := ParentOctreeId(b);
    GetNodeIDUnique(b.Min(), pid);
    GetNodeIDUnique(b.Min(), roots[m]);
  }

  /** `UpdateChunkNodes`: whatever order the two sets of the plan are
      enumerated in, destroying the loaded chunk nodes that are not required
      and creating the required ones that are not loaded succeeds, keeps the
      registry in step, and leaves exactly the required chunk nodes loaded. */
  lemma UpdateChunkNodesReachesRequired(w: Streaming, p: Vec3, roots: seq<NodeID>, destroy: seq<NodeID>, create: seq<NodeID>)
    requires Consistent(w) && Roots(roots) && (forall id :: id in w.octrees <==> id in roots)
    requires NoDup(destroy) && NoDup(create)
    requires Bounds(destroy) == Reconcile(RequiredChunkNodes(p, roots), LoadedChunkNodes(w.octrees)).destroy
    requires Bounds(create) == Reconcile(RequiredChunkNodes(p, roots), LoadedChunkNodes(w.octrees)).create
    ensures UpdateChunkNodes(w, destroy, create).Success?
    ensures Consistent(UpdateChunkNodes(w, destroy, create).value)
    ensures LoadedChunkNodes(UpdateChunkNodes(w, destroy, create).value.octrees) == RequiredChunkNodes(p, roots)
  {
    var required := RequiredChunkNodes(p, roots);
    var loaded := LoadedChunkNodes(w.octrees);
    var plan := Reconcile(required, loaded);
    forall k | 0 <= k < |destroy| ensures IdToBound(destroy[k]) in loaded {
      assert IdToBound(destroy[k]) in Bounds(destroy);
    }
    DestroyChunksOk(w, destroy);
    var w1 := DestroyChunks(w, destroy).value;
    forall k | 0 <= k < |create|
      ensures create[k].lod <= MaxLOD && ParentOctreeId(IdToBound(create[k])) in w1.octrees
      ensures IdToBound(create[k]) !in LoadedChunkNodes(w1.octrees)
    {
      assert IdToBound(create[k]) in Bounds(create);
      RequiredParent(p, roots, create[k]);
    }
    CreateChunksOk(w1, create);
  }

  // ---------------------------------------------------------------- octree streaming

  /** The neighbour seams the chunks of a bound list queue, by each bound's ID. */
  function BoundSeams(bs: seq<Box>): set<(Box, int)> {
    if bs == [] then {}
    else (match BoundToId(bs[0]) case Some(c) => NeighborSeams(c) case None => {}) + BoundSeams(bs[1..])
  }

  /** `foreach (var n in tmp) _DestroyChunkNode(n.bound)` over a copy of an
      octree's chunk list.  `RemoveChunkNode` keys the registry by the
      bound's ID, and a bound with no ID here is never registered, so its
      removal throws.  In a consistent state every listed chunk is the bound
      of its ID, so the step is taken on the ID. */
  function DestroyBounds(w: Streaming, bs: seq<Box>): (r: Result<Streaming>)
    requires OctreesWF(w.octrees)
    decreases |bs|
    ensures r.Success? ==> OctreesWF(r.value.octrees) && r.value.octrees.Keys == w.octrees.Keys
    ensures r.Success? ==> r.value.seams == w.seams + BoundSeams(bs)
    ensures r.Failure? ==> r.error == NullNode || r.error == MissingKey
  {
    if bs == [] then Success(w)
    else
      match BoundToId(bs[0])
      case None => Failure(MissingKey)
      case Some(c) =>
        match DestroyChunkStep(w, c)
        case Failure(e) => Failure(e)
        case Success(w1) => DestroyBounds(w1, bs[1..])
  }

  /** `_DestroyOctree`: destroy every chunk node the octree lists, then drop
      the octree (the dictionary indexer throws on a missing key).  Handing
      its nodes back to the pool is not modelled. */
  function DestroyOctree(w: Streaming, oid: NodeID): (r: Result<Streaming>)
    requires OctreesWF(w.octrees)
    ensures oid !in w.octrees ==> r == Failure(MissingKey)
    ensures r.Success? ==> OctreesWF(r.value.octrees) && r.value.octrees.Keys == w.octrees.Keys - {oid}
    ensures r.Success? ==> r.value.seams == w.seams + BoundSeams(w.octrees[oid].chunkNodes)
  {
    if oid !in w.octrees then Failure(MissingKey)
    else
      match DestroyBounds(w, w.octrees[oid].chunkNodes)
      case Failure(e) => Failure(e)
      case Success(w1) => Success(w1.(octrees := w1.octrees - {oid}))
  }

  /** `foreach (var key in octreesToRemove) _DestroyOctree(key)`, in the
      set's enumeration order. */
  function DestroyOctrees(w: Streaming, ids: seq<NodeID>): (r: Result<Streaming>)
    requires OctreesWF(w.octrees)
    decreases |ids|
    ensures r.Success? ==> OctreesWF(r.value.octrees) && r.value.octrees.Keys == w.octrees.Keys - (set id | id in ids)
  {
    if ids == [] then Success(w)
    else
      match DestroyOctree(w, ids[0])
      case Failure(e) => Failure(e)
      case Success(w1) => DestroyOctrees(w1, ids[1..])
  }

  /** `_CreateOctree`: a fresh octree added under its ID; `Dictionary.Add`
      throws on a key already present. */
  function AddOctree(w: Streaming, id: NodeID): (r: Result<Streaming>)
    requires id.lod == MaxLOD
    ensures r.Success? <==> id !in w.octrees
    ensures r.Success? ==> r.value == w.(octrees := w.octrees[id := CreateOctree(id)])
    ensures r.Failure? ==> r.error == DuplicateKey
  {
    if id in w.octrees then Failure(DuplicateKey) else Success(w.(octrees := w.octrees[id := CreateOctree(id)]))
  }

  /** `foreach (var key in octreesToCreate) _CreateOctree(key)`. */
  function CreateOctrees(w: Streaming, ids: seq<NodeID>): (r: Result<Streaming>)
    requires forall k | 0 <= k < |ids| :: ids[k].lod == MaxLOD
    decreases |ids|
    ensures r.Success? ==> r.value.registry == w.registry && r.value.seams == w.seams
    ensures r.Success? ==> r.value.octrees.Keys == w.octrees.Keys + (set id | id in ids)
  {
    if ids == [] then Success(w)
    else
      match AddOctree(w, ids[0])
      case Failure(e) => Failure(e)
      case Success(w1) => CreateOctrees(w1, ids[1..])
  }

  /** `UpdateOctrees` on the streaming state, given the enumeration orders
      of its two sets: every octree to remove is destroyed with its chunk
      nodes, then every octree to create is added. */
  function UpdateOctreesIn(w: Streaming, remove: seq<NodeID>, create: seq<NodeID>): (r: Result<Streaming>)
    requires OctreesWF(w.octrees) && forall k | 0 <= k < |create| :: create[k].lod == MaxLOD
    ensures r.Success? ==> r.value.octrees.Keys == (w.octrees.Keys - (set id | id in remove)) + (set id | id in create)
  {
    match DestroyOctrees(w, remove)
    case Failure(e) => Failure(e)
    case Success(w1) => CreateOctrees(w1, create)
  }

  /** Distinct chunk bounds, all loaded. */
  predicate BoundsDestroyable(w: Streaming, bs: seq<Box>) {
    Consistent(w) && NoDup(bs) && forall k | 0 <= k < |bs| :: bs[k] in LoadedChunkNodes(w.octrees)
  }

  /** A loaded chunk is the bound of its own ID. */
  lemma LoadedHasId(w: Streaming, b: Box) returns (c: NodeID)
    requires Consistent(w) && b in LoadedChunkNodes(w.octrees)
    ensures BoundToId(b) == Some(c) && IdToBound(c) == b
  {
    assert b in RegistryBounds(w.registry);
    c :| c in w.registry && IdToBound(c) == b;
    IdBoundRoundTrip(c);
  }

  /** The first destroy of `DestroyBounds` leaves the rest of the list
      destroyable and only touches the head's parent octree. */
  lemma DestroyBoundHead(w: Streaming, bs: seq<Box>) returns (w1: Streaming)
    requires BoundsDestroyable(w, bs) && |bs| > 0
    ensures BoundsDestroyable(w1, bs[1..])
    ensures LoadedChunkNodes(w1.octrees) == LoadedChunkNodes(w.octrees) - {bs[0]}
    ensures DestroyBounds(w, bs) == DestroyBounds(w1, bs[1..])
    ensures w1.octrees.Keys == w.octrees.Keys
    ensures forall id | id in w.octrees && id != ParentOctreeId(bs[0]) :: w1.octrees[id] == w.octrees[id]
  {
    var c := LoadedHasId(w, bs[0]);
    DestroyChunkStepOk(w, c);
    w1 := DestroyChunkStep(w, c).value;
    forall k | 0 <= k < |bs[1..]| ensures bs[1..][k] in LoadedChunkNodes(w1.octrees) {
      assert bs[1..][k] == bs[k + 1] && bs[k + 1] != bs[0];
    }
  }

  lemma BoundSetCons(bs: seq<Box>)
    requires |bs| > 0
    ensures (set b | b in bs) == {bs[0]} + (set b | b in bs[1..])
  {
    assert bs == [bs[0]] + bs[1..];
  }

  /** Destroying distinct loaded chunks by bound succeeds, keeps the
      registry in step and unloads exactly them. */
  lemma {:induction false} DestroyBoundsOk(w: Streaming, bs: seq<Box>)
    requires BoundsDestroyable(w, bs)
    decreases |bs|
    ensures DestroyBounds(w, bs).Success?
    ensures Consistent(DestroyBounds(w, bs).value)
    ensures LoadedChunkNodes(DestroyBounds(w, bs).value.octrees) == LoadedChunkNodes(w.octrees) - (set b | b in bs)
  {
    if bs != [] {
      var w1 := DestroyBoundHead(w, bs);
      DestroyBoundsOk(w1, bs[1..]);
      BoundSetCons(bs);
    }
  }

  /** Destroying chunks of one octree leaves every other octree untouched. */
  lemma {:induction false} DestroyBoundsFrame(w: Streaming, bs: seq<Box>, oid: NodeID)
    requires BoundsDestroyable(w, bs) && forall k | 0 <= k < |bs| :: ParentOctreeId(bs[k]) == oid
    decreases |bs|
    ensures DestroyBounds(w, bs).Success?
    ensures forall id | id in w.octrees && id != oid :: DestroyBounds(w, bs).value.octrees[id] == w.octrees[id]
  {
    DestroyBoundsOk(w, bs);
    if bs != [] {
      var w1 := DestroyBoundHead(w, bs);
      forall k | 0 <= k < |bs[1..]| ensures ParentOctreeId(bs[1..][k]) == oid {
        assert bs[1..][k] == bs[k + 1];
      }
      DestroyBoundsFrame(w1, bs[1..], oid);
    }
  }

  /** Every chunk an octree lists is loaded, and has that octree as parent. */
  lemma ListedLoaded(octrees: Octrees, oid: NodeID, k: int)
    requires AllPlaced(octrees) && oid in octrees && 0 <= k < |octrees[oid].chunkNodes|
    ensures octrees[oid].chunkNodes[k] in LoadedChunkNodes(octrees)
    ensures ParentOctreeId(octrees[oid].chunkNodes[k]) == oid
  {
    var b := octrees[oid].chunkNodes[k];
    assert OctreePlaced(oid, octrees[oid]);
    assert ChunkOf(oid, b);
    assert oid in octrees && b in octrees[oid].chunkNodes;
  }

  /** Dropping an octree that lists no chunk unloads nothing. */
  lemma LoadedDropEmpty(octrees: Octrees, oid: NodeID)
    requires oid in octrees && octrees[oid].chunkNodes == []
    ensures LoadedChunkNodes(octrees - {oid}) == LoadedChunkNodes(octrees)
  {
    forall x | x in LoadedChunkNodes(octrees) ensures x in LoadedChunkNodes(octrees - {oid}) {
      var id :| id in octrees && x in octrees[id].chunkNodes;
      assert id in octrees - {oid} && x in (octrees - {oid})[id].chunkNodes;
    }
  }

  /** Adding an octree that lists no chunk loads nothing. */
  lemma LoadedAddEmpty(octrees: Octrees, oid: NodeID, o: Octree)
    requires oid !in octrees && o.chunkNodes == []
    ensures LoadedChunkNodes(octrees[oid := o]) == LoadedChunkNodes(octrees)
  {
    forall x | x in LoadedChunkNodes(octrees) ensures x in LoadedChunkNodes(octrees[oid := o]) {
      var id :| id in octrees && x in octrees[id].chunkNodes;
      assert id in octrees[oid := o] && x in octrees[oid := o][id].chunkNodes;
    }
  }

  /** With every octree placed, dropping a set of octrees unloads exactly
      the chunks they list. */
  lemma LoadedWithout(octrees: Octrees, s: set<NodeID>)
    requires AllPlaced(octrees)
    ensures LoadedChunkNodes(octrees - s) == LoadedChunkNodes(octrees) - Released(octrees, s)
  {
    forall x | x in LoadedChunkNodes(octrees - s) ensures x in LoadedChunkNodes(octrees) && x !in Released(octrees, s) {
      var id :| id in octrees - s && x in (octrees - s)[id].chunkNodes;
      var k :| 0 <= k < |octrees[id].chunkNodes| && octrees[id].chunkNodes[k] == x;
      ListedLoaded(octrees, id, k);
    }
    forall x | x in LoadedChunkNodes(octrees) && x !in Released(octrees, s) ensures x in LoadedChunkNodes(octrees - s) {
      LoadedAt(octrees, x);
      var pid := ParentOctreeId(x);
      assert pid !in s;
      assert pid in octrees - s && x in (octrees - s)[pid].chunkNodes;
    }
  }

  /** Once every chunk an octree listed is destroyed, its list is empty. */
  lemma EmptiedOctree(w: Streaming, w1: Streaming, oid: NodeID)
    requires AllPlaced(w.octrees) && AllPlaced(w1.octrees) && oid in w.octrees && oid in w1.octrees
    requires LoadedChunkNodes(w1.octrees) == LoadedChunkNodes(w.octrees) - (set b | b in w.octrees[oid].chunkNodes)
    ensures w1.octrees[oid].chunkNodes == []
  {
    if w1.octrees[oid].chunkNodes != [] {
      var x := w1.octrees[oid].chunkNodes[0];
      ListedLoaded(w1.octrees, oid, 0);
      LoadedAt(w.octrees, x);
      assert false;
    }
  }

  /** Dropping an octree that lists no chunk keeps the registry in step. */
  lemma DropEmptyConsistent(w: Streaming, oid: NodeID)
    requires Consistent(w) && oid in w.octrees && w.octrees[oid].chunkNodes == []
    ensures Consistent(w.(octrees := w.octrees - {oid}))
  {
    LoadedDropEmpty(w.octrees, oid);
  }

  /** The chunk list of a loaded octree is destroyable, all under it. */
  lemma ListDestroyable(w: Streaming, oid: NodeID)
    requires Consistent(w) && oid in w.octrees
    ensures BoundsDestroyable(w, w.octrees[oid].chunkNodes)
    ensures forall k | 0 <= k < |w.octrees[oid].chunkNodes| :: ParentOctreeId(w.octrees[oid].chunkNodes[k]) == oid
  {
    var bs := w.octrees[oid].chunkNodes;
    assert OctreePlaced(oid, w.octrees[oid]);
    forall k | 0 <= k < |bs| ensures bs[k] in LoadedChunkNodes(w.octrees) && ParentOctreeId(bs[k]) == oid {
      ListedLoaded(w.octrees, oid, k);
    }
  }

  lemma MinusSame(m: Octrees, m1: Octrees, oid: NodeID)
    requires m1.Keys == m.Keys && forall id | id in m && id != oid :: m1[id] == m[id]
    ensures m1 - {oid} == m - {oid}
  {
  }

  /** Destroying a loaded octree succeeds, keeps the registry in step, and
      drops exactly that octree; the others are untouched. */
  lemma DestroyOctreeOk(w: Streaming, oid: NodeID)
    requires Consistent(w) && oid in w.octrees
    ensures DestroyOctree(w, oid).Success?
    ensures Consistent(DestroyOctree(w, oid).value)
    ensures DestroyOctree(w, oid).value.octrees == w.octrees - {oid}
  {
    var bs := w.octrees[oid].chunkNodes;
    ListDestroyable(w, oid);
    DestroyBoundsOk(w, bs);
    DestroyBoundsFrame(w, bs, oid);
    var w1 := DestroyBounds(w, bs).value;
    EmptiedOctree(w, w1, oid);
    DropEmptyConsistent(w1, oid);
    MinusSame(w.octrees, w1.octrees, oid);
  }

  lemma IdSetCons(ids: seq<NodeID>)
    requires |ids| > 0
    ensures (set id | id in ids) == {ids[0]} + (set id | id in ids[1..])
  {
    assert ids == [ids[0]] + ids[1..];
  }

  /** Distinct loaded octree IDs. */
  predicate OctreesDestroyable(w: Streaming, ids: seq<NodeID>) {
    Consistent(w) && NoDup(ids) && forall k | 0 <= k < |ids| :: ids[k] in w.octrees
  }

  /** The first destroy of `DestroyOctrees` leaves the rest of the list
      destroyable. */
  lemma DestroyOctreeHead(w: Streaming, ids: seq<NodeID>) returns (w1: Streaming)
    requires OctreesDestroyable(w, ids) && |ids| > 0
    ensures OctreesDestroyable(w1, ids[1..])
    ensures w1.octrees == w.octrees - {ids[0]}
    ensures DestroyOctrees(w, ids) == DestroyOctrees(w1, ids[1..])
  {
    DestroyOctreeOk(w, ids[0]);
    w1 := DestroyOctree(w, ids[0]).value;
    forall k | 0 <= k < |ids[1..]| ensures ids[1..][k] in w1.octrees {
      assert ids[1..][k] == ids[k + 1] && ids[k + 1] != ids[0];
    }
  }

  lemma MinusCons(m: Octrees, ids: seq<NodeID>)
    requires |ids| > 0
    ensures (m - {ids[0]}) - (set id | id in ids[1..]) == m - (set id | id in ids)
  {
    IdSetCons(ids);
  }

  /** Destroying distinct loaded octrees one by one succeeds, keeps the
      registry in step, and drops exactly them. */
  lemma {:induction false} DestroyOctreesOk(w: Streaming, ids: seq<NodeID>)
    requires OctreesDestroyable(w, ids)
    decreases |ids|
    ensures DestroyOctrees(w, ids).Success?
    ensures Consistent(DestroyOctrees(w, ids).value)
    ensures DestroyOctrees(w, ids).value.octrees == w.octrees - (set id | id in ids)
  {
    if ids != [] {
      var w1 := DestroyOctreeHead(w, ids);
      DestroyOctreesOk(w1, ids[1..]);
      MinusCons(w.octrees, ids);
    }
  }

  /** Adding fresh top-LOD octrees one by one succeeds and keeps the
      registry in step; the loaded chunks do not change. */
  lemma {:induction false} CreateOctreesOk(w: Streaming, ids: seq<NodeID>)
    requires Consistent(w) && NoDup(ids)
    requires forall k | 0 <= k < |ids| :: ids[k].lod == MaxLOD && ids[k] !in w.octrees
    decreases |ids|
    ensures CreateOctrees(w, ids).Success?
    ensures Consistent(CreateOctrees(w, ids).value)
    ensures forall id | id in CreateOctrees(w, ids).value.octrees ::
      CreateOctrees(w, ids).value.octrees[id] == if id in w.octrees then w.octrees[id] else CreateOctree(id)
    ensures LoadedChunkNodes(CreateOctrees(w, ids).value.octrees) == LoadedChunkNodes(w.octrees)
  {
    if ids != [] {
      var id0 := ids[0];
      var w1 := AddOctree(w, id0).value;
      assert OctreePlaced(id0, CreateOctree(id0));
      LoadedAddEmpty(w.octrees, id0, CreateOctree(id0));
      forall k | 0 <= k < |ids[1..]| ensures ids[1..][k].lod == MaxLOD && ids[1..][k] !in w1.octrees {
        assert ids[1..][k] == ids[k + 1] && ids[k + 1] != ids[0];
      }
      CreateOctreesOk(w1, ids[1..]);
    }
  }

  /** The octree IDs a reconcile destroys and creates: loaded top-LOD IDs
      out, required top-LOD IDs in. */
  lemma OctreePlanFacts(w: Streaming, p: Vec3, remove: seq<NodeID>, create: seq<NodeID>)
    requires Consistent(w)
    requires (set id | id in remove) == Reconcile(RequiredOctrees(p), w.octrees.Keys).destroy
    requires (set id | id in create) == Reconcile(RequiredOctrees(p), w.octrees.Keys).create
    ensures forall id | id in w.octrees :: id.lod == MaxLOD
    ensures forall k | 0 <= k < |remove| :: remove[k] in w.octrees
    ensures forall k | 0 <= k < |create| :: create[k].lod == MaxLOD && create[k] !in w.octrees
  {
    forall id | id in w.octrees ensures id.lod == MaxLOD {
      assert OctreePlaced(id, w.octrees[id]);
    }
    forall k | 0 <= k < |create| ensures create[k].lod == MaxLOD && create[k] !in w.octrees {
      assert create[k] in (set id | id in create);
      RequiredOctreesIn(p, create[k]);
    }
    forall k | 0 <= k < |remove| ensures remove[k] in w.octrees {
      assert remove[k] in (set id | id in remove);
    }
  }

  /** `UpdateOctrees` on the streaming state: whatever order the two sets
      are enumerated in, it succeeds, keeps the registry in step, and
      leaves exactly the octrees of `UpdateOctrees`.  The chunks of the
      dropped octrees are unloaded and unregistered, and no other. */
  lemma UpdateOctreesInOk(w: Streaming, p: Vec3, remove: seq<NodeID>, create: seq<NodeID>)
    requires Consistent(w) && NoDup(remove) && NoDup(create)
    requires (set id | id in remove) == Reconcile(RequiredOctrees(p), w.octrees.Keys).destroy
    requires (set id | id in create) == Reconcile(RequiredOctrees(p), w.octrees.Keys).create
    ensures forall id | id in w.octrees :: id.lod == MaxLOD
    ensures forall k | 0 <= k < |create| :: create[k].lod == MaxLOD
    ensures UpdateOctreesIn(w, remove, create).Success?
    ensures Consistent(UpdateOctreesIn(w, remove, create).value)
    ensures UpdateOctreesIn(w, remove, create).value.octrees == UpdateOctrees(w.octrees, p).octrees
    ensures LoadedChunkNodes(UpdateOctreesIn(w, remove, create).value.octrees) ==
      LoadedChunkNodes(w.octrees) - UpdateOctrees(w.octrees, p).released
    ensures forall c :: c in UpdateOctreesIn(w, remove, create).value.registry <==>
      c in w.registry && IdToBound(c) !in UpdateOctrees(w.octrees, p).released
  {
    OctreePlanFacts(w, p, remove, create);
    var plan := Reconcile(RequiredOctrees(p), w.octrees.Keys);
    assert OctreesDestroyable(w, remove);
    DestroyOctreesOk(w, remove);
    var w1 := DestroyOctrees(w, remove).value;
    CreateOctreesOk(w1, create);
    var r := CreateOctrees(w1, create).value;
    assert UpdateOctreesIn(w, remove, create) == Success(r);
    var u := UpdateOctrees(w.octrees, p);
    SameOctrees(w.octrees, p, w1.octrees, r.octrees);
    LoadedWithout(w.octrees, plan.destroy);
    assert u.released == Released(w.octrees, plan.destroy);
    forall c ensures c in r.registry <==> c in w.registry && IdToBound(c) !in u.released {
      RegisteredIffLoaded(w, c);
      RegisteredIffLoaded(r, c);
    }
  }

  /** Destroying the unrequired octrees and adding fresh ones for the
      missing required IDs leaves the octrees of `UpdateOctrees`. */
  lemma SameOctrees(loaded: Octrees, p: Vec3, kept: Octrees, r: Octrees)
    requires forall id | id in loaded :: id.lod == MaxLOD
    requires kept == loaded - Reconcile(RequiredOctrees(p), loaded.Keys).destroy
    requires r.Keys == kept.Keys + Reconcile(RequiredOctrees(p), loaded.Keys).create
    requires forall id | id in r :: r[id] == if id in kept then kept[id] else CreateOctree(id)
    ensures r == UpdateOctrees(loaded, p).octrees
  {
    var u := UpdateOctrees(loaded, p).octrees;
    assert r.Keys == u.Keys;
  }

  // ---------------------------------------------------------------- edit scheduling

  /** A sphere edit: center and radius, in eighths. */
  datatype Sphere = Sphere(center: Vec3, radius: int)

  /** The LOD-0 chunk IDs from the one holding `lo` to the one holding
      `hi`, inclusive on every axis. */
  function ChunkIdsBetween(lo: Vec3, hi: Vec3): set<NodeID> {
    var a := GetNodeID(lo, 0);
    var b := GetNodeID(hi, 0);
    set i, j, k | a.x <= i <= b.x && a.y <= j <= b.y && a.z <= k <= b.z :: NodeID(i, j, k, 0)
  }

  /** On one axis: the floor index of `lo` is at most `i` and that of `hi`
      at least `i`, iff cell `i` of edge `w` meets `[lo, hi]`. */
  lemma AxisBetween(lo: int, hi: int, w: int, i: int)
    requires w > 0
    ensures lo / w <= i <= hi / w <==> lo < i * w + w && i * w <= hi
  {
    FloorBounds(lo, w);
    FloorBounds(hi, w);
    MulLe(lo / w, i, w);
    MulLe(i, hi / w, w);
    MulLe(i + 1, lo / w, w);
    MulLe(hi / w + 1, i, w);
  }

  /** The cells `ChunkIdsBetween` enumerates are exactly the LOD-0 chunks
      whose bound meets the closed box `[lo, hi]`. */
  lemma ChunkIdsBetweenIn(lo: Vec3, hi: Vec3, id: NodeID)
    ensures id in ChunkIdsBetween(lo, hi) <==> id.lod == 0 && Meets(IdToBound(id), lo, hi)
  {
    var w := LodSize(0);
    AxisBetween(lo.x, hi.x, w, id.x);
    AxisBetween(lo.y, hi.y, w, id.y);
    AxisBetween(lo.z, hi.z, w, id.z);
  }

  /** A box meets the closed box `[lo, hi]`. */
  predicate Meets(b: Box, lo: Vec3, hi: Vec3) {
    lo.x < b.x + b.w && b.x <= hi.x && lo.y < b.y + b.w && b.y <= hi.y && lo.z < b.z + b.w && b.z <= hi.z
  }

  /** The region a placed block touches: its cube cell's min corner to that
      corner plus one cube edge (both inclusive). */
  function BlockRegion(cp: CubeParam, wPos: Vec3): (r: Result<(Vec3, Vec3)>)
    ensures r.Failure? <==> !cp.initialized
    ensures r.Success? ==> r.value.0.x <= wPos.x < r.value.1.x
    ensures r.Success? ==> r.value.0.y <= wPos.y < r.value.1.y
    ensures r.Success? ==> r.value.0.z <= wPos.z < r.value.1.z
    ensures r.Success? ==> r.value.1 == r.value.0.Plus(Vec3(CubeSize, CubeSize, CubeSize))
  {
    var g :- GetCubePos(cp, wPos);
    // The grid is initialised here, so the inverse transform succeeds.
    var w1 := GetWorldPos(cp, g).value;
    Success((w1, w1.Plus(Vec3(CubeSize, CubeSize, CubeSize))))
  }

  /** The region a sphere edit touches: center minus and plus the radius. */
  function SphereRegion(s: Sphere): (r: (Vec3, Vec3))
    ensures s.radius >= 0 ==> r.0.x <= s.center.x <= r.1.x
    ensures s.radius >= 0 ==> r.0.y <= s.center.y <= r.1.y
    ensures s.radius >= 0 ==> r.0.z <= s.center.z <= r.1.z
    ensures r.1.x - r.0.x == 2 * s.radius && r.1.y - r.0.y == 2 * s.radius && r.1.z - r.0.z == 2 * s.radius
  {
    var v := Vec3(s.radius, s.radius, s.radius);
    (Vec3(s.center.x - v.x, s.center.y - v.y, s.center.z - v.z), s.center.Plus(v))
  }

  /** Look every ID up with the registry's indexer, which throws on the
      first missing one. */
  function LookupAll(m: ChunkNodes, ids: set<NodeID>): (r: Result<set<Box>>)
    ensures r.Success? <==> ids <= m.Keys
    ensures r.Failure? ==> r.error == MissingKey
    ensures r.Success? ==> forall b :: b in r.value <==> exists id | id in ids :: b == m[id].bound
  {
    if ids <= m.Keys then Success(set id | id in ids :: m[id].bound) else Failure(MissingKey)
  }

  /** The chunks the queued block edits schedule, in queue order. */
  function BlockChunks(m: ChunkNodes, cp: CubeParam, blocks: seq<Vec3>): (r: Result<set<Box>>)
  {
    if blocks == [] then Success({})
    else
      var reg :- BlockRegion(cp, blocks[0]);
      var here :- LookupAll(m, ChunkIdsBetween(reg.0, reg.1));
      var rest :- BlockChunks(m, cp, blocks[1..]);
      Success(here + rest)
  }

  /** The chunks the queued sphere edits schedule, in queue order. */
  function SphereChunks(m: ChunkNodes, spheres: seq<Sphere>): (r: Result<set<Box>>)
  {
    if spheres == [] then Success({})
    else
      var reg := SphereRegion(spheres[0]);
      var here :- LookupAll(m, ChunkIdsBetween(reg.0, reg.1));
      var rest :- SphereChunks(m, spheres[1..]);
      Success(here + rest)
  }

  /** With an initialised cube grid, the block edits succeed iff every
      LOD-0 chunk they touch is registered, and then schedule exactly the
      bounds of those chunks. */
  lemma {:induction false} BlockChunksExact(m: ChunkNodes, cp: CubeParam, blocks: seq<Vec3>)
    requires cp.initialized
    ensures BlockChunks(m, cp, blocks).Success? <==>
      forall k | 0 <= k < |blocks| :: ChunkIdsBetween(BlockRegion(cp, blocks[k]).value.0, BlockRegion(cp, blocks[k]).value.1) <= m.Keys
    ensures BlockChunks(m, cp, blocks).Success? ==> forall b :: b in BlockChunks(m, cp, blocks).value <==>
      exists k, id | 0 <= k < |blocks| && id in ChunkIdsBetween(BlockRegion(cp, blocks[k]).value.0, BlockRegion(cp, blocks[k]).value.1)
        :: b == m[id].bound
  {
    if blocks != [] {
      BlockChunksExact(m, cp, blocks[1..]);
      assert forall k | 1 <= k < |blocks| :: blocks[k] == blocks[1..][k - 1];
    }
  }

  /** The sphere edits succeed iff every LOD-0 chunk their boxes meet is
      registered, and then schedule exactly the bounds of those chunks. */
  lemma {:induction false} SphereChunksExact(m: ChunkNodes, spheres: seq<Sphere>)
    ensures SphereChunks(m, spheres).Success? <==>
      forall k | 0 <= k < |spheres| :: ChunkIdsBetween(SphereRegion(spheres[k]).0, SphereRegion(spheres[k]).1) <= m.Keys
    ensures SphereChunks(m, spheres).Success? ==> forall b :: b in SphereChunks(m, spheres).value <==>
      exists k, id | 0 <= k < |spheres| && id in ChunkIdsBetween(SphereRegion(spheres[k]).0, SphereRegion(spheres[k]).1)
        :: b == m[id].bound
  {
    if spheres != [] {
      SphereChunksExact(m, spheres[1..]);
      assert forall k | 1 <= k < |spheres| :: spheres[k] == spheres[1..][k - 1];
    }
  }

  /** The updater's scheduling state: the two busy flags and the three
      request queues. */
  datatype Updater = Updater(updatingWorld: bool, updatingSingle: bool,
                             worldQueue: seq<Vec3>, blocks: seq<Vec3>, spheres: seq<Sphere>)
  {
    /** `IsUpdating`. */
    predicate IsUpdating() {
      updatingWorld || updatingSingle
    }
  }

  /** What one `UpdateWorld` call starts. */
  datatype Started = Nothing | WorldUpdate(player: Vec3) | SingleChunkUpdate(chunks: set<Box>)

  /** `UpdateWorld`: while busy, nothing.  Otherwise a queued player
      position starts a world update (which raises the world flag, so the
      edits wait); else queued edits are turned into the chunks to rebuild,
      the edit queues are cleared, and the synchronous single-chunk update
      runs (its flag is raised and lowered within the call). */
  function UpdateWorld(u: Updater, m: ChunkNodes, cp: CubeParam): (r: Result<(Updater, Started)>)
    ensures u.IsUpdating() ==> r == Success((u, Nothing))
    ensures !u.IsUpdating() && u.worldQueue != [] ==>
      r == Success((u.(updatingWorld := true, worldQueue := u.worldQueue[1..]), WorldUpdate(u.worldQueue[0])))
    ensures !u.IsUpdating() && u.worldQueue == [] && u.blocks == [] && u.spheres == [] ==> r == Success((u, Nothing))
    ensures !u.IsUpdating() && u.worldQueue == [] && (u.blocks != [] || u.spheres != []) ==>
      (r.Success? <==> BlockChunks(m, cp, u.blocks).Success? && SphereChunks(m, u.spheres).Success?)
    ensures !u.IsUpdating() && u.worldQueue == [] && (u.blocks != [] || u.spheres != []) && r.Success? ==>
      r.value.0 == u.(blocks := [], spheres := []) && !r.value.0.IsUpdating() &&
      r.value.1 == SingleChunkUpdate(BlockChunks(m, cp, u.blocks).value + SphereChunks(m, u.spheres).value)
  {
    if u.IsUpdating() then Success((u, Nothing))
    else if u.worldQueue != [] then
      Success((u.(updatingWorld := true, worldQueue := u.worldQueue[1..]), WorldUpdate(u.worldQueue[0])))
    else if u.blocks != [] || u.spheres != [] then
      var a :- BlockChunks(m, cp, u.blocks);
      var b :- SphereChunks(m, u.spheres);
      Success((u.(blocks := [], spheres := []), SingleChunkUpdate(a + b)))
    else Success((u, Nothing))
  }
}
