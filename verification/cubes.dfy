/** The sparse cube octree (`CubeOctree`) and the cube stores of `WorldData`.

    Positions here are cube-grid cells.  A cube octree covers
    `CubeOctreeSize` cells per axis; every node that holds a material other
    than 255 is registered in two flat maps keyed by its box: the managed
    `AllCubeNodes` (key to node; the model keeps the node's value) and the
    native `AllCubeNodes` (key to `CubeInfo`).  Mutations of the tree emit
    the store operations the engine performs, in order; `ApplyOps` runs
    them. */
module CubeOctrees {
  import opened Wrappers
  import opened Lattice

  /** A material byte; 255 means unset. */
  type Mat = x: int | 0 <= x < 256

  const Unset: Mat := 255

  datatype CubeNode = CubeNode(box: Box, value: Mat, order: nat, children: seq<CubeNode>)

  predicate IsLeaf(n: CubeNode) {
    |n.children| == 0
  }

  /** A cube edge: a power of two cells. */
  predicate CubeEdge(w: int) {
    ValidSize(2 * w)
  }

  lemma CubeEdgeHalf(w: int)
    requires CubeEdge(w) && w > 1
    ensures w % 2 == 0 && CubeEdge(w / 2)
  {
    HalfValid(2 * w);
  }

  lemma CubeEdgeBelowHalf(a: int, b: int)
    requires CubeEdge(a) && CubeEdge(b) && a < b
    ensures b > 1 && b % 2 == 0 && a <= b / 2 && CubeEdge(b / 2)
  {
    BelowHalf(2 * a, 2 * b);
    CubeEdgeHalf(b);
  }

  lemma CubeEdgeOne()
    ensures CubeEdge(1)
  {
    ValidOfExp(0);
  }

  /** Shape invariant: power-of-two aligned boxes; a leaf, or eight children
      in octant order. */
  predicate WF(n: CubeNode) {
    CubeEdge(n.box.w) && Aligned(n.box) &&
    (IsLeaf(n) ||
     (|n.children| == 8 && n.box.w > 1 &&
      forall i | 0 <= i < 8 :: n.children[i].box == ChildBound(n.box, i) && WF(n.children[i])))
  }

  // ---------------------------------------------------------------- stores

  /** `WorldDataNative.CubeInfo`. */
  datatype CubeInfo = CubeInfo(mat: Mat, isLeaf: bool, order: nat)

  /** `CubeData`: an override entry. */
  datatype CubeData = CubeData(order: nat, mat: Mat)

  /** The managed map (key to the value of the node it references) and the
      native map. */
  datatype CubeStore = CubeStore(managed: map<Box, Mat>, native: map<Box, CubeInfo>)

  /** The two maps register the same keys and the managed node's value is
      the native entry's material. */
  predicate Mirror(s: CubeStore) {
    s.managed.Keys == s.native.Keys && forall k | k in s.native :: s.managed[k] == s.native[k].mat
  }

  /** The box and current value of a node's parent. */
  datatype ParentRef = ParentRef(box: Box, value: Mat)

  /** `AddCubeNode`: material 255 is ignored; otherwise the key is added to
      both maps (an existing key throws) and an existing parent entry is
      marked non-leaf with the parent's current value and the child's order. */
  function AddCubeNode(s: CubeStore, key: Box, mat: Mat, isLeaf: bool, order: nat, parent: Option<ParentRef>): (r: Result<CubeStore>)
    requires parent.Some? ==> parent.value.box != key
    ensures mat == Unset ==> r == Success(s)
    ensures mat != Unset ==> (r.Failure? <==> key in s.managed || key in s.native)
    ensures r.Failure? ==> r.error == DuplicateKey
    ensures r.Success? && mat != Unset ==>
      r.value.native.Keys == s.native.Keys + {key} && r.value.managed.Keys == s.managed.Keys + {key} &&
      r.value.native[key] == CubeInfo(mat, isLeaf, order) && r.value.managed[key] == mat
    ensures r.Success? && mat != Unset && parent.Some? && parent.value.box in s.native ==>
      r.value.native[parent.value.box] == CubeInfo(parent.value.value, false, order)
    ensures r.Success? ==> forall k | k in s.native && k != key && (parent.None? || k != parent.value.box) ::
      r.value.native[k] == s.native[k]
    ensures r.Success? ==> forall k | k in s.managed && k != key && (parent.None? || k != parent.value.box) ::
      r.value.managed[k] == s.managed[k]
    ensures Mirror(s) && r.Success? ==> Mirror(r.value)
  {
    if mat == Unset then Success(s)
    else if key in s.managed || key in s.native then Failure(DuplicateKey)
    else
      var managed := s.managed[key := mat];
      var native := s.native[key := CubeInfo(mat, isLeaf, order)];
      match parent
      case None => Success(CubeStore(managed, native))
      case Some(p) =>
        if p.box in native then
          var managed' := if p.box in managed then managed[p.box := p.value] else managed;
          Success(CubeStore(managed', native[p.box := CubeInfo(p.value, false, order)]))
        else Success(CubeStore(managed, native))
  }

  /** `CubeValueUpdate`: the entry's material and order are replaced and its
      leaf flag kept; a missing key throws. */
  function CubeValueUpdate(s: CubeStore, key: Box, mat: Mat, order: nat): (r: Result<CubeStore>)
    ensures r.Failure? <==> key !in s.native
    ensures r.Failure? ==> r.error == MissingKey
    ensures r.Success? ==> r.value.native.Keys == s.native.Keys && r.value.managed == s.managed
    ensures r.Success? ==> r.value.native[key] == CubeInfo(mat, s.native[key].isLeaf, order)
    ensures r.Success? ==> forall k | k in s.native && k != key :: r.value.native[k] == s.native[k]
  {
    if key !in s.native then Failure(MissingKey)
    else Success(s.(native := s.native[key := s.native[key].(mat := mat, order := order)]))
  }

  /** The node's own `value = mat`, seen through the managed map's reference. */
  function SetNodeValue(s: CubeStore, key: Box, mat: Mat): (r: CubeStore)
    ensures r.native == s.native && r.managed.Keys == s.managed.Keys
    ensures key in s.managed ==> r.managed[key] == mat
    ensures forall k | k in s.managed && k != key :: r.managed[k] == s.managed[k]
  {
    if key in s.managed then s.(managed := s.managed[key := mat]) else s
  }

  /** A store mutation emitted by the tree operations. */
  datatype StoreOp =
    | AddOp(key: Box, mat: Mat, isLeaf: bool, order: nat, parent: Option<ParentRef>)
    | UpdateOp(key: Box, mat: Mat, order: nat)

  function ApplyOp(s: CubeStore, op: StoreOp): (r: Result<CubeStore>)
    ensures Mirror(s) && r.Success? ==> Mirror(r.value)
  {
    match op
    case AddOp(key, mat, isLeaf, order, parent) =>
      if parent.Some? && parent.value.box == key then Failure(DuplicateKey)
      else AddCubeNode(s, key, mat, isLeaf, order, parent)
    case UpdateOp(key, mat, order) =>
      var r := CubeValueUpdate(SetNodeValue(s, key, mat), key, mat, order);
      assert Mirror(s) && r.Success? ==> Mirror(r.value) by {
        if Mirror(s) && r.Success? {
          forall k | k in r.value.native ensures r.value.managed[k] == r.value.native[k].mat {
            if k != key {
              assert r.value.managed[k] == s.managed[k];
            }
          }
        }
      }
      r
  }

  /** Runs the operations in order; the first failure stops the run. */
  function ApplyOps(s: CubeStore, ops: seq<StoreOp>): (r: Result<CubeStore>)
    decreases |ops|
    ensures Mirror(s) && r.Success? ==> Mirror(r.value)
  {
    if |ops| == 0 then Success(s)
    else
      match ApplyOp(s, ops[0])
      case Failure(e) => Failure(e)
      case Success(s') => ApplyOps(s', ops[1..])
  }

  // ---------------------------------------------------------------- lookups

  /** The box of edge `size` whose min is `g` floored to multiples of `size`. */
  function AlignedKey(g: Vec3, size: int): (k: Box)
    requires size > 0
    ensures k.w == size && Aligned(k) && k.HasPoint(g)
  {
    Box(FloorToMultiple(g.x, size), FloorToMultiple(g.y, size), FloorToMultiple(g.z, size), size)
  }

  /** Any point of an aligned cell yields that cell's key. */
  lemma AlignedKeyOfCell(g: Vec3, k: Box)
    requires Aligned(k) && k.HasPoint(g)
    ensures AlignedKey(g, k.w) == k
  {
    CellFloor(g.x, k.x, k.w);
    CellFloor(g.y, k.y, k.w);
    CellFloor(g.z, k.z, k.w);
  }

  lemma CellFloor(v: int, lo: int, w: int)
    requires w > 0 && lo % w == 0 && lo <= v < lo + w
    ensures FloorToMultiple(v, w) == lo
  {
    FloorBounds(lo, w);
    FloorToMultipleIsGreatest(v, w, lo / w);
    var r := FloorToMultiple(v, w);
    if lo < r {
      MultipleGap(lo, r, w);
    }
  }

  /** `GetCubePureValue`: the stored material and order of the cube's
      aligned key, ignoring overrides; (255, 0) when absent. */
  function GetCubePureValue(native: map<Box, CubeInfo>, cube: Box): (r: (Mat, nat))
    requires cube.w > 0
    ensures AlignedKey(cube.Min(), cube.w) !in native ==> r == (Unset, 0)
    ensures AlignedKey(cube.Min(), cube.w) in native ==>
      r == (native[AlignedKey(cube.Min(), cube.w)].mat, native[AlignedKey(cube.Min(), cube.w)].order)
  {
    var key := AlignedKey(cube.Min(), cube.w);
    if key in native then (native[key].mat, native[key].order) else (Unset, 0)
  }

  /** `GetCubeValue`: the key is `cubeGridPos` aligned to `2^cubeLOD`; an
      override entry wins over the stored cube; (255, 0) when both are absent. */
  function GetCubeValue(native: map<Box, CubeInfo>, overrides: map<Box, CubeData>, g: Vec3, cubeLOD: nat): (r: (Mat, nat))
    ensures var key := AlignedKey(g, Pow2(cubeLOD));
      key in overrides ==> r == (overrides[key].mat, overrides[key].order)
    ensures var key := AlignedKey(g, Pow2(cubeLOD));
      key !in overrides ==> r == GetCubePureValue(native, key)
  {
    var key := AlignedKey(g, Pow2(cubeLOD));
    AlignedKeyOfCell(key.Min(), key);
    if key in overrides then (overrides[key].mat, overrides[key].order)
    else if key in native then (native[key].mat, native[key].order)
    else (Unset, 0)
  }

  /** `GetCubeValue` depends only on the aligned cell, not on the point in it. */
  lemma GetCubeValueCellwise(native: map<Box, CubeInfo>, overrides: map<Box, CubeData>, g: Vec3, h: Vec3, cubeLOD: nat)
    requires AlignedKey(g, Pow2(cubeLOD)).HasPoint(h)
    ensures GetCubeValue(native, overrides, g, cubeLOD) == GetCubeValue(native, overrides, h, cubeLOD)
  {
    AlignedKeyOfCell(h, AlignedKey(g, Pow2(cubeLOD)));
  }

  /** `IsLeaf(cube)`: an entry exists and is flagged leaf. */
  predicate NativeIsLeaf(native: map<Box, CubeInfo>, cube: Box) {
    cube in native && native[cube].isLeaf
  }

  /** After adding a cube, it is a leaf iff it was added as one, and an
      existing parent entry is no longer a leaf. */
  lemma AddCubeNodeLeaf(s: CubeStore, key: Box, mat: Mat, isLeaf: bool, order: nat, parent: Option<ParentRef>)
    requires parent.Some? ==> parent.value.box != key
    requires mat != Unset && AddCubeNode(s, key, mat, isLeaf, order, parent).Success?
    ensures NativeIsLeaf(AddCubeNode(s, key, mat, isLeaf, order, parent).value.native, key) == isLeaf
    ensures parent.Some? && parent.value.box in s.native ==>
      !NativeIsLeaf(AddCubeNode(s, key, mat, isLeaf, order, parent).value.native, parent.value.box)
  {
  }

  /** An added cube reads back through `GetCubePureValue`. */
  lemma AddThenPureValue(s: CubeStore, key: Box, mat: Mat, isLeaf: bool, order: nat, parent: Option<ParentRef>)
    requires parent.Some? ==> parent.value.box != key
    requires Aligned(key) && mat != Unset && AddCubeNode(s, key, mat, isLeaf, order, parent).Success?
    ensures GetCubePureValue(AddCubeNode(s, key, mat, isLeaf, order, parent).value.native, key) == (mat, order)
  {
    AlignedKeyOfCell(key.Min(), key);
  }

  /** An updated cube reads back through `GetCubePureValue` and keeps its
      leaf flag. */
  lemma UpdateThenPureValue(s: CubeStore, key: Box, mat: Mat, order: nat)
    requires Aligned(key) && key in s.native
    ensures GetCubePureValue(CubeValueUpdate(s, key, mat, order).value.native, key) == (mat, order)
    ensures NativeIsLeaf(CubeValueUpdate(s, key, mat, order).value.native, key) == NativeIsLeaf(s.native, key)
  {
    AlignedKeyOfCell(key.Min(), key);
  }

  /** `FindCubeGridPos`: the value of the managed node at the position
      aligned to `1 << lod`, or 255. */
  function FindCubeGridPos(managed: map<Box, Mat>, g: Vec3, lod: nat): (r: Mat)
    ensures AlignedKey(g, Pow2(lod)) !in managed ==> r == Unset
    ensures AlignedKey(g, Pow2(lod)) in managed ==> r == managed[AlignedKey(g, Pow2(lod))]
  {
    var key := AlignedKey(g, Pow2(lod));
    if key in managed then managed[key] else Unset
  }

  /** `CubeUtil.FindCube`: the world point's cell looked up at `lod`. */
  function FindCube(managed: map<Box, Mat>, p: CubeParam, worldPos: Vec3, lod: nat): (r: Result<Mat>)
    ensures !p.initialized ==> r == Failure(NotInitialized)
    ensures r.Success? ==> r.value == FindCubeGridPos(managed, GetCubePos(p, worldPos).value, lod)
  {
    var g :- GetCubePos(p, worldPos);
    Success(FindCubeGridPos(managed, g, lod))
  }

  /** On mirrored stores the managed lookup and the native lookup without
      overrides agree. */
  lemma FindCubeGridPosAgrees(s: CubeStore, g: Vec3, lod: nat)
    requires Mirror(s)
    ensures FindCubeGridPos(s.managed, g, lod) == GetCubeValue(s.native, map[], g, lod).0
  {
  }

  /** `GetCubeOctreeID`: the per-axis floor of the cell over CubeOctreeSize. */
  function GetCubeOctreeID(g: Vec3): (id: Vec3)
    ensures id.x * CubeOctreeSize <= g.x < id.x * CubeOctreeSize + CubeOctreeSize
    ensures id.y * CubeOctreeSize <= g.y < id.y * CubeOctreeSize + CubeOctreeSize
    ensures id.z * CubeOctreeSize <= g.z < id.z * CubeOctreeSize + CubeOctreeSize
  {
    Constants();
    FloorBounds(g.x, CubeOctreeSize);
    FloorBounds(g.y, CubeOctreeSize);
    FloorBounds(g.z, CubeOctreeSize);
    Vec3(g.x / CubeOctreeSize, g.y / CubeOctreeSize, g.z / CubeOctreeSize)
  }

  /** The box a cube octree covers. */
  function OctreeBox(id: Vec3): (b: Box)
    ensures WF(CubeNode(b, Unset, 0, [])) && b.w == CubeOctreeSize
  {
    var b := Box(id.x * CubeOctreeSize, id.y * CubeOctreeSize, id.z * CubeOctreeSize, CubeOctreeSize);
    Constants();
    assert 2 * CubeOctreeSize == NodeMinSize * Pow2(9) by { assert Pow2(9) == 512; }
    ValidOfExp(9);
    DivUnique(b.x, CubeOctreeSize, id.x, 0);
    DivUnique(b.y, CubeOctreeSize, id.y, 0);
    DivUnique(b.z, CubeOctreeSize, id.z, 0);
    b
  }

  // ---------------------------------------------------------------- tree operations

  /** `CubeOctree.Initialize`: a leaf root of value `mat` and order 0 at
      `id * cubeOctreeSize`, registered with `AddCubeNode`. */
  function InitializeCubeOctree(s: CubeStore, id: Vec3, mat: Mat): (r: (CubeNode, Result<CubeStore>))
    ensures WF(r.0) && IsLeaf(r.0) && r.0.box == OctreeBox(id) && r.0.value == mat && r.0.order == 0
    ensures r.1 == AddCubeNode(s, OctreeBox(id), mat, true, 0, None)
  {
    var root := CubeNode(OctreeBox(id), mat, 0, []);
    (root, AddCubeNode(s, root.box, mat, true, 0, None))
  }

  /** The bound of child `idx` of a cube node. */
  lemma CubeChildFacts(b: Box, idx: int)
    requires 0 <= idx < 8 && Aligned(b) && CubeEdge(b.w) && b.w > 1
    ensures Aligned(ChildBound(b, idx)) && CubeEdge(ChildBound(b, idx).w) && Within(ChildBound(b, idx), b)
  {
    CubeEdgeHalf(b.w);
    ChildBoundInside(b, idx);
  }

  /** `CubeNode.Divide(childIdx, mat)`: eight leaf children; the one on the
      path takes the node's value and order and is registered with `mat`,
      the others are (255, 0) and their registration is ignored. */
  function DivideCube(n: CubeNode, childIdx: int, mat: Mat): (r: (CubeNode, seq<StoreOp>))
    requires WF(n) && IsLeaf(n) && n.box.w > 1 && 0 <= childIdx < 8
    ensures WF(r.0) && !IsLeaf(r.0) && r.0.box == n.box && r.0.value == n.value && r.0.order == n.order
    ensures forall i | 0 <= i < 8 :: (IsLeaf(r.0.children[i]) &&
      (if i == childIdx then r.0.children[i].value == n.value && r.0.children[i].order == n.order
       else r.0.children[i].value == Unset && r.0.children[i].order == 0))
    ensures |r.1| == 8 && forall i | 0 <= i < 8 :: (r.1[i] ==
      AddOp(ChildBound(n.box, i), if i == childIdx then mat else Unset, true, if i == childIdx then n.order else 0,
            Some(ParentRef(n.box, n.value))))
  {
    var kids := seq(8, i requires 0 <= i < 8 =>
      if i == childIdx then CubeNode(ChildBound(n.box, i), n.value, n.order, [])
      else CubeNode(ChildBound(n.box, i), Unset, 0, []));
    var ops := seq(8, i requires 0 <= i < 8 =>
      AddOp(ChildBound(n.box, i), if i == childIdx then mat else Unset, true, if i == childIdx then n.order else 0,
            Some(ParentRef(n.box, n.value))));
    assert forall i | 0 <= i < 8 :: WF(kids[i]) by {
      forall i | 0 <= i < 8 ensures WF(kids[i]) { CubeChildFacts(n.box, i); }
    }
    (n.(children := kids), ops)
  }

  /** Child `i` replaced by a node of the same box. */
  function SetCubeChild(d: CubeNode, i: int, c: CubeNode): (r: CubeNode)
    requires WF(d) && !IsLeaf(d) && 0 <= i < 8 && WF(c) && c.box == d.children[i].box
    ensures WF(r) && !IsLeaf(r) && r.box == d.box && r.value == d.value && r.order == d.order && r.children[i] == c
    ensures forall j | 0 <= j < 8 && j != i :: r.children[j] == d.children[j]
  {
    d.(children := d.children[i := c])
  }

  /** `GetNodeAndSetVal`: every node from here down to edge `findSize`
      toward `pos` gets `value = mat` and `order` (registered if it was 255,
      updated otherwise), leaves on the way being divided. */
  function GetNodeAndSetVal(n: CubeNode, pos: Vec3, findSize: int, mat: Mat, order: nat, parent: Option<ParentRef>): (r: (CubeNode, seq<StoreOp>))
    requires WF(n) && CubeEdge(findSize) && findSize <= n.box.w
    decreases n.box.w
    ensures WF(r.0) && r.0.box == n.box
    ensures |r.1| >= 1 && r.1[0] == (if n.value == Unset then AddOp(n.box, mat, IsLeaf(n), order, parent) else UpdateOp(n.box, mat, order))
  {
    var here := if n.value == Unset then AddOp(n.box, mat, IsLeaf(n), order, parent) else UpdateOp(n.box, mat, order);
    var n1 := n.(value := mat, order := order);
    if findSize == n.box.w then (n1, [here])
    else
      CubeEdgeBelowHalf(findSize, n.box.w);
      var i := ChildIdx(n.box, pos);
      var d := if IsLeaf(n) then DivideCube(n1, i, mat) else (n1, []);
      var sub := GetNodeAndSetVal(d.0.children[i], pos, findSize, mat, order, Some(ParentRef(n.box, mat)));
      (SetCubeChild(d.0, i, sub.0), [here] + d.1 + sub.1)
  }

  /** Every node on the descent toward `pos` down to edge `findSize` holds
      (mat, order), and the descent reaches that edge. */
  predicate PathHas(t: CubeNode, pos: Vec3, findSize: int, mat: Mat, order: nat)
    decreases t
  {
    t.value == mat && t.order == order &&
    (t.box.w == findSize ||
     (|t.children| == 8 && PathHas(t.children[ChildIdx(t.box, pos)], pos, findSize, mat, order)))
  }

  /** The node the descent toward `pos` stops at: edge `findSize` or a leaf. */
  function PathEnd(t: CubeNode, pos: Vec3, findSize: int): (e: CubeNode)
    decreases t
  {
    if t.box.w == findSize || |t.children| != 8 then t
    else PathEnd(t.children[ChildIdx(t.box, pos)], pos, findSize)
  }

  /** After `GetNodeAndSetVal` the whole path carries (mat, order). */
  lemma {:induction false} SetValPath(n: CubeNode, pos: Vec3, findSize: int, mat: Mat, order: nat, parent: Option<ParentRef>)
    requires WF(n) && CubeEdge(findSize) && findSize <= n.box.w
    decreases n.box.w
    ensures PathHas(GetNodeAndSetVal(n, pos, findSize, mat, order, parent).0, pos, findSize, mat, order)
  {
    if findSize != n.box.w {
      var c := SetValStep(n, pos, findSize, mat, order, parent);
      SetValPath(c, pos, findSize, mat, order, Some(ParentRef(n.box, mat)));
    }
  }

  /** One step of the descent: the node gets (mat, order) and the path goes
      on through the child the descent continues in. */
  lemma SetValStep(n: CubeNode, pos: Vec3, findSize: int, mat: Mat, order: nat, parent: Option<ParentRef>) returns (c: CubeNode)
    requires WF(n) && CubeEdge(findSize) && findSize < n.box.w
    ensures WF(c) && findSize <= c.box.w < n.box.w
    ensures PathHas(GetNodeAndSetVal(c, pos, findSize, mat, order, Some(ParentRef(n.box, mat))).0, pos, findSize, mat, order) ==>
            PathHas(GetNodeAndSetVal(n, pos, findSize, mat, order, parent).0, pos, findSize, mat, order)
  {
    CubeEdgeBelowHalf(findSize, n.box.w);
    var n1 := n.(value := mat, order := order);
    var i := ChildIdx(n.box, pos);
    var d := if IsLeaf(n) then DivideCube(n1, i, mat) else (n1, []);
    c := d.0.children[i];
    var sub := GetNodeAndSetVal(c, pos, findSize, mat, order, Some(ParentRef(n.box, mat)));
    var r := SetCubeChild(d.0, i, sub.0);
    assert GetNodeAndSetVal(n, pos, findSize, mat, order, parent).0 == r;
    assert r.children[ChildIdx(r.box, pos)] == sub.0;
  }

  /** In a well-formed tree the descent from a node holding `pos` ends at a
      node of edge `findSize` holding `pos` when the path reaches that edge. */
  lemma {:induction false} PathEndHolds(t: CubeNode, pos: Vec3, findSize: int, mat: Mat, order: nat)
    requires WF(t) && PathHas(t, pos, findSize, mat, order) && t.box.HasPoint(pos)
    ensures PathEnd(t, pos, findSize).box.w == findSize
    ensures PathEnd(t, pos, findSize).box.HasPoint(pos)
    ensures PathEnd(t, pos, findSize).value == mat && PathEnd(t, pos, findSize).order == order
  {
    if t.box.w != findSize {
      CubeEdgeHalf(t.box.w);
      ChildIdxHasPoint(t.box, pos);
      PathEndHolds(t.children[ChildIdx(t.box, pos)], pos, findSize, mat, order);
    }
  }

  /** The last store operation of a descent writes (mat, order) to a key of
      edge `findSize` holding `pos`. */
  predicate LastOpAt(ops: seq<StoreOp>, pos: Vec3, findSize: int, mat: Mat, order: nat) {
    |ops| >= 1 &&
    var o := ops[|ops| - 1];
    o.key.w == findSize && o.key.HasPoint(pos) && o.mat == mat && o.order == order
  }

  /** The operations of `GetNodeAndSetVal` end with the write of the node
      the descent stops at. */
  lemma {:induction false} SetValLastOp(n: CubeNode, pos: Vec3, findSize: int, mat: Mat, order: nat, parent: Option<ParentRef>)
    requires WF(n) && CubeEdge(findSize) && findSize <= n.box.w && n.box.HasPoint(pos)
    decreases n.box.w
    ensures LastOpAt(GetNodeAndSetVal(n, pos, findSize, mat, order, parent).1, pos, findSize, mat, order)
  {
    if findSize != n.box.w {
      var c, pre := SetValSplit(n, pos, findSize, mat, order, parent);
      SetValLastOp(c, pos, findSize, mat, order, Some(ParentRef(n.box, mat)));
      LastOpAppend(pre, GetNodeAndSetVal(c, pos, findSize, mat, order, Some(ParentRef(n.box, mat))).1, pos, findSize, mat, order);
    }
  }

  /** Operations put in front keep the last one. */
  lemma LastOpAppend(pre: seq<StoreOp>, ops: seq<StoreOp>, pos: Vec3, findSize: int, mat: Mat, order: nat)
    requires LastOpAt(ops, pos, findSize, mat, order)
    ensures LastOpAt(pre + ops, pos, findSize, mat, order)
  {
    assert (pre + ops)[|pre + ops| - 1] == ops[|ops| - 1];
  }

  /** One level of `GetNodeAndSetVal`: the writes on this level, then those
      of the child holding `pos`. */
  lemma SetValSplit(n: CubeNode, pos: Vec3, findSize: int, mat: Mat, order: nat, parent: Option<ParentRef>) returns (c: CubeNode, pre: seq<StoreOp>)
    requires WF(n) && CubeEdge(findSize) && findSize < n.box.w && n.box.HasPoint(pos)
    ensures WF(c) && findSize <= c.box.w < n.box.w && c.box.HasPoint(pos)
    ensures GetNodeAndSetVal(n, pos, findSize, mat, order, parent).1 ==
            pre + GetNodeAndSetVal(c, pos, findSize, mat, order, Some(ParentRef(n.box, mat))).1
  {
    CubeEdgeBelowHalf(findSize, n.box.w);
    ChildIdxHasPoint(n.box, pos);
    var here := if n.value == Unset then AddOp(n.box, mat, IsLeaf(n), order, parent) else UpdateOp(n.box, mat, order);
    var n1 := n.(value := mat, order := order);
    var i := ChildIdx(n.box, pos);
    var d := if IsLeaf(n) then DivideCube(n1, i, mat) else (n1, []);
    c := d.0.children[i];
    pre := [here] + d.1;
  }

  /** A successful run ends with its last operation. */
  lemma {:induction false} ApplyOpsLast(s: CubeStore, ops: seq<StoreOp>)
    requires |ops| >= 1 && ApplyOps(s, ops).Success?
    decreases |ops|
    ensures ApplyOps(s, ops[..|ops| - 1]).Success?
    ensures ApplyOp(ApplyOps(s, ops[..|ops| - 1]).value, ops[|ops| - 1]) == ApplyOps(s, ops)
  {
    if |ops| == 1 {
      assert ops[..0] == [];
    } else {
      var s1 := ApplyOp(s, ops[0]).value;
      ApplyOpsLast(s1, ops[1..]);
      assert ops[1..][..|ops| - 2] == ops[..|ops| - 1][1..];
      assert ops[1..][|ops| - 2] == ops[|ops| - 1];
    }
  }

  /** A successful write of a material other than 255 stores it, with its
      order, under its key. */
  lemma OpWritesKey(s: CubeStore, o: StoreOp)
    requires o.mat != Unset && ApplyOp(s, o).Success?
    ensures o.key in ApplyOp(s, o).value.native
    ensures ApplyOp(s, o).value.native[o.key].mat == o.mat && ApplyOp(s, o).value.native[o.key].order == o.order
    ensures Mirror(s) ==> ApplyOp(s, o).value.managed[o.key] == o.mat
  {
  }

  // ---------------------------------------------------------------- world edits

  /** A sphere edit (`SphereSDF`); centre and radius stay abstract integers. */
  datatype SphereSDF = SphereSDF(center: Vec3, radius: int, order: nat, mat: Mat)

  /** The edit state: cube octrees by ID, the cube stores, the sphere list
      and the global `PlaceOrder` counter. */
  datatype CubeWorld = CubeWorld(octrees: map<Vec3, CubeNode>, store: CubeStore, spheres: seq<SphereSDF>, placeOrder: nat)

  predicate WorldWF(w: CubeWorld) {
    forall id | id in w.octrees :: WF(w.octrees[id]) && w.octrees[id].box == OctreeBox(id)
  }

  /** `GetOrCreateCubeOctree`: an existing octree is returned unchanged;
      otherwise one is initialised with `mat` and registered. */
  function GetOrCreateCubeOctree(w: CubeWorld, id: Vec3, mat: Mat): (r: Result<CubeWorld>)
    requires WorldWF(w)
    ensures id in w.octrees ==> r == Success(w)
    ensures r.Success? ==> WorldWF(r.value) && id in r.value.octrees && r.value.placeOrder == w.placeOrder
    ensures r.Success? ==> r.value.spheres == w.spheres && w.octrees.Keys <= r.value.octrees.Keys
  {
    if id in w.octrees then Success(w)
    else
      var (root, store) := InitializeCubeOctree(w.store, id, mat);
      var st :- store;
      Success(w.(octrees := w.octrees[id := root], store := st))
  }

  /** `CubeUtil.AddCube`: the cell holding the world point is written with
      `mat` and a fresh order in the octree whose ID is the cell's floor over
      cubeOctreeSize; `PlaceOrder` advances by one. */
  function AddCube(w: CubeWorld, p: CubeParam, posInWorld: Vec3, mat: Mat): (r: Result<CubeWorld>)
    requires WorldWF(w)
    ensures !p.initialized ==> r == Failure(NotInitialized)
    ensures r.Success? ==> WorldWF(r.value) && r.value.placeOrder == w.placeOrder + 1 && r.value.spheres == w.spheres
    ensures r.Success? ==> var g := GetCubePos(p, posInWorld).value; var id := GetCubeOctreeID(g);
      id in r.value.octrees && PathHas(r.value.octrees[id], g, 1, mat, w.placeOrder) &&
      PathEnd(r.value.octrees[id], g, 1).box == Box(g.x, g.y, g.z, 1)
  {
    var g :- GetCubePos(p, posInWorld);
    var id := GetCubeOctreeID(g);
    var w1 :- GetOrCreateCubeOctree(w, id, mat);
    var w2 :- SetData(w1, id, g, mat, w.placeOrder);
    Success(w2.(placeOrder := w.placeOrder + 1))
  }

  /** `CubeOctree.SetData`: the descent from the root of octree `id` down
      to the cell holding `g`, its writes applied to the stores. */
  function SetData(w: CubeWorld, id: Vec3, g: Vec3, mat: Mat, order: nat): (r: Result<CubeWorld>)
    requires WorldWF(w) && id in w.octrees && OctreeBox(id).HasPoint(g)
    ensures r.Success? ==> WorldWF(r.value) && r.value.placeOrder == w.placeOrder && r.value.spheres == w.spheres
    ensures r.Success? ==> (id in r.value.octrees && PathHas(r.value.octrees[id], g, 1, mat, order) &&
      PathEnd(r.value.octrees[id], g, 1).box == Box(g.x, g.y, g.z, 1))
  {
    var tree := w.octrees[id];
    CubeEdgeOne();
    var (tree', ops) := GetNodeAndSetVal(tree, g, 1, mat, order, None);
    var st :- ApplyOps(w.store, ops);
    SetValPath(tree, g, 1, mat, order, None);
    PathEndHolds(tree', g, 1, mat, order);
    UnitCell(PathEnd(tree', g, 1).box, g);
    Success(w.(octrees := w.octrees[id := tree'], store := st))
  }

  /** After `AddCube` with a material other than 255 the cell reads back
      that material and the order it was stamped with, through
      `GetCubeValue` without overrides at cube LOD 0 and through the managed
      lookup when the stores mirror each other. */
  lemma AddCubeReadBack(w: CubeWorld, p: CubeParam, posInWorld: Vec3, mat: Mat)
    requires WorldWF(w) && mat != Unset && AddCube(w, p, posInWorld, mat).Success?
    ensures var g := GetCubePos(p, posInWorld).value; var s := AddCube(w, p, posInWorld, mat).value.store;
      GetCubeValue(s.native, map[], g, 0) == (mat, w.placeOrder) &&
      GetCubePureValue(s.native, Box(g.x, g.y, g.z, 1)) == (mat, w.placeOrder) &&
      (Mirror(w.store) ==> FindCubeGridPos(s.managed, g, 0) == mat)
  {
    var g := GetCubePos(p, posInWorld).value;
    var id := GetCubeOctreeID(g);
    var w1 := GetOrCreateCubeOctree(w, id, mat).value;
    assert AddCube(w, p, posInWorld, mat).value.store == SetData(w1, id, g, mat, w.placeOrder).value.store;
    var tree := w1.octrees[id];
    CubeEdgeOne();
    var (tree', ops) := GetNodeAndSetVal(tree, g, 1, mat, w.placeOrder, None);
    var st := ApplyOps(w1.store, ops).value;
    assert SetData(w1, id, g, mat, w.placeOrder).value.store == st;
    SetValLastOp(tree, g, 1, mat, w.placeOrder, None);
    ApplyOpsLast(w1.store, ops);
    var o := ops[|ops| - 1];
    var before := ApplyOps(w1.store, ops[..|ops| - 1]).value;
    OpWritesKey(before, o);
    UnitCell(o.key, g);
    AlignedKeyOfCell(g, o.key);
    assert Pow2(0) == 1;
    if Mirror(w.store) {
      assert Mirror(w1.store);
      assert Mirror(before);
    }
  }

  /** A cell of edge 1 holding `g` is `g`'s own cell. */
  lemma UnitCell(b: Box, g: Vec3)
    requires b.w == 1 && b.HasPoint(g)
    ensures b == Box(g.x, g.y, g.z, 1)
  {
  }

  // ---------------------------------------------------------------- stores in step with the trees

  /** Box `b` is the box of a node of `t` whose value is not 255: the
      descent from the root toward `b`'s min corner reaches it. */
  predicate Marks(t: CubeNode, b: Box)
    decreases t
  {
    b.w >= 1 && Within(b, t.box) &&
    (if b == t.box then t.value != Unset
     else |t.children| == 8 && Marks(t.children[ChildIdx(t.box, b.Min())], b))
  }

  /** Within the tree's box, the stored keys are exactly the boxes of its
      nodes whose value is not 255. */
  ghost predicate Tracks(t: CubeNode, keys: set<Box>) {
    forall b | Within(b, t.box) :: b in keys <==> Marks(t, b)
  }

  /** The engine's stores as the cube octrees keep them: the two maps
      mirror each other, every key lies in a loaded octree's box, and in
      each octree's box the keys are exactly the nodes whose value is not
      255. */
  ghost predicate StoreMatchesTrees(w: CubeWorld) {
    WorldWF(w) && Mirror(w.store) &&
    (forall b | b in w.store.native :: GetCubeOctreeID(b.Min()) in w.octrees && Within(b, OctreeBox(GetCubeOctreeID(b.Min())))) &&
    (forall id | id in w.octrees :: Tracks(w.octrees[id], w.store.native.Keys))
  }

  /** Every cell of an octree's box has that octree's ID. */
  lemma OctreeIdOfCell(id: Vec3, q: Vec3)
    requires OctreeBox(id).HasPoint(q)
    ensures GetCubeOctreeID(q) == id
  {
    Constants();
    var S := CubeOctreeSize;
    DivUnique(q.x, S, id.x, q.x - id.x * S);
    DivUnique(q.y, S, id.y, q.y - id.y * S);
    DivUnique(q.z, S, id.z, q.z - id.z * S);
  }

  /** Inside the box of child `i`, a node marks exactly what the child marks. */
  lemma MarksChild(t: CubeNode, i: int, b: Box)
    requires WF(t) && !IsLeaf(t) && 0 <= i < 8 && Within(b, t.children[i].box)
    ensures Marks(t, b) == Marks(t.children[i], b)
  {
    assert t.children[i].box == ChildBound(t.box, i);
    CubeChildFacts(t.box, i);
    CubeEdgeHalf(t.box.w);
    if b.w >= 1 {
      InChildBox(t.box, i, b);
    }
  }

  /** A box inside child `i` of `a` lies strictly inside `a`, and its min
      corner picks child `i`. */
  lemma InChildBox(a: Box, i: int, b: Box)
    requires 0 <= i < 8 && a.w > 0 && a.w % 2 == 0 && Within(ChildBound(a, i), a)
    requires b.w >= 1 && Within(b, ChildBound(a, i))
    ensures Within(b, a) && b != a && ChildIdx(a, b.Min()) == i
  {
    assert ChildBound(a, i).HasPoint(b.Min());
    ChildIdxOfChildPoint(a, i, b.Min());
  }

  /** A run of additions to a mirrored store, at most one of which has a
      material other than 255, and that one under the fresh key `key`,
      succeeds and adds at most `key`. */
  lemma {:induction false} AddOpsApply(s: CubeStore, ops: seq<StoreOp>, key: Box)
    requires Mirror(s)
    requires DivideAdds(ops, key)
    requires (exists k | 0 <= k < |ops| :: ops[k].mat != Unset) ==> key !in s.native
    decreases |ops|
    ensures ApplyOps(s, ops).Success? && Mirror(ApplyOps(s, ops).value)
    ensures s.native.Keys <= ApplyOps(s, ops).value.native.Keys <= s.native.Keys + {key}
    ensures (exists k | 0 <= k < |ops| :: ops[k].mat != Unset) ==> key in ApplyOps(s, ops).value.native
  {
    if |ops| > 0 {
      var s1 := ApplyOp(s, ops[0]).value;
      assert s1.native.Keys == s.native.Keys + (if ops[0].mat != Unset then {key} else {});
      DivideAddsTail(ops, key);
      if exists k | 0 <= k < |ops[1..]| :: ops[1..][k].mat != Unset {
        var k :| 0 <= k < |ops[1..]| && ops[1..][k].mat != Unset;
        assert ops[1..][k] == ops[k + 1];
      }
      AddOpsApply(s1, ops[1..], key);
      if exists k | 0 <= k < |ops| :: ops[k].mat != Unset {
        var k :| 0 <= k < |ops| && ops[k].mat != Unset;
        if k > 0 {
          assert ops[1..][k - 1] == ops[k];
        }
      }
    }
  }

  lemma DivideAddsTail(ops: seq<StoreOp>, key: Box)
    requires |ops| > 0 && DivideAdds(ops, key)
    ensures DivideAdds(ops[1..], key)
    ensures ops[0].mat != Unset ==> forall k | 0 <= k < |ops[1..]| :: ops[1..][k].mat == Unset
  {
    forall k | 0 <= k < |ops[1..]| ensures ops[1..][k] == ops[k + 1] {
    }
    forall k1, k2 | 0 <= k1 < k2 < |ops[1..]| ensures ops[1..][k1].mat == Unset || ops[1..][k2].mat == Unset {
      assert ops[1..][k1] == ops[k1 + 1] && ops[1..][k2] == ops[k2 + 1];
    }
  }

  /** Running two lists of operations is running the first, then the second. */
  lemma {:induction false} ApplyOpsAppend(s: CubeStore, a: seq<StoreOp>, b: seq<StoreOp>)
    decreases |a|
    ensures ApplyOps(s, a + b) == match ApplyOps(s, a) case Failure(e) => Failure(e) case Success(s1) => ApplyOps(s1, b)
  {
    if |a| > 0 {
      assert (a + b)[0] == a[0] && (a + b)[1..] == a[1..] + b;
      match ApplyOp(s, a[0])
      case Failure(_) =>
      case Success(s1) => ApplyOpsAppend(s1, a[1..], b);
    } else {
      assert a + b == b;
    }
  }

  /** The registration of a node on the descent: an add when its value was
      255, an update otherwise.  Either way its box is a key afterwards. */
  lemma HereOpApply(s: CubeStore, n: CubeNode, mat: Mat, order: nat, parent: Option<ParentRef>) returns (s1: CubeStore)
    requires Mirror(s) && mat != Unset && Tracks(n, s.native.Keys) && n.box.w >= 1
    requires parent.Some? ==> parent.value.box != n.box
    ensures ApplyOps(s, [if n.value == Unset then AddOp(n.box, mat, IsLeaf(n), order, parent) else UpdateOp(n.box, mat, order)]) == Success(s1)
    ensures Mirror(s1) && s1.native.Keys == s.native.Keys + {n.box}
  {
    assert Within(n.box, n.box);
    var op := if n.value == Unset then AddOp(n.box, mat, IsLeaf(n), order, parent) else UpdateOp(n.box, mat, order);
    s1 := ApplyOp(s, op).value;
    assert ApplyOps(s, [op]) == ApplyOps(s1, [op][1..]);
  }

  /** The additions `DivideCube` emits: each under a child box and naming
      the node as parent, and only the child on the path with a material
      other than 255. */
  predicate DivideAdds(ops: seq<StoreOp>, key: Box) {
    (forall k | 0 <= k < |ops| :: ops[k].AddOp? && ops[k].parent.Some? && ops[k].parent.value.box != ops[k].key) &&
    (forall k | 0 <= k < |ops| && ops[k].mat != Unset :: ops[k].key == key) &&
    (forall k1, k2 | 0 <= k1 < k2 < |ops| :: ops[k1].mat == Unset || ops[k2].mat == Unset)
  }

  lemma DivideOpsShape(n: CubeNode, i: int, mat: Mat)
    requires WF(n) && IsLeaf(n) && n.box.w > 1 && 0 <= i < 8 && mat != Unset
    ensures DivideAdds(DivideCube(n, i, mat).1, ChildBound(n.box, i))
    ensures DivideCube(n, i, mat).1[i].mat != Unset
  {
    var ops := DivideCube(n, i, mat).1;
    forall k | 0 <= k < |ops| ensures ops[k].AddOp? && ops[k].parent.Some? && ops[k].parent.value.box != ops[k].key {
      assert ops[k].key.w == n.box.w / 2;
    }
  }

  /** The additions of `DivideCube`: only the child on the path is
      registered. */
  lemma DivideOpsApply(s: CubeStore, ops: seq<StoreOp>, key: Box, i: int) returns (s1: CubeStore)
    requires DivideAdds(ops, key) && 0 <= i < |ops| && ops[i].mat != Unset
    requires Mirror(s) && key !in s.native
    ensures ApplyOps(s, ops) == Success(s1)
    ensures Mirror(s1) && s1.native.Keys == s.native.Keys + {key}
  {
    AddOpsApply(s, ops, key);
    s1 := ApplyOps(s, ops).value;
    assert key in s1.native;
  }

  /** One level down the descent, before the child is descended: the child
      holding `pos` tracks the store after this level's writes. */
  lemma StepTracksChild(s: CubeStore, n: CubeNode, pos: Vec3, findSize: int, mat: Mat, order: nat, parent: Option<ParentRef>)
    returns (c: CubeNode, pre: seq<StoreOp>, s2: CubeStore)
    requires WF(n) && CubeEdge(findSize) && findSize < n.box.w && n.box.HasPoint(pos)
    requires Mirror(s) && Tracks(n, s.native.Keys) && mat != Unset
    requires parent.Some? ==> !Within(parent.value.box, n.box)
    ensures var i := ChildIdx(n.box, pos);
      var d := if IsLeaf(n) then DivideCube(n.(value := mat, order := order), i, mat) else (n.(value := mat, order := order), []);
      c == d.0.children[i] && pre == [if n.value == Unset then AddOp(n.box, mat, IsLeaf(n), order, parent) else UpdateOp(n.box, mat, order)] + d.1
    ensures WF(c) && c.box == ChildBound(n.box, ChildIdx(n.box, pos)) && c.box.HasPoint(pos) && findSize <= c.box.w
    ensures ApplyOps(s, pre) == Success(s2) && Mirror(s2) && Tracks(c, s2.native.Keys)
    ensures s2.native.Keys == s.native.Keys + {n.box} + (if IsLeaf(n) then {c.box} else {})
  {
    CubeEdgeBelowHalf(findSize, n.box.w);
    ChildIdxHasPoint(n.box, pos);
    var i := ChildIdx(n.box, pos);
    CubeChildFacts(n.box, i);
    var here := if n.value == Unset then AddOp(n.box, mat, IsLeaf(n), order, parent) else UpdateOp(n.box, mat, order);
    var s1 := HereOpApply(s, n, mat, order, parent);
    if IsLeaf(n) {
      var d := DivideCube(n.(value := mat, order := order), i, mat);
      c := d.0.children[i];
      DivideOpsShape(n.(value := mat, order := order), i, mat);
      s2 := StepLeaf(s, s1, n, i, here, c, d.1);
      pre := [here] + d.1;
    } else {
      c := n.children[i];
      pre := [here] + [];
      s2 := s1;
      ApplyOpsAppend(s, [here], []);
      assert ApplyOps(s1, []) == Success(s1);
      InnerChildTracks(n, i, s.native.Keys, s2.native.Keys);
    }
  }

  /** `StepTracksChild` for a leaf: it is divided, and the children's
      additions register only the child `c` on the path. */
  lemma StepLeaf(s: CubeStore, s1: CubeStore, n: CubeNode, i: int, here: StoreOp, c: CubeNode, ops: seq<StoreOp>)
    returns (s2: CubeStore)
    requires IsLeaf(n) && Tracks(n, s.native.Keys) && 0 <= i < |ops|
    requires IsLeaf(c) && c.value != Unset && c.box.w >= 1 && Within(c.box, n.box) && c.box != n.box
    requires DivideAdds(ops, c.box) && ops[i].mat != Unset
    requires ApplyOps(s, [here]) == Success(s1) && Mirror(s1) && s1.native.Keys == s.native.Keys + {n.box}
    ensures ApplyOps(s, [here] + ops) == Success(s2) && Mirror(s2) && Tracks(c, s2.native.Keys)
    ensures s2.native.Keys == s.native.Keys + {n.box} + {c.box}
  {
    LeafChildTracks(n, c, s.native.Keys, {n.box});
    s2 := DivideOpsApply(s1, ops, c.box, i);
    ApplyOpsAppend(s, [here], ops);
    LeafChildTracks(n, c, s.native.Keys, s2.native.Keys);
  }

  /** The fresh child on the path of a divided leaf tracks the keys once
      the leaf and that child are registered. */
  lemma LeafChildTracks(n: CubeNode, c: CubeNode, k0: set<Box>, k2: set<Box>)
    requires IsLeaf(n) && Tracks(n, k0) && IsLeaf(c) && c.value != Unset && c.box.w >= 1
    requires Within(c.box, n.box) && c.box != n.box
    ensures c.box !in k0
    ensures k2 == k0 + {n.box, c.box} ==> Tracks(c, k2)
  {
    assert !Marks(n, c.box);
    if k2 == k0 + {n.box, c.box} {
      forall b | Within(b, c.box) ensures b in k2 <==> Marks(c, b) {
        assert Within(b, n.box) && b != n.box;
        assert !Marks(n, b);
      }
    }
  }

  /** The child on the path of a divided node tracks the keys once the
      node is registered. */
  lemma InnerChildTracks(n: CubeNode, i: int, k0: set<Box>, k2: set<Box>)
    requires WF(n) && !IsLeaf(n) && 0 <= i < 8 && Tracks(n, k0) && k2 == k0 + {n.box}
    ensures Tracks(n.children[i], k2)
  {
    CubeChildFacts(n.box, i);
    forall b | Within(b, n.children[i].box) ensures b in k2 <==> Marks(n.children[i], b) {
      MarksChild(n, i, b);
    }
  }

  /** Back up one level: the node tracks the store once the child on the
      path does, given that the child's descent only changed keys inside
      the child's box. */
  lemma StepTracksParent(n: CubeNode, pos: Vec3, mat: Mat, order: nat, c: CubeNode, sub: CubeNode, k0: set<Box>, k2: set<Box>, k3: set<Box>)
    requires WF(n) && n.box.w > 1 && n.box.HasPoint(pos) && mat != Unset && Tracks(n, k0)
    requires var i := ChildIdx(n.box, pos);
      var d := if IsLeaf(n) then DivideCube(n.(value := mat, order := order), i, mat) else (n.(value := mat, order := order), []);
      c == d.0.children[i]
    requires WF(c) && c.box == ChildBound(n.box, ChildIdx(n.box, pos))
    requires k2 == k0 + {n.box} + (if IsLeaf(n) then {c.box} else {})
    requires WF(sub) && sub.box == c.box && Tracks(sub, k3)
    requires forall b | !Within(b, c.box) :: b in k3 <==> b in k2
    ensures var i := ChildIdx(n.box, pos);
      var d := if IsLeaf(n) then DivideCube(n.(value := mat, order := order), i, mat) else (n.(value := mat, order := order), []);
      Tracks(SetCubeChild(d.0, i, sub), k3)
    ensures forall b | !Within(b, n.box) :: b in k3 <==> b in k0
  {
    var i := ChildIdx(n.box, pos);
    var n1 := n.(value := mat, order := order);
    var d := if IsLeaf(n) then DivideCube(n1, i, mat) else (n1, []);
    ParentTracks(n, i, d.0, sub, k0, k2, k3);
  }

  /** `StepTracksParent` for any divided node `d0` of `n`'s box whose other
      children are either `n`'s own or fresh leaves of value 255. */
  lemma ParentTracks(n: CubeNode, i: int, d0: CubeNode, sub: CubeNode, k0: set<Box>, k2: set<Box>, k3: set<Box>)
    requires WF(n) && n.box.w > 1 && 0 <= i < 8 && Tracks(n, k0)
    requires WF(d0) && !IsLeaf(d0) && d0.box == n.box && d0.value != Unset
    requires IsLeaf(n) ==> forall j | 0 <= j < 8 && j != i :: IsLeaf(d0.children[j]) && d0.children[j].value == Unset
    requires !IsLeaf(n) ==> d0.children == n.children
    requires k2 == k0 + {n.box} + (if IsLeaf(n) then {d0.children[i].box} else {})
    requires WF(sub) && sub.box == d0.children[i].box && Tracks(sub, k3)
    requires forall b | !Within(b, sub.box) :: b in k3 <==> b in k2
    ensures Tracks(SetCubeChild(d0, i, sub), k3)
    ensures forall b | !Within(b, n.box) :: b in k3 <==> b in k0
  {
    var t := SetCubeChild(d0, i, sub);
    forall b | Within(b, t.box) ensures b in k3 <==> Marks(t, b) {
      ParentMarksAt(n, i, d0, t, b, k0, k2, k3);
    }
  }

  /** `ParentTracks` at one box `b`. */
  lemma ParentMarksAt(n: CubeNode, i: int, d0: CubeNode, t: CubeNode, b: Box, k0: set<Box>, k2: set<Box>, k3: set<Box>)
    requires WF(n) && n.box.w > 1 && 0 <= i < 8 && |d0.children| == 8
    requires WF(t) && !IsLeaf(t) && t.box == n.box && t.value != Unset && t.children[i].box == d0.children[i].box
    requires forall j | 0 <= j < 8 && j != i :: t.children[j] == d0.children[j]
    requires IsLeaf(n) ==> forall j | 0 <= j < 8 && j != i :: IsLeaf(d0.children[j]) && d0.children[j].value == Unset
    requires !IsLeaf(n) ==> d0.children == n.children
    requires k2 == k0 + {n.box} + (if IsLeaf(n) then {t.children[i].box} else {})
    requires Within(b, n.box) && (b in k0 <==> Marks(n, b))
    requires Within(b, t.children[i].box) ==> (b in k3 <==> Marks(t.children[i], b))
    requires !Within(b, t.children[i].box) ==> (b in k3 <==> b in k2)
    ensures b in k3 <==> Marks(t, b)
  {
    CubeChildFacts(n.box, i);
    CubeEdgeHalf(n.box.w);
    if b == n.box {
      assert !Within(n.box, t.children[i].box);
    } else if Within(b, t.children[i].box) {
      MarksChild(t, i, b);
    } else if b.w >= 1 {
      MarksOffPath(n, i, d0, t, b);
    }
  }

  /** Off the path, the divided node marks what `n` marks. */
  lemma MarksOffPath(n: CubeNode, i: int, d0: CubeNode, t: CubeNode, b: Box)
    requires 0 <= i < 8 && |t.children| == 8 && |d0.children| == 8 && t.box == n.box
    requires b.w >= 1 && Within(b, n.box) && b != n.box && !Within(b, t.children[i].box)
    requires forall j | 0 <= j < 8 && j != i :: t.children[j] == d0.children[j]
    requires IsLeaf(n) ==> forall j | 0 <= j < 8 && j != i :: IsLeaf(d0.children[j]) && d0.children[j].value == Unset
    requires !IsLeaf(n) ==> d0.children == n.children && n.children[i].box == t.children[i].box
    ensures Marks(t, b) == Marks(n, b)
  {
    var j := ChildIdx(n.box, b.Min());
    assert Marks(t, b) == Marks(t.children[j], b);
    if j != i {
      assert t.children[j] == d0.children[j];
    }
    if !IsLeaf(n) {
      assert Marks(n, b) == Marks(n.children[j], b);
    }
  }

  /** `GetNodeAndSetVal` on a tree that tracks a mirrored store: every
      write succeeds, the stores still mirror each other, the new tree
      tracks them, and no key outside the tree's box changes. */
  lemma {:induction false} SetValTracks(s: CubeStore, n: CubeNode, pos: Vec3, findSize: int, mat: Mat, order: nat, parent: Option<ParentRef>)
    requires WF(n) && CubeEdge(findSize) && findSize <= n.box.w && n.box.HasPoint(pos)
    requires Mirror(s) && Tracks(n, s.native.Keys) && mat != Unset
    requires parent.Some? ==> !Within(parent.value.box, n.box)
    decreases n.box.w
    ensures var r := GetNodeAndSetVal(n, pos, findSize, mat, order, parent);
      ApplyOps(s, r.1).Success? && Mirror(ApplyOps(s, r.1).value) && Tracks(r.0, ApplyOps(s, r.1).value.native.Keys)
    ensures var r := GetNodeAndSetVal(n, pos, findSize, mat, order, parent);
      ApplyOps(s, r.1).Success? ==>
      forall b | !Within(b, n.box) :: b in ApplyOps(s, r.1).value.native.Keys <==> b in s.native.Keys
  {
    var r := GetNodeAndSetVal(n, pos, findSize, mat, order, parent);
    if findSize == n.box.w {
      var s1 := HereOpApply(s, n, mat, order, parent);
      forall b | Within(b, r.0.box) ensures b in s1.native.Keys <==> Marks(r.0, b) {
      }
    } else {
      var c, pre, s2 := StepTracksChild(s, n, pos, findSize, mat, order, parent);
      var p2 := Some(ParentRef(n.box, mat));
      SetValTracks(s2, c, pos, findSize, mat, order, p2);
      var sub := GetNodeAndSetVal(c, pos, findSize, mat, order, p2);
      assert r.1 == pre + sub.1;
      ApplyOpsAppend(s, pre, sub.1);
      var s3 := ApplyOps(s2, sub.1).value;
      StepTracksParent(n, pos, mat, order, c, sub.0, s.native.Keys, s2.native.Keys, s3.native.Keys);
    }
  }

  /** No registered node lies inside the box of an octree not yet created. */
  lemma NoKeysInNewRoot(w: CubeWorld, id: Vec3)
    requires StoreMatchesTrees(w) && id !in w.octrees
    ensures forall b | b in w.store.native :: !Within(b, OctreeBox(id))
  {
    forall b | b in w.store.native ensures !Within(b, OctreeBox(id)) {
      var id3 := GetCubeOctreeID(b.Min());
      assert Marks(w.octrees[id3], b);
      if Within(b, OctreeBox(id)) {
        OctreeIdOfCell(id, b.Min());
        assert false;
      }
    }
  }

  /** Boxes of two different octrees share no node. */
  lemma OctreeBoxesApart(id: Vec3, id2: Vec3, b: Box)
    requires id != id2 && b.w >= 1 && Within(b, OctreeBox(id))
    ensures !Within(b, OctreeBox(id2))
  {
    OctreeIdOfCell(id, b.Min());
    if Within(b, OctreeBox(id2)) {
      OctreeIdOfCell(id2, b.Min());
    }
  }

  /** `GetOrCreateCubeOctree` with a material other than 255 keeps the
      stores in step with the trees, and succeeds. */
  lemma GetOrCreateKeepsStore(w: CubeWorld, id: Vec3, mat: Mat)
    requires StoreMatchesTrees(w) && mat != Unset
    ensures GetOrCreateCubeOctree(w, id, mat).Success?
    ensures StoreMatchesTrees(GetOrCreateCubeOctree(w, id, mat).value)
  {
    if id !in w.octrees {
      var root := OctreeBox(id);
      NoKeysInNewRoot(w, id);
      assert Within(root, root);
      var w1 := GetOrCreateCubeOctree(w, id, mat).value;
      NewRootKeepsStore(w, id, mat, w1);
    }
  }

  /** The world once octree `id` is created with a leaf root of `mat`. */
  lemma NewRootKeepsStore(w: CubeWorld, id: Vec3, mat: Mat, w1: CubeWorld)
    requires StoreMatchesTrees(w) && mat != Unset && id !in w.octrees
    requires forall b | b in w.store.native :: !Within(b, OctreeBox(id))
    requires w1.octrees == w.octrees[id := CubeNode(OctreeBox(id), mat, 0, [])] && WorldWF(w1) && Mirror(w1.store)
    requires w1.store.native.Keys == w.store.native.Keys + {OctreeBox(id)}
    ensures StoreMatchesTrees(w1)
  {
    var root := OctreeBox(id);
    forall b | b in w1.store.native
      ensures GetCubeOctreeID(b.Min()) in w1.octrees && Within(b, OctreeBox(GetCubeOctreeID(b.Min())))
    {
      if b == root {
        assert root.HasPoint(root.Min());
        OctreeIdOfCell(id, root.Min());
      }
    }
    forall id2 | id2 in w1.octrees ensures Tracks(w1.octrees[id2], w1.store.native.Keys) {
      var t := w1.octrees[id2];
      forall b | Within(b, t.box) ensures b in w1.store.native.Keys <==> Marks(t, b) {
        if id2 != id && b == root {
          OctreeBoxesApart(id, id2, b);
        }
      }
    }
  }

  /** `AddCube` with a material other than 255 on an initialised grid whose
      stores are in step with its trees succeeds and keeps them in step. */
  lemma AddCubeOk(w: CubeWorld, p: CubeParam, posInWorld: Vec3, mat: Mat)
    requires StoreMatchesTrees(w) && p.initialized && mat != Unset
    ensures AddCube(w, p, posInWorld, mat).Success?
    ensures StoreMatchesTrees(AddCube(w, p, posInWorld, mat).value)
  {
    var g := GetCubePos(p, posInWorld).value;
    var id := GetCubeOctreeID(g);
    GetOrCreateKeepsStore(w, id, mat);
    var w1 := GetOrCreateCubeOctree(w, id, mat).value;
    CellInOctreeBox(g);
    SetDataOk(w1, id, g, mat, w.placeOrder);
    var w2 := SetData(w1, id, g, mat, w.placeOrder).value;
    AddCubeUnfold(w, p, posInWorld, mat, g, id, w1, w2);
  }

  /** `AddCube` spelled out once its three fallible steps succeed. */
  lemma AddCubeUnfold(w: CubeWorld, p: CubeParam, posInWorld: Vec3, mat: Mat, g: Vec3, id: Vec3, w1: CubeWorld, w2: CubeWorld)
    requires WorldWF(w) && GetCubePos(p, posInWorld) == Success(g) && id == GetCubeOctreeID(g)
    requires GetOrCreateCubeOctree(w, id, mat) == Success(w1) && id in w1.octrees && OctreeBox(id).HasPoint(g)
    requires SetData(w1, id, g, mat, w.placeOrder) == Success(w2)
    ensures AddCube(w, p, posInWorld, mat) == Success(w2.(placeOrder := w.placeOrder + 1))
  {
  }

  /** A cell lies in the box of the octree whose ID it has. */
  lemma CellInOctreeBox(g: Vec3)
    ensures OctreeBox(GetCubeOctreeID(g)).HasPoint(g)
  {
  }

  /** `SetData` with a material other than 255 on stores in step with the
      trees succeeds and keeps them in step. */
  lemma SetDataOk(w: CubeWorld, id: Vec3, g: Vec3, mat: Mat, order: nat)
    requires StoreMatchesTrees(w) && id in w.octrees && OctreeBox(id).HasPoint(g) && mat != Unset
    ensures SetData(w, id, g, mat, order).Success?
    ensures StoreMatchesTrees(SetData(w, id, g, mat, order).value)
  {
    var tree := w.octrees[id];
    CubeEdgeOne();
    SetValTracks(w.store, tree, g, 1, mat, order, None);
    var r := GetNodeAndSetVal(tree, g, 1, mat, order, None);
    var st := ApplyOps(w.store, r.1).value;
    SetValKeepsKeys(w, id, r.0, st);
    assert SetData(w, id, g, mat, order) == Success(w.(octrees := w.octrees[id := r.0], store := st));
  }

  /** The world after a descent in octree `id` whose writes only changed
      keys inside that octree's box, and whose new tree tracks them. */
  lemma SetValKeepsKeys(w1: CubeWorld, id: Vec3, tree': CubeNode, st: CubeStore)
    requires StoreMatchesTrees(w1) && id in w1.octrees
    requires WF(tree') && tree'.box == OctreeBox(id) && Mirror(st) && Tracks(tree', st.native.Keys)
    requires forall b | !Within(b, OctreeBox(id)) :: b in st.native.Keys <==> b in w1.store.native.Keys
    ensures StoreMatchesTrees(w1.(octrees := w1.octrees[id := tree'], store := st))
  {
    var w2 := w1.(octrees := w1.octrees[id := tree'], store := st);
    assert WorldWF(w2) by {
      OthersTrack(w1.octrees, id, tree', w1.store.native.Keys, st.native.Keys);
    }
    assert forall b | b in w2.store.native :: GetCubeOctreeID(b.Min()) in w2.octrees && Within(b, OctreeBox(GetCubeOctreeID(b.Min()))) by {
      KeysHomed(w1.octrees, w1.store.native.Keys, id, tree', st.native.Keys);
    }
    assert forall id2 | id2 in w2.octrees :: Tracks(w2.octrees[id2], w2.store.native.Keys) by {
      OthersTrack(w1.octrees, id, tree', w1.store.native.Keys, st.native.Keys);
    }
    MatchesFromParts(w2);
  }

  /** `StoreMatchesTrees` assembled from its parts. */
  lemma MatchesFromParts(w: CubeWorld)
    requires WorldWF(w) && Mirror(w.store)
    requires forall b | b in w.store.native :: GetCubeOctreeID(b.Min()) in w.octrees && Within(b, OctreeBox(GetCubeOctreeID(b.Min())))
    requires forall id | id in w.octrees :: Tracks(w.octrees[id], w.store.native.Keys)
    ensures StoreMatchesTrees(w)
  {
  }

  /** Every key still lies in the box of a loaded octree of its cells' ID. */
  lemma KeysHomed(octs: map<Vec3, CubeNode>, k1: set<Box>, id: Vec3, tree': CubeNode, k2: set<Box>)
    requires id in octs && tree'.box == OctreeBox(id) && Tracks(tree', k2)
    requires forall b | b in k1 :: GetCubeOctreeID(b.Min()) in octs && Within(b, OctreeBox(GetCubeOctreeID(b.Min())))
    requires forall b | !Within(b, OctreeBox(id)) :: b in k2 <==> b in k1
    ensures forall b | b in k2 :: GetCubeOctreeID(b.Min()) in octs[id := tree'] && Within(b, OctreeBox(GetCubeOctreeID(b.Min())))
  {
    forall b | b in k2 ensures GetCubeOctreeID(b.Min()) in octs[id := tree'] && Within(b, OctreeBox(GetCubeOctreeID(b.Min()))) {
      if Within(b, OctreeBox(id)) {
        MarkedCellHome(id, tree', b);
      } else {
        assert b in k1;
      }
    }
  }

  /** The other octrees still track the keys. */
  lemma OthersTrack(octs: map<Vec3, CubeNode>, id: Vec3, tree': CubeNode, k1: set<Box>, k2: set<Box>)
    requires WF(tree') && tree'.box == OctreeBox(id) && Tracks(tree', k2)
    requires forall id2 | id2 in octs :: WF(octs[id2]) && octs[id2].box == OctreeBox(id2) && Tracks(octs[id2], k1)
    requires forall b | !Within(b, OctreeBox(id)) :: b in k2 <==> b in k1
    ensures forall id2 | id2 in octs[id := tree'] ::
      WF(octs[id := tree'][id2]) && octs[id := tree'][id2].box == OctreeBox(id2) && Tracks(octs[id := tree'][id2], k2)
  {
    forall id2 | id2 in octs[id := tree']
      ensures WF(octs[id := tree'][id2]) && octs[id := tree'][id2].box == OctreeBox(id2) && Tracks(octs[id := tree'][id2], k2)
    {
      if id2 != id {
        var t := octs[id2];
        forall b | Within(b, t.box) ensures b in k2 <==> Marks(t, b) {
          OtherTreeAt(id, id2, t, tree', b, k1, k2);
        }
      }
    }
  }

  /** A node an octree marks lies in the cells of that octree's ID. */
  lemma MarkedCellHome(id: Vec3, t: CubeNode, b: Box)
    requires t.box == OctreeBox(id) && Marks(t, b)
    ensures GetCubeOctreeID(b.Min()) == id
  {
    OctreeIdOfCell(id, b.Min());
  }

  /** A box of another octree: the keys there did not change, and neither
      did what that octree marks. */
  lemma OtherTreeAt(id: Vec3, id2: Vec3, t: CubeNode, tree': CubeNode, b: Box, k1: set<Box>, k2: set<Box>)
    requires id != id2 && t.box == OctreeBox(id2) && tree'.box == OctreeBox(id) && Within(b, t.box)
    requires b in k1 <==> Marks(t, b)
    requires Within(b, OctreeBox(id)) ==> (b in k2 <==> Marks(tree', b))
    requires !Within(b, OctreeBox(id)) ==> (b in k2 <==> b in k1)
    ensures b in k2 <==> Marks(t, b)
  {
    if Within(b, OctreeBox(id)) && b.w >= 1 {
      OctreeBoxesApart(id, id2, b);
    }
  }

  /** `WorldData.AddSphere`: appends a sphere stamped with the current
      `PlaceOrder` and advances it. */
  function AddSphere(w: CubeWorld, center: Vec3, radius: int, mat: Mat): (r: CubeWorld)
    ensures r.spheres == w.spheres + [SphereSDF(center, radius, w.placeOrder, mat)]
    ensures r.placeOrder == w.placeOrder + 1 && r.octrees == w.octrees && r.store == w.store
  {
    w.(spheres := w.spheres + [SphereSDF(center, radius, w.placeOrder, mat)], placeOrder := w.placeOrder + 1)
  }

  /** A user edit: a block or a sphere. */
  datatype Edit = BlockEdit(pos: Vec3, mat: Mat) | SphereEdit(center: Vec3, radius: int, mat: Mat)

  /** Applies edits in order; failed block edits change nothing.  The second
      component lists the order each successful edit was stamped with. */
  function ApplyEdits(w: CubeWorld, p: CubeParam, edits: seq<Edit>): (r: (CubeWorld, seq<nat>))
    requires WorldWF(w)
    decreases |edits|
    ensures WorldWF(r.0)
  {
    if |edits| == 0 then (w, [])
    else
      var (w1, stamped) :=
        match edits[0]
        case SphereEdit(c, rad, m) => (AddSphere(w, c, rad, m), [w.placeOrder])
        case BlockEdit(pos, m) =>
          match AddCube(w, p, pos, m)
          case Success(w') => (w', [w.placeOrder])
          case Failure(_) => (w, []);
      var rest := ApplyEdits(w1, p, edits[1..]);
      (rest.0, stamped + rest.1)
  }

  /** Edit orders are strictly increasing across cubes and spheres, start at
      the counter's value and stay below its final value. */
  lemma {:induction false} EditOrdersIncrease(w: CubeWorld, p: CubeParam, edits: seq<Edit>)
    requires WorldWF(w)
    decreases |edits|
    ensures var (w', orders) := ApplyEdits(w, p, edits);
      (forall i, j | 0 <= i < j < |orders| :: orders[i] < orders[j]) &&
      (forall i | 0 <= i < |orders| :: w.placeOrder <= orders[i] < w'.placeOrder) &&
      w.placeOrder + |orders| == w'.placeOrder
  {
    if |edits| > 0 {
      var w1 := match edits[0]
        case SphereEdit(c, rad, m) => AddSphere(w, c, rad, m)
        case BlockEdit(pos, m) => (match AddCube(w, p, pos, m) case Success(w') => w' case Failure(_) => w);
      EditOrdersIncrease(w1, p, edits[1..]);
    }
  }

  /** On an initialised grid whose stores are in step with its trees, every
      block edit with a material other than 255 succeeds: each edit is
      stamped, and the stores stay in step. */
  lemma {:induction false} ApplyEditsAllStamped(w: CubeWorld, p: CubeParam, edits: seq<Edit>)
    requires StoreMatchesTrees(w) && p.initialized
    requires forall k | 0 <= k < |edits| && edits[k].BlockEdit? :: edits[k].mat != Unset
    decreases |edits|
    ensures |ApplyEdits(w, p, edits).1| == |edits|
    ensures ApplyEdits(w, p, edits).0.placeOrder == w.placeOrder + |edits|
    ensures StoreMatchesTrees(ApplyEdits(w, p, edits).0)
  {
    if |edits| > 0 {
      var w1 := match edits[0]
        case SphereEdit(c, rad, m) => AddSphere(w, c, rad, m)
        case BlockEdit(pos, m) => (match AddCube(w, p, pos, m) case Success(w') => w' case Failure(_) => w);
      match edits[0] {
        case SphereEdit(c, rad, m) =>
        case BlockEdit(pos, m) => AddCubeOk(w, p, pos, m);
      }
      assert StoreMatchesTrees(w1) && w1.placeOrder == w.placeOrder + 1;
      ApplyEditsAllStamped(w1, p, edits[1..]);
    }
  }

  // ---------------------------------------------------------------- overlapping chunks

  /** A chunk node found at a corner: its bound and `chunkLOD`. */
  datatype ChunkRef = ChunkRef(bound: Box, lod: int)

  /** The corner `i` of a cube node, in the order (0,0,0), (0,0,1), ... */
  function Corner(base: Vec3, size: int, i: int): Vec3
    requires 0 <= i < 8
  {
    var o := Octant(i);
    Vec3(base.x + Step(o.x, size), base.y + Step(o.y, size), base.z + Step(o.z, size))
  }

  /** The chunk nodes found at corners `0..k`, in corner order. */
  function Found(base: Vec3, size: int, lookup: Vec3 -> Option<ChunkRef>, k: int): (f: seq<ChunkRef>)
    requires 0 <= k <= 8
    ensures |f| <= k
  {
    if k == 0 then []
    else
      var prev := Found(base, size, lookup, k - 1);
      match lookup(Corner(base, size, k - 1))
      case None => prev
      case Some(c) => prev + [c]
  }

  /** A chunk node is in `Found` exactly when some corner's lookup returns it. */
  lemma FoundComplete(base: Vec3, size: int, lookup: Vec3 -> Option<ChunkRef>, k: int, c: ChunkRef)
    requires 0 <= k <= 8
    ensures c in Found(base, size, lookup, k) <==> exists i | 0 <= i < k :: lookup(Corner(base, size, i)) == Some(c)
  {
    if c in Found(base, size, lookup, k) {
      FoundSound(base, size, lookup, k, c);
    }
    if exists i | 0 <= i < k :: lookup(Corner(base, size, i)) == Some(c) {
      var i :| 0 <= i < k && lookup(Corner(base, size, i)) == Some(c);
      FoundReach(base, size, lookup, k, i, c);
    }
  }

  lemma {:induction false} FoundSound(base: Vec3, size: int, lookup: Vec3 -> Option<ChunkRef>, k: int, c: ChunkRef)
    requires 0 < k <= 8 && c in Found(base, size, lookup, k)
    decreases k
    ensures exists i | 0 <= i < k :: lookup(Corner(base, size, i)) == Some(c)
  {
    FoundStep(base, size, lookup, k - 1);
    if c in Found(base, size, lookup, k - 1) {
      assert k > 1;
      FoundSound(base, size, lookup, k - 1, c);
      var i :| 0 <= i < k - 1 && lookup(Corner(base, size, i)) == Some(c);
      assert 0 <= i < k;
    } else {
      assert lookup(Corner(base, size, k - 1)) == Some(c);
    }
  }

  lemma {:induction false} FoundReach(base: Vec3, size: int, lookup: Vec3 -> Option<ChunkRef>, k: int, i: int, c: ChunkRef)
    requires 0 <= i < k <= 8 && lookup(Corner(base, size, i)) == Some(c)
    decreases k
    ensures c in Found(base, size, lookup, k)
  {
    FoundStep(base, size, lookup, k - 1);
    if i < k - 1 {
      FoundReach(base, size, lookup, k - 1, i, c);
    }
  }

  /** The bounds of a list of found chunk nodes. */
  function Bounds(f: seq<ChunkRef>): set<Box> {
    set j | 0 <= j < |f| :: f[j].bound
  }

  /** The largest LOD of a non-empty list is one of its LODs and bounds all. */
  predicate IsMaxLod(f: seq<ChunkRef>, m: int) {
    (forall j | 0 <= j < |f| :: f[j].lod <= m) && (m == -1 || exists j | 0 <= j < |f| :: f[j].lod == m)
  }

  /** Some two found LODs differ. */
  predicate LodsDiffer(f: seq<ChunkRef>) {
    exists j | 0 <= j < |f| :: f[j].lod != f[0].lod
  }

  /** The corner scan's running state: largest LOD, first LOD, whether a
      different LOD was seen, chunk nodes seen. */
  datatype Scan = Scan(maxLOD: int, referenceLOD: int, lodDiff: bool, chunks: set<Box>)

  const EmptyScan := Scan(-1, -1, false, {})

  /** One found chunk node folded into the scan. */
  function Absorb(s: Scan, c: ChunkRef): Scan {
    Scan(if c.lod > s.maxLOD then c.lod else s.maxLOD,
         if s.referenceLOD == -1 then c.lod else s.referenceLOD,
         s.lodDiff || (s.referenceLOD != -1 && s.referenceLOD != c.lod),
         s.chunks + {c.bound})
  }

  /** The scan state describes the list of chunk nodes found so far; the
      LOD facts rely on LODs being non-negative, as chunk LODs are. */
  predicate Summarizes(f: seq<ChunkRef>, s: Scan) {
    IsMaxLod(f, s.maxLOD) && s.chunks == Bounds(f) &&
    ((forall j | 0 <= j < |f| :: f[j].lod >= 0) ==>
      ((s.referenceLOD == -1 <==> |f| == 0) && (|f| > 0 ==> s.referenceLOD == f[0].lod) &&
       (s.maxLOD == -1 <==> |f| == 0) && (s.lodDiff <==> LodsDiffer(f))))
  }

  lemma AbsorbSummarizes(f: seq<ChunkRef>, s: Scan, c: ChunkRef)
    requires Summarizes(f, s)
    ensures Summarizes(f + [c], Absorb(s, c))
  {
    var f' := f + [c];
    var s' := Absorb(s, c);
    assert f'[|f|] == c;
    assert forall j | 0 <= j < |f| :: f'[j] == f[j];
    assert Bounds(f') == Bounds(f) + {c.bound};
    if s'.maxLOD != -1 {
      if c.lod > s.maxLOD {
        assert f'[|f|].lod == s'.maxLOD;
      } else {
        var j :| 0 <= j < |f| && f[j].lod == s.maxLOD;
        assert f'[j].lod == s'.maxLOD;
      }
    }
    if forall j | 0 <= j < |f'| :: f'[j].lod >= 0 {
      if |f| == 0 {
        assert !LodsDiffer(f');
      } else if s.lodDiff {
        var j :| 0 <= j < |f| && f[j].lod != f[0].lod;
        assert f'[j].lod != f'[0].lod;
      } else if c.lod != s.referenceLOD {
        assert f'[|f|].lod != f'[0].lod;
      } else {
        assert !LodsDiffer(f');
      }
    }
  }

  /** `Found` grows by the lookup at the next corner. */
  lemma FoundStep(base: Vec3, size: int, lookup: Vec3 -> Option<ChunkRef>, k: int)
    requires 0 <= k < 8
    ensures var c := lookup(Corner(base, size, k));
      Found(base, size, lookup, k + 1) == if c.Some? then Found(base, size, lookup, k) + [c.value] else Found(base, size, lookup, k)
  {
  }

  /** `FindOverlappingMaxChunk`: looks up the chunk node at each of the eight
      corners (`lookup` stands for `FindChunkNode(GetWorldPos(corner))`) and
      returns the largest LOD found or -1, whether two found LODs differ, and
      the set of chunk nodes found. */
  method FindOverlappingMaxChunk(base: Vec3, size: int, lookup: Vec3 -> Option<ChunkRef>)
    returns (maxLOD: int, lodDiff: bool, chunks: set<Box>)
    ensures IsMaxLod(Found(base, size, lookup, 8), maxLOD)
    ensures var f := Found(base, size, lookup, 8);
      (forall j | 0 <= j < |f| :: f[j].lod >= 0) ==> ((maxLOD == -1 <==> |f| == 0) && (lodDiff <==> LodsDiffer(f)))
    ensures chunks == Bounds(Found(base, size, lookup, 8))
  {
    var scan := EmptyScan;
    for i := 0 to 8
      invariant Summarizes(Found(base, size, lookup, i), scan)
    {
      var node := lookup(Corner(base, size, i));
      FoundStep(base, size, lookup, i);
      if node.Some? {
        AbsorbSummarizes(Found(base, size, lookup, i), scan, node.value);
        scan := Absorb(scan, node.value);
      }
    }
    maxLOD, lodDiff, chunks := scan.maxLOD, scan.lodDiff, scan.chunks;
  }
}
