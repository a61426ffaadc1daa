/** The spatial octree (`Octree.Node` and `Octree`).

    A node is a recursive datatype whose children are either absent (a leaf)
    or exactly eight, child `i * 4 + j * 2 + k` covering octant (i, j, k).
    Operations that mutate nodes in the engine return the updated tree here;
    a node reference is identified by its bound, which is unique in a tree. */
module SpatialOctree {
  import opened Wrappers
  import opened Lattice

  datatype Node = Node(bound: Box, children: seq<Node>, isChunk: bool, needsMeshUpdate: bool, chunkLOD: int)

  /** `IsLeaf`: the node has no children. */
  predicate IsLeaf(n: Node) {
    |n.children| == 0
  }

  /** `Node.Initialize`: a fresh leaf, not a chunk, chunkLOD -1. */
  function NewNode(b: Box): Node {
    Node(b, [], false, false, -1)
  }

  /** Shape invariant: valid aligned edges, and either a leaf or eight
      children in octant order, each well formed. */
  predicate WF(n: Node) {
    ValidSize(n.bound.w) && Aligned(n.bound) &&
    (IsLeaf(n) ||
     (|n.children| == 8 && n.bound.w > NodeMinSize &&
      forall i | 0 <= i < 8 :: n.children[i].bound == ChildBound(n.bound, i) && WF(n.children[i])))
  }

  /** `m` is `n` or one of its descendants. */
  predicate InTree(n: Node, m: Node) {
    m == n || exists i | 0 <= i < |n.children| :: InTree(n.children[i], m)
  }

  /** Children of an aligned box are aligned boxes inside it. */
  lemma ChildBoundFacts(b: Box, idx: int)
    requires 0 <= idx < 8 && Aligned(b) && ValidSize(b.w) && b.w > NodeMinSize
    ensures Aligned(ChildBound(b, idx)) && ValidSize(ChildBound(b, idx).w)
    ensures Contains(b, ChildBound(b, idx))
  {
    HalfValid(b.w);
    ChildBoundInside(b, idx);
  }

  // ---------------------------------------------------------------- FindChild, Divide

  /** `FindChild(i)`: the node itself when it is a leaf, else child `i`, the
      half-size node in octant i. */
  function FindChild(n: Node, i: int): (c: Node)
    requires 0 <= i < 8 && WF(n)
    ensures IsLeaf(n) ==> c == n
    ensures !IsLeaf(n) ==> c == n.children[i] && c.bound == ChildBound(n.bound, i) && 2 * c.bound.w == n.bound.w
    ensures WF(c) && Contains(n.bound, c.bound)
  {
    if IsLeaf(n) then n
    else
      HalfValid(n.bound.w);
      ChildBoundFacts(n.bound, i);
      n.children[i]
  }

  /** `Divide`: a leaf of edge at least 2 * NodeMinSize gets eight fresh leaf
      children, child `i * 4 + j * 2 + k` at min + (i, j, k) * size / 2. */
  function Divide(n: Node): (r: Node)
    requires WF(n) && IsLeaf(n) && n.bound.w >= 2 * NodeMinSize
    ensures WF(r) && !IsLeaf(r)
    ensures r.bound == n.bound && r.isChunk == n.isChunk && r.chunkLOD == n.chunkLOD && r.needsMeshUpdate == n.needsMeshUpdate
    ensures |r.children| == 8 && forall i | 0 <= i < 8 ::
      r.children[i] == NewNode(Box(n.bound.x + Octant(i).x * (n.bound.w / 2), n.bound.y + Octant(i).y * (n.bound.w / 2),
                                   n.bound.z + Octant(i).z * (n.bound.w / 2), n.bound.w / 2))
  {
    var cs := seq(8, i requires 0 <= i < 8 => NewNode(ChildBound(n.bound, i)));
    assert forall i | 0 <= i < 8 :: WF(cs[i]) by {
      forall i | 0 <= i < 8 ensures WF(cs[i]) { ChildBoundFacts(n.bound, i); }
    }
    assert forall i | 0 <= i < 8 :: ChildBound(n.bound, i) == Box(n.bound.x + Octant(i).x * (n.bound.w / 2),
      n.bound.y + Octant(i).y * (n.bound.w / 2), n.bound.z + Octant(i).z * (n.bound.w / 2), n.bound.w / 2) by {
      forall i | 0 <= i < 8 ensures ChildBound(n.bound, i) == Box(n.bound.x + Octant(i).x * (n.bound.w / 2),
        n.bound.y + Octant(i).y * (n.bound.w / 2), n.bound.z + Octant(i).z * (n.bound.w / 2), n.bound.w / 2) {
        StepMul(Octant(i).x, n.bound.w / 2);
        StepMul(Octant(i).y, n.bound.w / 2);
        StepMul(Octant(i).z, n.bound.w / 2);
      }
    }
    n.(children := cs)
  }

  /** The bounds of the leaves: the registered leaf nodes of the tree. */
  function Leaves(n: Node): set<Box> {
    if IsLeaf(n) then {n.bound}
    else set i, b | 0 <= i < |n.children| && b in Leaves(n.children[i]) :: b
  }

  /** `Divide` unregisters the node as a leaf and registers its eight children. */
  lemma DivideLeaves(n: Node)
    requires WF(n) && IsLeaf(n) && n.bound.w >= 2 * NodeMinSize
    ensures Leaves(Divide(n)) == set i | 0 <= i < 8 :: ChildBound(n.bound, i)
  {
    var r := Divide(n);
    forall i | 0 <= i < 8 ensures Leaves(r.children[i]) == {ChildBound(n.bound, i)} {
    }
  }

  // ---------------------------------------------------------------- CollapseAll

  /** The bounds of all proper descendants, in pre-order. */
  function Descendants(n: Node): seq<Box>
    decreases n, |n.children| + 1
  {
    DescendantsFrom(n, 0)
  }

  function DescendantsFrom(n: Node, i: nat): seq<Box>
    requires i <= |n.children|
    decreases n, |n.children| - i
  {
    if i == |n.children| then []
    else [n.children[i].bound] + Descendants(n.children[i]) + DescendantsFrom(n, i + 1)
  }

  /** `CollapseAll`: the node becomes a leaf (nothing else about it changes)
      and the second component lists the nodes returned to the pool, each
      former descendant exactly once. */
  function CollapseAll(n: Node): (r: (Node, seq<Box>))
    decreases n, |n.children| + 1
    ensures r.0 == n.(children := []) && IsLeaf(r.0)
    ensures IsLeaf(n) ==> r == (n, [])
    ensures multiset(r.1) == multiset(Descendants(n))
  {
    if IsLeaf(n) then (n, []) else (n.(children := []), CollapseFrom(n, 0))
  }

  /** Collapses children `i..` in order: each child's own descendants first,
      then the child itself. */
  function CollapseFrom(n: Node, i: nat): (s: seq<Box>)
    requires i <= |n.children|
    decreases n, |n.children| - i
    ensures multiset(s) == multiset(DescendantsFrom(n, i))
  {
    if i == |n.children| then []
    else CollapseAll(n.children[i]).1 + [n.children[i].bound] + CollapseFrom(n, i + 1)
  }

  /** A collapsed node is registered as the single leaf of its subtree. */
  lemma CollapseAllLeaves(n: Node)
    ensures Leaves(CollapseAll(n).0) == {n.bound}
  {
  }

  // ---------------------------------------------------------------- FindNodeOrParent

  /** `_FindNodeOrParent`: descend toward the target's min corner until the
      edge matches or a leaf is reached. */
  function FindRec(n: Node, t: Box): (m: Node)
    requires WF(n)
    ensures WF(m) && InTree(n, m)
    ensures m.bound.w == t.w || IsLeaf(m)
    ensures n.bound.HasPoint(t.Min()) ==> m.bound.HasPoint(t.Min())
  {
    if t.w == n.bound.w then n
    else if IsLeaf(n) then n
    else
      var i := ChildIdx(n.bound, t.Min());
      HalfValid(n.bound.w);
      assert n.bound.HasPoint(t.Min()) ==> ChildBound(n.bound, i).HasPoint(t.Min()) by {
        if n.bound.HasPoint(t.Min()) { ChildIdxHasPoint(n.bound, t.Min()); }
      }
      var m := FindRec(n.children[i], t);
      assert InTree(n.children[i], m);
      m
  }

  /** `FindNodeOrParent`: null outside the node; otherwise the node of the
      target's edge on the descent path, or the deepest leaf on it.  It never
      divides: the tree is not an output. */
  function FindNodeOrParent(n: Node, t: Box): (r: Option<Node>)
    requires WF(n)
    ensures r.Some? <==> Contains(n.bound, t)
    ensures r.Some? ==> InTree(n, r.value) && (r.value.bound.w == t.w || IsLeaf(r.value))
    ensures r.Some? && t.w > 0 ==> r.value.bound.HasPoint(t.Min())
  {
    if Contains(n.bound, t) then Some(FindRec(n, t)) else None
  }

  // ---------------------------------------------------------------- GetNode

  /** What the caller does with the node `GetNode` found. */
  datatype Edit = Keep | MakeChunk | ClearChunk

  /** `Mathf.RoundToInt(Mathf.Log(size / ChunkSize, 2))` for a valid edge. */
  function ChunkLodOf(w: int): (lod: int)
    requires ValidSize(w)
    ensures lod >= 0 ==> LodSize(lod) == w
  {
    var k := SizeExp(w);
    if k >= 6 then
      Pow2Add(6, k - 6);
      assert Pow2(6) == 64;
      k - 6
    else k - 6
  }

  /** The found node carries the edit. */
  predicate Edited(m: Node, e: Edit)
    requires WF(m)
  {
    match e
    case Keep => true
    case MakeChunk => IsLeaf(m) && m.isChunk && m.needsMeshUpdate && m.chunkLOD == ChunkLodOf(m.bound.w)
    case ClearChunk => IsLeaf(m) && !m.isChunk && !m.needsMeshUpdate && m.chunkLOD == -1
  }

  /** The edit applied to the found node: `CreateChunkNode` collapses it and
      flags it a chunk; `DestroyChunkNode` collapses it and clears the flag. */
  function ApplyEdit(m: Node, e: Edit): (r: Node)
    requires WF(m)
    ensures r.bound == m.bound && WF(r) && Edited(r, e)
    ensures e == Keep ==> r == m
    ensures e == MakeChunk ==> IsLeaf(r) && r.isChunk && r.needsMeshUpdate && r.chunkLOD == ChunkLodOf(m.bound.w)
    ensures e == ClearChunk ==> IsLeaf(r) && !r.isChunk && !r.needsMeshUpdate && r.chunkLOD == -1
  {
    match e
    case Keep => m
    case MakeChunk => CollapseAll(m).0.(isChunk := true, needsMeshUpdate := true, chunkLOD := ChunkLodOf(m.bound.w))
    case ClearChunk => CollapseAll(m).0.(isChunk := false, needsMeshUpdate := false, chunkLOD := -1)
  }

  /** The node divided if it is a leaf: what `_GetNode` descends through. */
  function Opened(n: Node): (d: Node)
    requires WF(n) && n.bound.w > NodeMinSize
    ensures WF(d) && !IsLeaf(d) && d.bound == n.bound
    ensures !IsLeaf(n) ==> d == n
  {
    HalfValid(n.bound.w);
    if IsLeaf(n) then Divide(n) else n
  }

  /** Child `i` replaced by a node of the same bound. */
  function SetChild(d: Node, i: int, c: Node): (r: Node)
    requires WF(d) && !IsLeaf(d) && 0 <= i < 8 && WF(c) && c.bound == d.children[i].bound
    ensures WF(r) && !IsLeaf(r) && r.bound == d.bound && r.children[i] == c
    ensures forall j | 0 <= j < 8 && j != i :: r.children[j] == d.children[j]
  {
    d.(children := d.children[i := c])
  }

  /** `_GetNode`: descend toward the target, dividing leaves on the way;
      null once the minimum edge is reached without a match.  The tree stays
      well formed and keeps its bound; `GetNodeRecFound` states the rest. */
  function GetNodeRec(n: Node, t: Box, e: Edit): (r: (Node, Option<Node>))
    requires WF(n)
    decreases n.bound.w
    ensures r.0.bound == n.bound && WF(r.0)
  {
    if t.w == n.bound.w then
      var m := ApplyEdit(n, e);
      (m, Some(m))
    else if n.bound.w == NodeMinSize then (n, None)
    else
      var d := Opened(n);
      var i := ChildIdx(n.bound, t.Min());
      var sub := GetNodeRec(d.children[i], t, e);
      (SetChild(d, i, sub.0), sub.1)
  }

  /** A node `_GetNode` returns has the target's edge, carries the edit, is
      what `_FindNodeOrParent` finds in the new tree, and holds the target's
      min corner when the start node does. */
  lemma {:induction false} GetNodeRecFound(n: Node, t: Box, e: Edit)
    requires WF(n)
    decreases n.bound.w
    ensures var r := GetNodeRec(n, t, e);
      r.1.Some? ==> r.1.value.bound.w == t.w && WF(r.1.value) && Edited(r.1.value, e) && FindRec(r.0, t) == r.1.value
    ensures var r := GetNodeRec(n, t, e);
      r.1.Some? && n.bound.HasPoint(t.Min()) ==> r.1.value.bound.HasPoint(t.Min())
  {
    if t.w != n.bound.w && n.bound.w != NodeMinSize {
      var d := Opened(n);
      var i := ChildIdx(n.bound, t.Min());
      GetNodeRecFound(d.children[i], t, e);
      var sub := GetNodeRec(d.children[i], t, e);
      var d' := SetChild(d, i, sub.0);
      assert GetNodeRec(n, t, e) == (d', sub.1);
      if n.bound.HasPoint(t.Min()) {
        HalfValid(n.bound.w);
        ChildIdxHasPoint(n.bound, t.Min());
      }
      if sub.1.Some? {
        assert FindRec(d', t) == FindRec(sub.0, t);
      }
    }
  }

  /** `GetNode`: null when the target is not contained; otherwise `_GetNode`. */
  function GetNode(n: Node, t: Box, e: Edit): (r: (Node, Option<Node>))
    requires WF(n)
    ensures r.0.bound == n.bound && WF(r.0)
    ensures !Contains(n.bound, t) ==> r == (n, None)
    ensures r.1.Some? ==> r.1.value.bound.w == t.w && FindNodeOrParent(r.0, t) == r.1 && WF(r.1.value) && Edited(r.1.value, e)
    ensures r.1.Some? && t.w > 0 ==> r.1.value.bound.HasPoint(t.Min())
  {
    if !Contains(n.bound, t) then (n, None)
    else
      GetNodeRecFound(n, t, e);
      GetNodeRec(n, t, e)
  }

  /** For an aligned target of a valid edge inside the node, `_GetNode`
      reaches it: the found node's bound is exactly the target. */
  lemma {:induction false} GetNodeRecReaches(n: Node, t: Box, e: Edit)
    requires WF(n) && Aligned(t) && ValidSize(t.w) && Contains(n.bound, t)
    decreases n.bound.w
    ensures GetNodeRec(n, t, e).1.Some? && GetNodeRec(n, t, e).1.value.bound == t
  {
    if t.w != n.bound.w {
      var c := ReachChild(n, t);
      GetNodeRecReaches(c, t, e);
      GetNodeRecInto(n, t, e);
    }
  }

  /** One level of `GetNodeRecReaches`: the child `_GetNode` opens next is
      one level lower and still contains the target. */
  lemma ReachChild(n: Node, t: Box) returns (c: Node)
    requires WF(n) && Aligned(t) && ValidSize(t.w) && Contains(n.bound, t) && t.w != n.bound.w
    ensures n.bound.w > NodeMinSize
    ensures c == Opened(n).children[ChildIdx(n.bound, t.Min())]
    ensures WF(c) && c.bound.w < n.bound.w && Contains(c.bound, t)
  {
    BelowHalf(t.w, n.bound.w);
    var d := Opened(n);
    var i := ChildIdx(n.bound, t.Min());
    ChildIdxHasPoint(n.bound, t.Min());
    ChildBoundFacts(n.bound, i);
    ContainsAligned(ChildBound(n.bound, i), t);
    c := d.children[i];
  }

  /** Below a node larger than both the target and the minimum edge,
      `_GetNode` finds what it finds in the child holding the target's min
      corner. */
  lemma GetNodeRecInto(n: Node, t: Box, e: Edit)
    requires WF(n) && t.w != n.bound.w && n.bound.w > NodeMinSize
    ensures GetNodeRec(n, t, e).1 == GetNodeRec(Opened(n).children[ChildIdx(n.bound, t.Min())], t, e).1
  {
  }

  /** An aligned box whose min corner lies in an aligned box of a valid edge
      at least as large lies inside it. */
  lemma ContainsAligned(c: Box, t: Box)
    requires Aligned(c) && ValidSize(c.w) && Aligned(t) && ValidSize(t.w) && t.w <= c.w && c.HasPoint(t.Min())
    ensures Contains(c, t)
  {
    ValidDivides(t.w, c.w);
    AxisInside(c.x, c.w, t.x, t.w);
    AxisInside(c.y, c.w, t.y, t.w);
    AxisInside(c.z, c.w, t.z, t.w);
  }

  lemma AxisInside(lo: int, w: int, p: int, tw: int)
    requires tw > 0 && w > 0 && w % tw == 0 && lo % w == 0 && p % tw == 0 && lo <= p < lo + w
    ensures p + tw <= lo + w
  {
    ModTrans(lo, w, tw);
    FloorBounds(lo, tw);
    FloorBounds(w, tw);
    DivUnique(lo + w, tw, lo / tw + w / tw, 0);
    MultipleGap(p, lo + w, tw);
  }

  // ---------------------------------------------------------------- parent chunk lookup

  /** The nodes on the descent path from `n` toward `t`, `n` first and the
      node `_FindNodeOrParent` stops at last: the ancestors of that node. */
  function PathTo(n: Node, t: Box): (p: seq<Node>)
    requires WF(n)
    ensures |p| >= 1 && p[0] == n
  {
    if t.w == n.bound.w || IsLeaf(n) then [n]
    else
      var c := n.children[ChildIdx(n.bound, t.Min())];
      var rest := PathTo(c, t);
      [n] + rest
  }

  /** The path ends at the node `_FindNodeOrParent` returns. */
  lemma {:induction false} PathToEnds(n: Node, t: Box)
    requires WF(n)
    ensures PathTo(n, t)[|PathTo(n, t)| - 1] == FindRec(n, t)
  {
    if t.w != n.bound.w && !IsLeaf(n) {
      var c := PathStep(n, t);
      PathToEnds(c, t);
    }
  }

  /** One step of the descent: the path and the node found both continue
      from the child holding the target's corner. */
  lemma PathStep(n: Node, t: Box) returns (c: Node)
    requires WF(n) && t.w != n.bound.w && !IsLeaf(n)
    ensures WF(c) && c == n.children[ChildIdx(n.bound, t.Min())]
    ensures PathTo(n, t)[|PathTo(n, t)| - 1] == PathTo(c, t)[|PathTo(c, t)| - 1]
    ensures FindRec(n, t) == FindRec(c, t)
  {
    c := n.children[ChildIdx(n.bound, t.Min())];
    PathUnfold(n, t, c);
    LastOfCons(n, PathTo(c, t));
  }

  /** Below a divided node that is not the target's size, the path goes on
      from the child holding the target's corner. */
  lemma PathUnfold(n: Node, t: Box, c: Node)
    requires WF(n) && t.w != n.bound.w && !IsLeaf(n) && c == n.children[ChildIdx(n.bound, t.Min())]
    ensures WF(c) && PathTo(n, t) == [n] + PathTo(c, t)
  {
  }

  lemma LastOfCons<T>(x: T, q: seq<T>)
    requires |q| >= 1
    ensures ([x] + q)[|[x] + q| - 1] == q[|q| - 1]
  {
  }

  /** The position of the chunk node nearest to the end of `chain`. */
  function NearestChunk(chain: seq<Node>): (r: Option<nat>)
    ensures r.Some? ==> (r.value < |chain| && chain[r.value].isChunk &&
                         forall j | r.value < j < |chain| :: !chain[j].isChunk)
    ensures r.None? ==> forall j | 0 <= j < |chain| :: !chain[j].isChunk
  {
    if |chain| == 0 then None
    else if chain[|chain| - 1].isChunk then Some(|chain| - 1)
    else NearestChunk(chain[..|chain| - 1])
  }

  /** `FindParentChunkNode`: the nearest chunk-flagged node on the path from
      the node up to the root, the node itself included; null if none. */
  function FindParentChunkNode(ancestors: seq<Node>): (r: Option<Node>)
    ensures r.Some? <==> exists j | 0 <= j < |ancestors| :: ancestors[j].isChunk
    ensures r.Some? ==> r.value.isChunk && r.value in ancestors
    ensures r.Some? ==> exists j | 0 <= j < |ancestors| ::
      r.value == ancestors[j] && forall k | j < k < |ancestors| :: !ancestors[k].isChunk
  {
    match NearestChunk(ancestors)
    case Some(j) => Some(ancestors[j])
    case None => None
  }

  /** `GetParentChunkNodeID`: the ID of that node, or `NodeID.Invalid` (None). */
  function GetParentChunkNodeID(ancestors: seq<Node>): (r: Option<NodeID>)
    ensures FindParentChunkNode(ancestors).None? ==> r.None?
    ensures r.Some? ==> FindParentChunkNode(ancestors).Some?
    ensures r.Some? ==> LodSize(r.value.lod) == FindParentChunkNode(ancestors).value.bound.w
    ensures r.Some? && Aligned(FindParentChunkNode(ancestors).value.bound) ==>
      IdToBound(r.value) == FindParentChunkNode(ancestors).value.bound
    ensures FindParentChunkNode(ancestors).Some? && (exists k: nat :: LodSize(k) == FindParentChunkNode(ancestors).value.bound.w) ==>
      r.Some?
  {
    match FindParentChunkNode(ancestors)
    case None => None
    case Some(m) =>
      match BoundToId(m.bound)
      case None => None
      case Some(id) =>
        IdBoundRoundTrip(id);
        BoundIdBound(m.bound);
        Some(id)
  }

  /** A bound that has an ID is the bound of that ID when it is aligned. */
  lemma BoundIdBound(b: Box)
    requires BoundToId(b).Some?
    ensures Aligned(b) ==> IdToBound(BoundToId(b).value) == b
  {
    if Aligned(b) {
      FloorBounds(b.x, b.w);
      FloorBounds(b.y, b.w);
      FloorBounds(b.z, b.w);
    }
  }

  // ---------------------------------------------------------------- FindAllChunkNodes

  /** `FindAllChunkNodes`: chunk nodes are collected; non-chunk inner nodes
      of edge at least 2 * ChunkSize are expanded. */
  function FindAllChunkNodes(n: Node): (r: seq<Node>)
    decreases n, |n.children| + 1
    ensures forall m | m in r :: m.isChunk && InTree(n, m)
    ensures n.isChunk ==> r == [n]
  {
    if n.isChunk then [n]
    else if !IsLeaf(n) && n.bound.w >= 2 * ChunkSize then ChunkNodesFrom(n, 0)
    else []
  }

  function ChunkNodesFrom(n: Node, i: nat): (r: seq<Node>)
    requires i <= |n.children|
    decreases n, |n.children| - i
    ensures forall m | m in r :: m.isChunk && InTree(n, m)
  {
    if i == |n.children| then []
    else
      var a := FindAllChunkNodes(n.children[i]);
      assert forall m | m in a :: InTree(n, m) by {
        forall m | m in a ensures InTree(n, m) { assert InTree(n.children[i], m); }
      }
      a + ChunkNodesFrom(n, i + 1)
  }

  /** A chunk node `FindAllChunkNodes` can reach from `n`: `n` itself when it
      is a chunk, else one reached from a child of a divided non-chunk node
      of edge at least 2 * ChunkSize. */
  predicate ChunkReached(n: Node, m: Node)
    decreases n
  {
    if n.isChunk then m == n
    else
      !IsLeaf(n) && n.bound.w >= 2 * ChunkSize &&
      exists i | 0 <= i < |n.children| :: ChunkReached(n.children[i], m)
  }

  /** The walk lists exactly the chunk nodes it can reach. */
  lemma {:induction false} FindAllChunkNodesExact(n: Node, m: Node)
    decreases n, |n.children| + 1
    ensures m in FindAllChunkNodes(n) <==> ChunkReached(n, m)
  {
    if !n.isChunk && !IsLeaf(n) && n.bound.w >= 2 * ChunkSize {
      ChunkNodesFromExact(n, 0, m);
    }
  }

  lemma {:induction false} ChunkNodesFromExact(n: Node, i: nat, m: Node)
    requires i <= |n.children|
    decreases n, |n.children| - i
    ensures m in ChunkNodesFrom(n, i) <==> exists j | i <= j < |n.children| :: ChunkReached(n.children[j], m)
  {
    if i < |n.children| {
      FindAllChunkNodesExact(n.children[i], m);
      ChunkNodesFromExact(n, i + 1, m);
      var a := FindAllChunkNodes(n.children[i]);
      var rest := ChunkNodesFrom(n, i + 1);
      assert ChunkNodesFrom(n, i) == a + rest;
      if m !in a && exists j | i <= j < |n.children| :: ChunkReached(n.children[j], m) {
        var j :| i <= j < |n.children| && ChunkReached(n.children[j], m);
        assert j != i;
      }
    }
  }

  // ---------------------------------------------------------------- Octree

  /** An octree: the root and the list of its chunk nodes (by bound). */
  datatype Octree = Octree(root: Node, chunkNodes: seq<Box>)

  predicate NoDup<T(==)>(s: seq<T>) {
    forall i, j | 0 <= i < j < |s| :: s[i] != s[j]
  }

  /** `InitializeOctree`: a single leaf root of edge OctreeSize, no chunks. */
  function InitializeOctree(id: Vec3): (o: Octree)
    ensures WF(o.root) && IsLeaf(o.root) && o.chunkNodes == []
    ensures o.root.bound == Box(id.x * OctreeSize, id.y * OctreeSize, id.z * OctreeSize, OctreeSize)
  {
    var b := Box(id.x * OctreeSize, id.y * OctreeSize, id.z * OctreeSize, OctreeSize);
    Constants();
    assert OctreeSize == NodeMinSize * Pow2(11) by { assert Pow2(11) == 2048; }
    ValidOfExp(11);
    DivUnique(b.x, OctreeSize, id.x, 0);
    DivUnique(b.y, OctreeSize, id.y, 0);
    DivUnique(b.z, OctreeSize, id.z, 0);
    Octree(NewNode(b), [])
  }

  function RemoveFirst<T(==)>(s: seq<T>, x: T): (r: seq<T>)
    ensures x in s ==> |r| == |s| - 1
    ensures x !in s ==> r == s
    ensures multiset(r) == multiset(s) - multiset{x}
    ensures forall y | y in r :: y in s
  {
    if |s| == 0 then []
    else
      assert s == [s[0]] + s[1..];
      if s[0] == x then s[1..]
      else
        var rest := RemoveFirst(s[1..], x);
        RemoveBehind(s[0], s[1..], x, rest);
        [s[0]] + rest
  }

  /** Removing `x` behind a head that is not `x` keeps the head. */
  lemma RemoveBehind<T>(a: T, t: seq<T>, x: T, rest: seq<T>)
    requires a != x && multiset(rest) == multiset(t) - multiset{x}
    requires x in t ==> |rest| == |t| - 1
    requires x !in t ==> rest == t
    requires forall y | y in rest :: y in t
    ensures x in [a] + t ==> |[a] + rest| == |[a] + t| - 1
    ensures x !in [a] + t ==> [a] + rest == [a] + t
    ensures multiset([a] + rest) == multiset([a] + t) - multiset{x}
    ensures forall y | y in [a] + rest :: y in [a] + t
  {
    assert multiset([a] + rest) == multiset{a} + multiset(rest);
    assert multiset([a] + t) == multiset{a} + multiset(t);
  }

  /** `GetNode` reaches an aligned target of a valid edge inside the node. */
  lemma GetNodeReaches(n: Node, t: Box, e: Edit)
    requires WF(n) && Aligned(t) && ValidSize(t.w) && Contains(n.bound, t)
    ensures GetNode(n, t, e).1.Some? && GetNode(n, t, e).1.value.bound == t
  {
    GetNodeRecReaches(n, t, e);
  }

  /** `chunkNodes.Add` guarded by `Contains`: `b` is listed exactly once
      more when absent and the list is unchanged when present. */
  function AddOnce(list: seq<Box>, b: Box): (r: seq<Box>)
    ensures b in r && forall x | x in list :: x in r
    ensures forall x | x in r :: x in list || x == b
    ensures b in list ==> r == list
    ensures b !in list ==> multiset(r) == multiset(list) + multiset{b}
    ensures NoDup(list) ==> NoDup(r)
  {
    if b in list then list else list + [b]
  }

  /** `CreateChunkNode`: the node at `nb` (divided down to if needed) is
      collapsed to a leaf, flagged a chunk with `chunkLOD = log2(size /
      ChunkSize)` and listed once.  A missing node dereferences null. */
  function CreateChunkNode(o: Octree, nb: Box): (r: Result<(Octree, Node)>)
    requires WF(o.root)
    ensures Aligned(nb) && ValidSize(nb.w) && Contains(o.root.bound, nb) ==> r.Success? && r.value.1.bound == nb
    ensures r.Success? ==> WF(r.value.0.root) && r.value.0.root.bound == o.root.bound && WF(r.value.1)
    ensures r.Success? ==> IsLeaf(r.value.1) && r.value.1.isChunk && r.value.1.needsMeshUpdate
    ensures r.Success? ==> r.value.1.chunkLOD == ChunkLodOf(r.value.1.bound.w) && r.value.1.bound.w == nb.w
    ensures r.Success? ==> FindNodeOrParent(r.value.0.root, nb) == Some(r.value.1)
    ensures r.Success? ==> r.value.0.chunkNodes == AddOnce(o.chunkNodes, r.value.1.bound)
    ensures r.Failure? ==> r.error == NullNode
  {
    var (root, found) := GetNode(o.root, nb, MakeChunk);
    assert Aligned(nb) && ValidSize(nb.w) && Contains(o.root.bound, nb) ==> found.Some? && found.value.bound == nb by {
      if Aligned(nb) && ValidSize(nb.w) && Contains(o.root.bound, nb) { GetNodeReaches(o.root, nb, MakeChunk); }
    }
    match found
    case None => Failure(NullNode)
    case Some(m) => Success((Octree(root, AddOnce(o.chunkNodes, m.bound)), m))
  }

  /** `chunkNodes.Remove`: the first occurrence of `b` goes. */
  function RemoveOnce(list: seq<Box>, b: Box): (r: seq<Box>)
    ensures multiset(r) == multiset(list) - multiset{b}
    ensures NoDup(list) ==> b !in r && NoDup(r)
    ensures forall x | x in list && x != b :: x in r
    ensures forall x | x in r :: x in list
  {
    var r := RemoveFirst(list, b);
    assert NoDup(list) ==> b !in r && NoDup(r) by {
      if NoDup(list) { NoDupCount(list, b); RemoveFirstNoDup(list, b); }
    }
    assert forall x | x in r :: x in list by {
      forall x | x in r ensures x in list {
        assert multiset(r)[x] > 0;
      }
    }
    assert forall x | x in list && x != b :: x in r by {
      forall x | x in list && x != b ensures x in r {
        assert multiset(list)[x] > 0;
        assert multiset(r)[x] == multiset(list)[x];
      }
    }
    r
  }

  /** `DestroyChunkNode`: the node at `nb` is collapsed, its chunk flag
      cleared, `chunkLOD` set to -1 and its entry removed from the list. */
  function DestroyChunkNode(o: Octree, nb: Box): (r: Result<Octree>)
    requires WF(o.root)
    ensures Aligned(nb) && ValidSize(nb.w) && Contains(o.root.bound, nb) ==>
      r.Success? && r.value.chunkNodes == RemoveOnce(o.chunkNodes, nb)
    ensures r.Success? ==> WF(r.value.root) && r.value.root.bound == o.root.bound
    ensures r.Success? ==> FindNodeOrParent(r.value.root, nb).Some?
    ensures r.Success? ==> var m := FindNodeOrParent(r.value.root, nb).value;
      IsLeaf(m) && !m.isChunk && !m.needsMeshUpdate && m.chunkLOD == -1 && m.bound.w == nb.w &&
      r.value.chunkNodes == RemoveOnce(o.chunkNodes, m.bound)
    ensures r.Failure? ==> r.error == NullNode
  {
    var (root, found) := GetNode(o.root, nb, ClearChunk);
    assert Aligned(nb) && ValidSize(nb.w) && Contains(o.root.bound, nb) ==> found.Some? && found.value.bound == nb by {
      if Aligned(nb) && ValidSize(nb.w) && Contains(o.root.bound, nb) { GetNodeReaches(o.root, nb, ClearChunk); }
    }
    match found
    case None => Failure(NullNode)
    case Some(m) => Success(Octree(root, RemoveOnce(o.chunkNodes, m.bound)))
  }

  /** `CleanUpOctree`: every node of the tree, the root last, goes back to
      the pool. */
  function CleanUpOctree(o: Octree): (returned: seq<Box>)
    ensures multiset(returned) == multiset(Descendants(o.root)) + multiset{o.root.bound}
    ensures |returned| >= 1 && returned[|returned| - 1] == o.root.bound
  {
    CollapseAll(o.root).1 + [o.root.bound]
  }

  lemma {:induction false} RemoveFirstNoDup<T>(s: seq<T>, x: T)
    requires NoDup(s)
    ensures NoDup(RemoveFirst(s, x))
  {
    if |s| > 0 && s[0] != x {
      var t := s[1..];
      assert NoDup(t);
      RemoveFirstNoDup(t, x);
      var r := RemoveFirst(t, x);
      assert s[0] !in t;
      NoDupCons(s[0], r);
    }
  }

  lemma NoDupCons<T>(a: T, t: seq<T>)
    requires NoDup(t) && a !in t
    ensures NoDup([a] + t)
  {
    var u := [a] + t;
    forall i, j | 0 <= i < j < |u| ensures u[i] != u[j] {
      assert u[j] == t[j - 1];
      if i > 0 { assert u[i] == t[i - 1]; }
    }
  }

  lemma NoDupCount<T>(s: seq<T>, x: T)
    requires NoDup(s)
    ensures multiset(s)[x] <= 1
  {
    if |s| > 0 {
      assert s == [s[0]] + s[1..];
      assert NoDup(s[1..]);
      NoDupCount(s[1..], x);
      if s[0] == x {
        assert x !in s[1..];
      }
    }
  }
}
