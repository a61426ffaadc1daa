/** The decisions the chunk jobs take before sampling: expanding a coarse
    cube's value into finer override cells (`SetOverrideValues`), listing
    children (`Get8Children`, `Add8Children`), the four cells around an
    edge (`_FindNodesAroundEdge`), which cube faces are exposed and what
    `_AddFoundEdge` records for them, and which nodes `ProcessNode` sends
    on to sampling.

    The float tests that feed these decisions (terrain and sphere
    intersection, the position of a face inside a node) are inputs. */
module Refinement {
  import opened Wrappers
  import opened Lattice
  import opened CubeOctrees
  import SimpleQueue

  // ---------------------------------------------------------------- override levels

  /** The number of binary digits of `n`: `32 - lzcnt(n)` for a 32-bit `n`. */
  function BitLength(n: nat): (b: nat)
    ensures n == 0 <==> b == 0
    ensures n > 0 ==> Pow2(b - 1) <= n < Pow2(b)
  {
    if n == 0 then 0
    else
      var b' := BitLength(n / 2);
      assert Pow2(b' + 1) == 2 * Pow2(b');
      b' + 1
  }

  /** C#'s `(uint)` cast of an `int`: the value modulo 2^32. */
  function ToUInt32(v: int): (u: nat)
    ensures u < 0x1_0000_0000 && (0 <= v < 0x1_0000_0000 ==> u == v)
  {
    v % 0x1_0000_0000
  }

  lemma Pow2Of32()
    ensures Pow2(32) == 0x1_0000_0000
  {
    assert Pow2(2) == 4;
    Pow2Add(2, 2);
    Pow2Add(4, 4);
    Pow2Add(8, 8);
    Pow2Add(16, 16);
  }

  /** `divCnt` of `SetOverrideValues`: `31 - lzcnt((uint)(size / 2))`, at
      least 2. */
  function DivCnt(size: int): int {
    var lz := 32 - BitLength(ToUInt32(CsDiv(size, 2)));
    var d := 31 - lz;
    if d < 2 then 2 else d
  }

  /** A bit length identifies the power of two it brackets. */
  lemma {:induction false} BitLengthOfPow2(j: nat)
    ensures BitLength(Pow2(j)) == j + 1
  {
    if j > 0 {
      BitLengthOfPow2(j - 1);
      assert Pow2(j) / 2 == Pow2(j - 1);
    }
  }

  /** For a cube of edge `2^k`, the override levels are `max(2, k - 1)`. */
  lemma DivCntOfPow2(k: nat)
    requires k <= 31
    ensures DivCnt(Pow2(k)) == if k - 1 < 2 then 2 else k - 1
  {
    if k == 0 {
      assert CsDiv(Pow2(0), 2) == 0;
    } else {
      var h := Pow2(k - 1);
      assert CsDiv(Pow2(k), 2) == h;
      SmallPow2Fits(k - 1);
      BitLengthOfPow2(k - 1);
      assert BitLength(ToUInt32(CsDiv(Pow2(k), 2))) == k;
    }
  }

  /** Powers of two below 2^32 survive the cast to `uint`. */
  lemma SmallPow2Fits(j: nat)
    requires j < 32
    ensures ToUInt32(Pow2(j)) == Pow2(j)
  {
    Pow2Mono(j, 32);
    Pow2Of32();
  }

  /** Cell `(a, b, c)` of level `i`: edge `size / 2^i`, min
      `MinPos + (a, b, c) * edge`. */
  function Cell(nb: Box, i: nat, a: int, b: int, c: int): Box {
    var s := CsDiv(nb.w, Pow2(i));
    Box(nb.x + a * s, nb.y + b * s, nb.z + c * s, s)
  }

  /** The key is one of the cells of level `i`. */
  predicate LevelCell(nb: Box, i: nat, k: Box) {
    exists a, b, c :: 0 <= a < Pow2(i) && 0 <= b < Pow2(i) && 0 <= c < Pow2(i) && k == Cell(nb, i, a, b, c)
  }

  /** The key is one of the cells of levels `0..n`. */
  predicate OverrideCell(nb: Box, n: int, k: Box) {
    exists i: nat :: i < n && LevelCell(nb, i, k)
  }

  /** The innermost loop: cells `(a, b, c..2^i)`, in order. */
  function RowKeys(nb: Box, i: nat, a: int, b: int, c: nat): (r: seq<Box>)
    ensures forall c' | c <= c' < Pow2(i) :: Cell(nb, i, a, b, c') in r
    ensures forall k | k in r :: exists c' :: c <= c' < Pow2(i) && k == Cell(nb, i, a, b, c')
    decreases Pow2(i) - c
  {
    if c >= Pow2(i) then [] else [Cell(nb, i, a, b, c)] + RowKeys(nb, i, a, b, c + 1)
  }

  /** The middle loop: rows `b..2^i` of slice `a`. */
  function SliceKeys(nb: Box, i: nat, a: int, b: nat): (r: seq<Box>)
    ensures forall b', c' | b <= b' < Pow2(i) && 0 <= c' < Pow2(i) :: Cell(nb, i, a, b', c') in r
    ensures forall k | k in r :: exists b', c' :: b <= b' < Pow2(i) && 0 <= c' < Pow2(i) && k == Cell(nb, i, a, b', c')
    decreases Pow2(i) - b
  {
    if b >= Pow2(i) then [] else RowKeys(nb, i, a, b, 0) + SliceKeys(nb, i, a, b + 1)
  }

  /** The outer loop of one level: slices `a..2^i`. */
  function LevelKeys(nb: Box, i: nat, a: nat): (r: seq<Box>)
    ensures forall a', b', c' | a <= a' < Pow2(i) && 0 <= b' < Pow2(i) && 0 <= c' < Pow2(i) :: Cell(nb, i, a', b', c') in r
    ensures forall k | k in r :: exists a', b', c' ::
      (a <= a' < Pow2(i) && 0 <= b' < Pow2(i) && 0 <= c' < Pow2(i) && k == Cell(nb, i, a', b', c'))
    decreases Pow2(i) - a
  {
    if a >= Pow2(i) then []
    else
      var rest := LevelKeys(nb, i, a + 1);
      LevelStep(nb, i, a, SliceKeys(nb, i, a, 0), rest);
      SliceKeys(nb, i, a, 0) + rest
  }

  /** Slice `a` followed by the slices after it holds the slices from `a`. */
  lemma LevelStep(nb: Box, i: nat, a: nat, slice: seq<Box>, rest: seq<Box>)
    requires a < Pow2(i)
    requires forall b', c' | 0 <= b' < Pow2(i) && 0 <= c' < Pow2(i) :: Cell(nb, i, a, b', c') in slice
    requires forall k | k in slice :: exists b', c' :: 0 <= b' < Pow2(i) && 0 <= c' < Pow2(i) && k == Cell(nb, i, a, b', c')
    requires forall a', b', c' | a + 1 <= a' < Pow2(i) && 0 <= b' < Pow2(i) && 0 <= c' < Pow2(i) :: Cell(nb, i, a', b', c') in rest
    requires forall k | k in rest :: exists a', b', c' ::
      (a + 1 <= a' < Pow2(i) && 0 <= b' < Pow2(i) && 0 <= c' < Pow2(i) && k == Cell(nb, i, a', b', c'))
    ensures forall a', b', c' | a <= a' < Pow2(i) && 0 <= b' < Pow2(i) && 0 <= c' < Pow2(i) :: Cell(nb, i, a', b', c') in slice + rest
    ensures forall k | k in slice + rest :: exists a', b', c' ::
      (a <= a' < Pow2(i) && 0 <= b' < Pow2(i) && 0 <= c' < Pow2(i) && k == Cell(nb, i, a', b', c'))
  {
    forall a', b', c' | a <= a' < Pow2(i) && 0 <= b' < Pow2(i) && 0 <= c' < Pow2(i)
      ensures Cell(nb, i, a', b', c') in slice + rest
    {
      if a' == a {
        assert Cell(nb, i, a', b', c') in slice;
      } else {
        assert Cell(nb, i, a', b', c') in rest;
      }
    }
    forall k | k in slice + rest
      ensures exists a', b', c' :: a <= a' < Pow2(i) && 0 <= b' < Pow2(i) && 0 <= c' < Pow2(i) && k == Cell(nb, i, a', b', c')
    {
      SliceOrRest(nb, i, a, slice, rest, k);
    }
  }

  /** A key of slice `a` or of a later slice is a key of a slice from `a`. */
  lemma SliceOrRest(nb: Box, i: nat, a: nat, slice: seq<Box>, rest: seq<Box>, k: Box)
    requires a < Pow2(i)
    requires forall k | k in slice :: exists b', c' :: 0 <= b' < Pow2(i) && 0 <= c' < Pow2(i) && k == Cell(nb, i, a, b', c')
    requires forall k | k in rest :: exists a', b', c' ::
      (a + 1 <= a' < Pow2(i) && 0 <= b' < Pow2(i) && 0 <= c' < Pow2(i) && k == Cell(nb, i, a', b', c'))
    requires k in slice + rest
    ensures exists a', b', c' :: a <= a' < Pow2(i) && 0 <= b' < Pow2(i) && 0 <= c' < Pow2(i) && k == Cell(nb, i, a', b', c')
  {
    if k in slice {
      var b', c' :| 0 <= b' < Pow2(i) && 0 <= c' < Pow2(i) && k == Cell(nb, i, a, b', c');
    } else {
      var a', b', c' :| a + 1 <= a' < Pow2(i) && 0 <= b' < Pow2(i) && 0 <= c' < Pow2(i) && k == Cell(nb, i, a', b', c');
    }
  }

  /** A whole level holds exactly that level's cells. */
  lemma LevelKeysAll(nb: Box, i: nat)
    ensures forall k :: k in LevelKeys(nb, i, 0) <==> LevelCell(nb, i, k)
  {
  }

  /** Every key `SetOverrideValues` tries, in loop order: levels `i..n`. */
  function OverrideKeys(nb: Box, i: nat, n: int): (r: seq<Box>)
    ensures forall k :: k in r <==> exists i': nat :: i <= i' < n && LevelCell(nb, i', k)
    decreases n - i
  {
    if i >= n then []
    else
      LevelKeysAll(nb, i);
      LevelKeys(nb, i, 0) + OverrideKeys(nb, i + 1, n)
  }

  /** `TryAdd` of each key in turn: a key already present keeps its entry. */
  function TryAddAll(m: map<Box, CubeData>, keys: seq<Box>, d: CubeData): (r: map<Box, CubeData>)
    ensures r.Keys == m.Keys + set k | k in keys
    ensures forall k | k in m :: r[k] == m[k]
    ensures forall k | k in r && k !in m :: r[k] == d
    decreases |keys|
  {
    if |keys| == 0 then m
    else
      var m' := if keys[0] in m then m else m[keys[0] := d];
      var r := TryAddAll(m', keys[1..], d);
      assert (set k | k in keys) == {keys[0]} + set k | k in keys[1..];
      r
  }

  /** `SetOverrideValues`: the cube's own (pure) value and order, added
      under every cell of levels `0..divCnt` that is not yet overridden. */
  function SetOverrideValues(native: map<Box, CubeInfo>, overrides: map<Box, CubeData>, nb: Box): (r: map<Box, CubeData>)
    requires nb.w > 0
    ensures forall k :: k in r <==> k in overrides || OverrideCell(nb, DivCnt(nb.w), k)
    ensures forall k | k in overrides :: r[k] == overrides[k]
    ensures forall k | k in r && k !in overrides ::
      r[k] == CubeData(GetCubePureValue(native, nb).1, GetCubePureValue(native, nb).0)
  {
    var (val, order) := GetCubePureValue(native, nb);
    TryAddAll(overrides, OverrideKeys(nb, 0, DivCnt(nb.w)), CubeData(order, val))
  }

  /** One axis of a cell lookup: a point `t` past an aligned start falls in
      cell `t / s`, which is aligned and inside the `m * s` span. */
  lemma AxisCell(lo: int, p: int, s: int, m: int)
    requires s > 0 && m > 0 && lo % s == 0 && lo <= p < lo + m * s
    ensures var a := (p - lo) / s; 0 <= a < m && (lo + a * s) % s == 0 && lo + a * s <= p < lo + a * s + s
  {
    var t := p - lo;
    var a := t / s;
    FloorBounds(t, s);
    FloorBounds(lo, s);
    MulLe(m, a, s);
    DivUnique(lo + a * s, s, lo / s + a, 0);
  }

  /** The edge of level `i` of a cube of edge `2^k` is `2^(k - i)`. */
  lemma LevelEdge(w: int, k: nat, i: nat)
    requires w == Pow2(k) && i <= k
    ensures CsDiv(w, Pow2(i)) == Pow2(k - i) && w == Pow2(k - i) * Pow2(i)
  {
    Pow2Add(i, k - i);
    DivUnique(w, Pow2(i), Pow2(k - i), 0);
  }

  /** In an aligned cube of edge `2^k`, the aligned cell of edge `2^(k - i)`
      around a point of the cube is one of the level-`i` cells. */
  lemma PointCell(nb: Box, k: nat, i: nat, g: Vec3)
    requires Aligned(nb) && nb.w == Pow2(k) && nb.HasPoint(g) && i <= k
    ensures LevelCell(nb, i, AlignedKey(g, Pow2(k - i)))
  {
    var s := Pow2(k - i);
    LevelEdge(nb.w, k, i);
    DivUnique(nb.w, s, Pow2(i), 0);
    ModTrans(nb.x, nb.w, s);
    ModTrans(nb.y, nb.w, s);
    ModTrans(nb.z, nb.w, s);
    AxisCell(nb.x, g.x, s, Pow2(i));
    AxisCell(nb.y, g.y, s, Pow2(i));
    AxisCell(nb.z, g.z, s, Pow2(i));
    var a, b, c := (g.x - nb.x) / s, (g.y - nb.y) / s, (g.z - nb.z) / s;
    var cell := Cell(nb, i, a, b, c);
    assert cell == Box(nb.x + a * s, nb.y + b * s, nb.z + c * s, s);
    assert Aligned(cell) && cell.HasPoint(g);
    AlignedKeyOfCell(g, cell);
  }

  /** After `SetOverrideValues` on an aligned cube of edge `2^k`, a lookup at
      any point of the cube at the edge of one of the expanded levels reads
      the cube's own value, unless that cell was already overridden. */
  lemma OverrideReadsCoarse(native: map<Box, CubeInfo>, overrides: map<Box, CubeData>, nb: Box, k: nat, i: nat, g: Vec3)
    requires Aligned(nb) && nb.w == Pow2(k) && nb.HasPoint(g)
    requires i < DivCnt(nb.w) && i <= k
    requires AlignedKey(g, Pow2(k - i)) !in overrides
    ensures GetCubeValue(native, SetOverrideValues(native, overrides, nb), g, k - i) == GetCubePureValue(native, nb)
  {
    PointCell(nb, k, i, g);
    assert OverrideCell(nb, DivCnt(nb.w), AlignedKey(g, Pow2(k - i)));
  }

  // ---------------------------------------------------------------- children

  /** `Get8Children`: the eight half-size children in `i*4 + j*2 + k` order. */
  function Get8Children(b: Box): (cs: seq<Box>)
    ensures |cs| == 8 && forall i | 0 <= i < 8 :: cs[i] == ChildBound(b, i)
  {
    seq(8, i requires 0 <= i < 8 => ChildBound(b, i))
  }

  /** One axis of a child: a child half holds the coordinate only if it is
      the half the descent picks. */
  lemma AxisHalfUnique(lo: int, w: int, p: int, bit: int)
    requires w > 0 && w % 2 == 0 && 0 <= bit < 2
    requires lo + Step(bit, w / 2) <= p < lo + Step(bit, w / 2) + w / 2
    ensures bit == if p < lo + w / 2 then 0 else 1
  {
  }

  /** The children of an aligned box of even edge are aligned, lie inside
      it, and every point of the box lies in exactly one of them. */
  lemma ChildrenTile(b: Box, p: Vec3)
    requires Aligned(b) && b.w % 2 == 0
    ensures forall i | 0 <= i < 8 :: Aligned(Get8Children(b)[i]) && Within(Get8Children(b)[i], b)
    ensures b.HasPoint(p) ==> forall i | 0 <= i < 8 :: Get8Children(b)[i].HasPoint(p) <==> i == ChildIdx(b, p)
  {
    forall i | 0 <= i < 8 {
      ChildBoundInside(b, i);
    }
    if b.HasPoint(p) {
      ChildIdxHasPoint(b, p);
      forall i | 0 <= i < 8 && Get8Children(b)[i].HasPoint(p)
        ensures i == ChildIdx(b, p)
      {
        ChildHolding(b, p, i);
      }
    }
  }

  /** A child holding a point is the child the descent picks for it. */
  lemma ChildHolding(b: Box, p: Vec3, i: int)
    requires b.w > 0 && b.w % 2 == 0 && 0 <= i < 8 && ChildBound(b, i).HasPoint(p)
    ensures i == ChildIdx(b, p)
  {
    var o := Octant(i);
    AxisHalfUnique(b.x, b.w, p.x, o.x);
    AxisHalfUnique(b.y, b.w, p.y, o.y);
    AxisHalfUnique(b.z, b.w, p.z, o.z);
    assert o == HalfOf(b, p);
    OctantRoundTrip(o);
  }

  /** The cube-grid children `Add8Children` enqueues: edge `size / 2`
      (truncating), min `MinPos + (i, j, k) * edge`. */
  function CubeChildren(nb: Box): (cs: seq<Box>)
    ensures |cs| == 8
  {
    var s := CsDiv(nb.w, 2);
    seq(8, i requires 0 <= i < 8 =>
      var o := Octant(i);
      Box(nb.x + Step(o.x, s), nb.y + Step(o.y, s), nb.z + Step(o.z, s), s))
  }

  /** For the non-negative edges cube nodes have, the cube-grid children are
      the octree children. */
  lemma CubeChildrenAreChildren(nb: Box)
    requires nb.w >= 0
    ensures CubeChildren(nb) == Get8Children(nb)
  {
  }

  /** `Add8Children`: enqueues the eight children in order; a queue without
      room for all eight throws. */
  function Add8Children(q: SimpleQueue.Queue<Box>, nb: Box): (r: Result<SimpleQueue.Queue<Box>>)
    requires SimpleQueue.Valid(q)
    ensures r.Success? <==> q.count + 8 <= q.capacity
    ensures r.Failure? ==> r.error == QueueFull
    ensures r.Success? ==> (SimpleQueue.Valid(r.value) &&
      SimpleQueue.Contents(r.value) == SimpleQueue.Contents(q) + CubeChildren(nb))
  {
    SimpleQueue.EnqueueAllAppends(q, CubeChildren(nb));
    SimpleQueue.EnqueueAll(q, CubeChildren(nb))
  }

  // ---------------------------------------------------------------- cells around an edge

  /** `_FindNodesAroundEdge`: the four unit cells around the edge starting
      at `e` along the axis of direction `dir`. */
  function NodesAroundEdge(e: Vec3, dir: int): (ns: seq<Vec3>)
    ensures |ns| == 4 && ns[1] == e
  {
    if dir == 1 || dir == 2 then
      [e.Plus(Vec3(0, 0, -1)), e, e.Plus(Vec3(0, -1, -1)), e.Plus(Vec3(0, -1, 0))]
    else if dir == 3 || dir == 4 then
      [e.Plus(Vec3(-1, 0, 0)), e, e.Plus(Vec3(-1, 0, -1)), e.Plus(Vec3(0, 0, -1))]
    else
      [e.Plus(Vec3(-1, 0, 0)), e, e.Plus(Vec3(-1, -1, 0)), e.Plus(Vec3(0, -1, 0))]
  }

  /** The unit cell with min corner `n` has the unit edge from `e` along
      `axis` on its boundary: same coordinate on the axis, and one of the
      two cells on each other axis. */
  predicate SharesEdge(n: Vec3, e: Vec3, axis: char) {
    var ox := if axis == 'x' then n.x == e.x else e.x - 1 <= n.x <= e.x;
    var oy := if axis == 'y' then n.y == e.y else e.y - 1 <= n.y <= e.y;
    var oz := if axis == 'z' then n.z == e.z else e.z - 1 <= n.z <= e.z;
    ox && oy && oz
  }

  /** The four cells are distinct and are exactly the cells sharing the edge. */
  lemma NodesAroundEdgeShareIt(e: Vec3, dir: int)
    requires 1 <= dir <= 6
    ensures forall i, j | 0 <= i < j < 4 :: NodesAroundEdge(e, dir)[i] != NodesAroundEdge(e, dir)[j]
    ensures forall n :: n in NodesAroundEdge(e, dir) <==> SharesEdge(n, e, SignedDirToChar(dir))
  {
    var ns := NodesAroundEdge(e, dir);
    forall n | SharesEdge(n, e, SignedDirToChar(dir))
      ensures n in ns
    {
      if dir <= 2 {
        SharesEdgeIn(n, e, ns[1], ns[0], ns[3], ns[2], n.y == e.y, n.z == e.z);
      } else if dir <= 4 {
        SharesEdgeIn(n, e, ns[1], ns[3], ns[0], ns[2], n.x == e.x, n.z == e.z);
      } else {
        SharesEdgeIn(n, e, ns[1], ns[3], ns[0], ns[2], n.x == e.x, n.y == e.y);
      }
    }
  }

  /** Picking one of four cells by two yes/no tests. */
  lemma SharesEdgeIn(n: Vec3, e: Vec3, both: Vec3, onlyFirst: Vec3, onlySecond: Vec3, neither: Vec3, first: bool, second: bool)
    requires first && second ==> n == both
    requires first && !second ==> n == onlyFirst
    requires !first && second ==> n == onlySecond
    requires !first && !second ==> n == neither
    ensures n in [onlySecond, both, neither, onlyFirst]
  {
  }

  // ---------------------------------------------------------------- exposed faces

  /** The exposure test of `FindWorldEdgesInCube`: an air cube (0) against
      an unset neighbour, or a solid cube against an air or unset one. */
  function FaceExposed(cube: Mat, neighbour: Mat): (r: bool)
    ensures r <==> (cube == 0 && neighbour == Unset) || (0 < cube < Unset && (neighbour == 0 || neighbour == Unset))
  {
    var air := cube == 0 && neighbour == 255;
    var solid := cube % 255 != 0 && (neighbour == 0 || neighbour == 255);
    air || solid
  }

  /** One face record of `_AddFoundEdge`: the face the block tested (its
      original direction), the direction written, the material, and flag1
      (set for air cubes).  The rectangle of grid edges a block writes is a
      float computation and is one record here. */
  datatype FaceHit = FaceHit(face: int, dir: int, mat: Mat, air: bool)

  /** The opposite direction on the same axis: 1 and 2, 3 and 4, 5 and 6. */
  function FlipDir(d: int): (f: int)
    requires 1 <= d <= 6
    ensures 1 <= f <= 6 && f != d && SignedDirToChar(f) == SignedDirToChar(d)
  {
    if d % 2 == 0 then d - 1 else d + 1
  }

  /** The order of `_AddFoundEdge`'s blocks. */
  function BlockDir(k: int): int
    requires 0 <= k < 6
  {
    [2, 1, 4, 3, 6, 5][k]
  }

  /** `_AddFoundEdge` as written: six blocks in sequence, each running when
      the current direction is its own and its face lies strictly inside
      the node (`crosses`); an air cube flips the direction, and the block
      writes when the face's grid index is not the last (`inGrid`).  The
      flipped direction is seen by the blocks that follow. */
  function FoundEdgeBlocks(k: nat, dir: int, mat: Mat, crosses: int -> bool, inGrid: int -> bool): (hits: seq<FaceHit>)
    requires k <= 6
    decreases 6 - k
  {
    if k == 6 then []
    else
      var b := BlockDir(k);
      if dir == b && crosses(b) then
        var d := if mat == 0 then FlipDir(b) else b;
        (if inGrid(b) then [FaceHit(b, d, mat, mat == 0)] else []) + FoundEdgeBlocks(k + 1, d, mat, crosses, inGrid)
      else FoundEdgeBlocks(k + 1, dir, mat, crosses, inGrid)
  }

  function AddFoundEdgeAsWritten(dir: int, mat: Mat, crosses: int -> bool, inGrid: int -> bool): seq<FaceHit> {
    FoundEdgeBlocks(0, dir, mat, crosses, inGrid)
  }

  /** `_AddFoundEdge` as intended: only the block of the face asked for runs. */
  function AddFoundEdge(dir: int, mat: Mat, crosses: int -> bool, inGrid: int -> bool): (hits: seq<FaceHit>)
    ensures |hits| <= 1
    ensures |hits| == 1 <==> 1 <= dir <= 6 && crosses(dir) && inGrid(dir)
    ensures forall h | h in hits :: (h.face == dir && h.mat == mat && h.air == (mat == 0) &&
      SignedDirToChar(h.dir) == SignedDirToChar(dir) && (h.dir == dir <==> mat != 0))
  {
    if 1 <= dir <= 6 && crosses(dir) && inGrid(dir) then
      [FaceHit(dir, if mat == 0 then FlipDir(dir) else dir, mat, mat == 0)]
    else []
  }

  /** For solid cubes, and for the max faces (odd directions), the code as
      written records exactly the intended face. */
  lemma AddFoundEdgeAgrees(dir: int, mat: Mat, crosses: int -> bool, inGrid: int -> bool)
    requires mat != 0 || dir % 2 == 1
    ensures AddFoundEdgeAsWritten(dir, mat, crosses, inGrid) == AddFoundEdge(dir, mat, crosses, inGrid)
  {
    assert FoundEdgeBlocks(6, dir, mat, crosses, inGrid) == [];
    if dir == 5 && mat == 0 {
      assert FoundEdgeBlocks(6, 6, mat, crosses, inGrid) == [];
    }
  }

  /** For an air cube asked for its min face, the flipped direction
      re-triggers the next block and the max face is recorded as well. */
  lemma AddFoundEdgeAirMinFace(dir: int, crosses: int -> bool, inGrid: int -> bool)
    requires dir == 2 || dir == 4 || dir == 6
    requires crosses(dir) && crosses(dir - 1) && inGrid(dir) && inGrid(dir - 1)
    ensures AddFoundEdgeAsWritten(dir, 0, crosses, inGrid) == [FaceHit(dir, dir - 1, 0, true), FaceHit(dir - 1, dir, 0, true)]
    ensures |AddFoundEdge(dir, 0, crosses, inGrid)| == 1
  {
    assert FoundEdgeBlocks(6, dir, 0, crosses, inGrid) == [];
  }

  // ---------------------------------------------------------------- subdivision

  /** The four float tests on a node: terrain, sphere, cube, and the
      sphere's force-division flag. */
  datatype NodeTests = NodeTests(terrain: bool, sphere: bool, cube: bool, forceDivision: bool)

  /** `ProcessNode`'s test for sampling a node as it is: no two of terrain,
      sphere and cube meet in it, and no forcing sphere does. */
  predicate AcceptAsIs(t: NodeTests) {
    !((t.terrain && t.sphere) || (t.terrain && t.cube) || (t.sphere && t.cube) || (t.sphere && t.forceDivision))
  }

  /** `DivideRecalculateNode`'s test for dividing a child further; it is the
      negation of `ProcessNode`'s test, written differently. */
  function DivideChild(t: NodeTests): (r: bool)
    ensures r <==> !AcceptAsIs(t)
  {
    (t.sphere && (t.cube || t.terrain || t.forceDivision)) || (t.cube && t.terrain)
  }

  /** Child `i` of the node is itself divided: only at cube LOD 0, when
      `DivideChild` holds for it. */
  predicate Splits(node: Box, cubeLOD: nat, tests: Box -> NodeTests, i: int)
    requires 0 <= i < 8
  {
    cubeLOD == 0 && DivideChild(tests(ChildBound(node, i)))
  }

  /** `ProcessNode`: the nodes sent to sampling.  Above cube LOD 1 the node
      itself; otherwise the node when it passes `AcceptAsIs`, else its
      children, where each child that `DivideChild` picks is replaced by its
      own eight children at cube LOD 0 (two levels) and kept at LOD 1 (one
      level).  The tests on the grandchildren do not change the result. */
  function ProcessNode(node: Box, cubeLOD: nat, top: NodeTests, tests: Box -> NodeTests): (r: set<Box>)
    ensures cubeLOD > 1 || AcceptAsIs(top) ==> r == {node}
    ensures cubeLOD == 1 && !AcceptAsIs(top) ==> r == set i | 0 <= i < 8 :: ChildBound(node, i)
  {
    if cubeLOD > 1 || AcceptAsIs(top) then {node}
    else
      assert cubeLOD == 1 ==> SplitChildren(node, cubeLOD, tests) == {};
      KeptChildren(node, cubeLOD, tests) + SplitChildren(node, cubeLOD, tests)
  }

  /** The children a divided node sends as they are. */
  function KeptChildren(node: Box, cubeLOD: nat, tests: Box -> NodeTests): set<Box> {
    set i | 0 <= i < 8 && !Splits(node, cubeLOD, tests, i) :: ChildBound(node, i)
  }

  /** The grandchildren a divided node sends in place of the children it
      divides again. */
  function SplitChildren(node: Box, cubeLOD: nat, tests: Box -> NodeTests): set<Box> {
    set i, j | 0 <= i < 8 && 0 <= j < 8 && Splits(node, cubeLOD, tests, i) :: ChildBound(ChildBound(node, i), j)
  }

  /** An edge divisible by four halves to an even edge. */
  lemma QuarterEdge(w: int)
    requires w > 0 && w % 4 == 0
    ensures w % 2 == 0 && w / 2 > 0 && (w / 2) % 2 == 0
  {
    FloorBounds(w, 4);
    DivUnique(w, 2, 2 * (w / 4), 0);
    DivUnique(w / 2, 2, w / 4, 0);
  }

  /** A grandchild lies inside the node and is aligned to a quarter edge. */
  lemma GrandchildFacts(node: Box, i: int, j: int)
    requires Aligned(node) && node.w % 4 == 0 && 0 <= i < 8 && 0 <= j < 8
    ensures Aligned(ChildBound(ChildBound(node, i), j)) && Within(ChildBound(ChildBound(node, i), j), node)
    ensures Within(ChildBound(ChildBound(node, i), j), ChildBound(node, i))
    ensures ChildBound(ChildBound(node, i), j).w * 4 == node.w
  {
    QuarterEdge(node.w);
    ChildBoundInside(node, i);
    ChildBoundInside(ChildBound(node, i), j);
  }

  /** Where an emitted node comes from: child `i` kept (`j == -1`), or
      grandchild `j` of a divided child `i`. */
  lemma EmittedParent(node: Box, cubeLOD: nat, top: NodeTests, tests: Box -> NodeTests, b: Box) returns (i: int, j: int)
    requires !(cubeLOD > 1 || AcceptAsIs(top))
    requires b in ProcessNode(node, cubeLOD, top, tests)
    ensures 0 <= i < 8 && -1 <= j < 8
    ensures j == -1 ==> b == ChildBound(node, i) && !Splits(node, cubeLOD, tests, i)
    ensures j >= 0 ==> Splits(node, cubeLOD, tests, i) && b == ChildBound(ChildBound(node, i), j)
  {
    if b in KeptChildren(node, cubeLOD, tests) {
      i :| 0 <= i < 8 && !Splits(node, cubeLOD, tests, i) && b == ChildBound(node, i);
      j := -1;
    } else {
      assert b in SplitChildren(node, cubeLOD, tests);
      i, j :| 0 <= i < 8 && 0 <= j < 8 && Splits(node, cubeLOD, tests, i) && b == ChildBound(ChildBound(node, i), j);
    }
  }

  /** Every emitted node is an aligned descendant of the node. */
  lemma EmittedShape(node: Box, cubeLOD: nat, top: NodeTests, tests: Box -> NodeTests, b: Box)
    requires Aligned(node) && node.w % 4 == 0
    requires b in ProcessNode(node, cubeLOD, top, tests)
    ensures Within(b, node) && Aligned(b)
    ensures b.w == node.w || b.w * 2 == node.w || (cubeLOD == 0 && b.w * 4 == node.w)
  {
    if !(cubeLOD > 1 || AcceptAsIs(top)) {
      QuarterEdge(node.w);
      var i, j := EmittedParent(node, cubeLOD, top, tests, b);
      if j >= 0 {
        GrandchildFacts(node, i, j);
      } else {
        ChildBoundInside(node, i);
      }
    }
  }

  /** Every point of the node lies in an emitted node. */
  lemma EmittedCover(node: Box, cubeLOD: nat, top: NodeTests, tests: Box -> NodeTests, p: Vec3) returns (b: Box)
    requires Aligned(node) && node.w % 4 == 0 && node.HasPoint(p)
    ensures b in ProcessNode(node, cubeLOD, top, tests) && b.HasPoint(p)
  {
    if cubeLOD > 1 || AcceptAsIs(top) {
      b := node;
    } else {
      QuarterEdge(node.w);
      var i := ChildIdx(node, p);
      ChildIdxHasPoint(node, p);
      var c := ChildBound(node, i);
      if Splits(node, cubeLOD, tests, i) {
        ChildBoundInside(node, i);
        ChildIdxHasPoint(c, p);
        b := ChildBound(c, ChildIdx(c, p));
      } else {
        b := c;
      }
    }
  }

  /** Two emitted nodes sharing a point are the same node. */
  lemma EmittedDisjoint(node: Box, cubeLOD: nat, top: NodeTests, tests: Box -> NodeTests, p: Vec3, b1: Box, b2: Box)
    requires Aligned(node) && node.w % 4 == 0
    requires b1 in ProcessNode(node, cubeLOD, top, tests) && b2 in ProcessNode(node, cubeLOD, top, tests)
    requires b1.HasPoint(p) && b2.HasPoint(p)
    ensures b1 == b2
  {
    if !(cubeLOD > 1 || AcceptAsIs(top)) {
      var i1, j1 := EmittedParent(node, cubeLOD, top, tests, b1);
      var i2, j2 := EmittedParent(node, cubeLOD, top, tests, b2);
      var c1, c2 := ChildBound(node, i1), ChildBound(node, i2);
      QuarterEdge(node.w);
      if j1 >= 0 {
        GrandchildFacts(node, i1, j1);
      }
      if j2 >= 0 {
        GrandchildFacts(node, i2, j2);
      }
      assert c1.HasPoint(p) && c2.HasPoint(p);
      ChildHolding(node, p, i1);
      ChildHolding(node, p, i2);
      if j1 >= 0 && j2 >= 0 {
        ChildBoundInside(node, i1);
        ChildHolding(c1, p, j1);
        ChildHolding(c1, p, j2);
      }
    }
  }

  /** The nodes `ProcessNode` emits tile the node: each is an aligned
      descendant at most two levels down (one above cube LOD 0), every point
      of the node lies in one of them, and no point lies in two. */
  lemma ProcessNodeTiles(node: Box, cubeLOD: nat, top: NodeTests, tests: Box -> NodeTests, p: Vec3)
    requires Aligned(node) && node.w % 4 == 0
    ensures forall b | b in ProcessNode(node, cubeLOD, top, tests) ::
      (Within(b, node) && Aligned(b) && (b.w == node.w || b.w * 2 == node.w || (cubeLOD == 0 && b.w * 4 == node.w)))
    ensures node.HasPoint(p) ==> exists b :: b in ProcessNode(node, cubeLOD, top, tests) && b.HasPoint(p)
    ensures forall b1, b2 | b1 in ProcessNode(node, cubeLOD, top, tests) && b2 in ProcessNode(node, cubeLOD, top, tests) ::
      (b1.HasPoint(p) && b2.HasPoint(p) ==> b1 == b2)
  {
    forall b | b in ProcessNode(node, cubeLOD, top, tests)
      ensures Within(b, node) && Aligned(b) && (b.w == node.w || b.w * 2 == node.w || (cubeLOD == 0 && b.w * 4 == node.w))
    {
      EmittedShape(node, cubeLOD, top, tests, b);
    }
    if node.HasPoint(p) {
      var b := EmittedCover(node, cubeLOD, top, tests, p);
    }
    forall b1, b2 | b1 in ProcessNode(node, cubeLOD, top, tests) && b2 in ProcessNode(node, cubeLOD, top, tests) &&
      b1.HasPoint(p) && b2.HasPoint(p)
      ensures b1 == b2
    {
      EmittedDisjoint(node, cubeLOD, top, tests, p, b1, b2);
    }
  }
}
