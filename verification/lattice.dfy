/** Lattice geometry of the terrain engine.

    Every grid-aligned world coordinate the engine produces is a multiple of
    0.125, so world positions and lengths are modelled as integers counting
    eighths of a world unit.  The engine's float comparisons with a 0.001
    tolerance then become exact integer comparisons.  Cube-grid positions
    (one cell per cube) are plain integers, as in the engine. */
module Lattice {
  import opened Wrappers

  /** Eighths per world unit. */
  const Eighths: int := 8

  /** Edge of a LOD-0 chunk: 16 world units. */
  const ChunkSize: int := 16 * Eighths
  /** Smallest octree node: 0.25 world units. */
  const NodeMinSize: int := 2
  /** Edge of one cube: 1 world unit. */
  const CubeSize: int := 1 * Eighths
  /** Cube-grid origin: 0.125 world units. */
  const CubeGridOffset: int := 1
  /** Terrain heightmap cells per LOD-0 chunk edge are ChunkSize / TerrainResMul world units. */
  const TerrainResMul: int := 2
  /** Chunk distance thresholds, one per LOD. */
  const LODDis: seq<int> := [4, 4, 4, 3, 3, 4]
  const MaxLOD: nat := |LODDis| - 1
  /** Edge of an octree root. */
  const OctreeSize: int := ChunkSize * Pow2(MaxLOD)
  /** Edge of a cube octree root, in cube cells. */
  const CubeOctreeSize: int := OctreeSize / CubeSize

  /** A point: world eighths or cube-grid cells, depending on use. */
  datatype Vec3 = Vec3(x: int, y: int, z: int) {
    function Plus(o: Vec3): Vec3 {
      Vec3(x + o.x, y + o.y, z + o.z)
    }
    function Scale(k: int): Vec3 {
      Vec3(k * x, k * y, k * z)
    }
  }

  /** An axis-aligned cube: min corner (x, y, z) and edge w.  This is both
      `NodeBound` (world eighths) and `NodeBoundInt` (cube cells). */
  datatype Box = Box(x: int, y: int, z: int, w: int) {
    function Min(): Vec3 {
      Vec3(x, y, z)
    }
    /** `MaxPos`: the corner opposite the min corner. */
    function Max(): (m: Vec3)
      ensures m.x - x == w && m.y - y == w && m.z - z == w
    {
      Vec3(x + w, y + w, z + w)
    }
    /** The point lies in the half-open box [min, max). */
    predicate HasPoint(p: Vec3) {
      x <= p.x < x + w && y <= p.y < y + w && z <= p.z < z + w
    }
  }

  /** A node ID: integer coordinates in units of the node's own size, and a LOD. */
  datatype NodeID = NodeID(x: int, y: int, z: int, lod: nat)

  function Pow2(n: nat): (r: nat)
    ensures r >= 1
  {
    if n == 0 then 1 else 2 * Pow2(n - 1)
  }

  /** The lattice constants the engine is configured with. */
  lemma Constants()
    ensures MaxLOD == 5
    ensures OctreeSize == 512 * Eighths
    ensures CubeOctreeSize == 512
    ensures NodeMinSize * 4 == Eighths && ChunkSize / TerrainResMul == 8 * Eighths
  {
  }

  // ---------------------------------------------------------------- arithmetic

  function Abs(a: int): nat {
    if a < 0 then -a else a
  }

  /** Integer division truncating toward zero, as C#'s `/` does. */
  function CsDiv(a: int, b: int): (q: int)
    requires b != 0
    ensures b > 0 && a >= 0 ==> q == a / b
    ensures b > 0 && a < 0 ==> q == -((-a) / b)
  {
    var m := Abs(a) / Abs(b);
    if (a >= 0) == (b > 0) then m else -m
  }

  /** Euclidean division is determined by its quotient-remainder equation. */
  lemma DivUnique(a: int, b: int, k: int, m: int)
    requires b > 0 && a == b * k + m && 0 <= m < b
    ensures a / b == k && a % b == m
  {
    var q, r := a / b, a % b;
    assert a == b * q + r;
    assert b * (q - k) == m - r;
    if q > k {
      MulAtLeast(b, q - k);
      assert false;
    } else if q < k {
      MulAtLeast(b, k - q);
      assert false;
    }
  }

  lemma MulAtLeast(b: int, n: int)
    requires b > 0 && n >= 1
    ensures b * n >= b
  {
  }

  /** Multiplying by a positive number preserves order both ways. */
  lemma MulLe(a: int, b: int, s: int)
    requires s > 0
    ensures a <= b <==> a * s <= b * s
  {
    assert b * s - a * s == (b - a) * s;
    if a <= b {
      assert (b - a) * s >= 0;
    } else {
      MulAtLeast(s, a - b);
      assert s * (a - b) == (a - b) * s;
    }
  }

  /** The Euclidean floor multiple lies within one `s` below `v`. */
  lemma FloorBounds(v: int, s: int)
    requires s > 0
    ensures (v / s) * s <= v < (v / s) * s + s
    ensures v - (v / s) * s == v % s
  {
    assert v == s * (v / s) + v % s;
    assert s * (v / s) == (v / s) * s;
  }

  /** `FloorToMultiple`: rounds `val` down to a multiple of `size`, written
      with C#'s truncating division; for a positive size the result is the
      floor multiple of Euclidean division, so it lies within one `size`
      below `val`. */
  function FloorToMultiple(val: int, size: int): (r: int)
    requires size != 0
    ensures size > 0 ==> r == (val / size) * size && r <= val < r + size && r % size == 0
  {
    var r := if val >= 0 then CsDiv(val, size) * size else CsDiv(val - size + 1, size) * size;
    if size < 0 then r
    else
      FloorToMultipleIsFloor(val, size);
      FloorBounds(val, size);
      r
  }

  lemma FloorToMultipleIsFloor(val: int, size: int)
    requires size > 0
    ensures (if val >= 0 then CsDiv(val, size) * size else CsDiv(val - size + 1, size) * size) == (val / size) * size
    ensures ((val / size) * size) % size == 0
  {
    var q, m := val / size, val % size;
    FloorBounds(val, size);
    assert (val / size) * size == size * q + 0;
    DivUnique((val / size) * size, size, q, 0);
    if val < 0 {
      assert size - 1 - val == size * (-q) + (size - 1 - m);
      DivUnique(size - 1 - val, size, -q, size - 1 - m);
    }
  }

  /** No multiple of `size` lies strictly between `FloorToMultiple(val, size)` and `val`. */
  lemma FloorToMultipleIsGreatest(val: int, size: int, k: int)
    requires size > 0 && k * size <= val
    ensures k * size <= FloorToMultiple(val, size)
  {
    var q := val / size;
    FloorBounds(val, size);
    assert (q + 1) * size == q * size + size;
    MulLe(q + 1, k, size);
    MulLe(k, q, size);
  }

  // ---------------------------------------------------------------- LOD sizes

  /** Edge of a chunk node at LOD `lod`. */
  function LodSize(lod: nat): (w: int)
    ensures w >= ChunkSize
  {
    ChunkSize * Pow2(lod)
  }

  /** The exponent `k` with `Pow2(k) == n`, if there is one. */
  function Log2Exact(n: int): (r: Option<nat>)
    decreases if n > 0 then n else 0
    ensures r.Some? ==> Pow2(r.value) == n
  {
    if n == 1 then Some(0)
    else if n > 1 && n % 2 == 0 then
      match Log2Exact(n / 2)
      case Some(k) => Some(k + 1)
      case None => None
    else None
  }

  lemma {:induction false} Log2ExactOfPow2(k: nat)
    ensures Log2Exact(Pow2(k)) == Some(k)
  {
    if k > 0 {
      Log2ExactOfPow2(k - 1);
      assert Pow2(k) / 2 == Pow2(k - 1);
    }
  }

  /** `Log2Exact` fails exactly on numbers that are not powers of two. */
  lemma {:induction false} Log2ExactComplete(n: int)
    ensures Log2Exact(n).None? <==> forall k: nat :: Pow2(k) != n
  {
    if Log2Exact(n).Some? {
      assert Pow2(Log2Exact(n).value) == n;
    } else {
      forall k: nat ensures Pow2(k) != n {
        if Pow2(k) == n {
          Log2ExactOfPow2(k);
        }
      }
    }
  }

  /** The LOD whose chunk size is `w`, if `w` is one. */
  function LodOfSize(w: int): (r: Option<nat>)
    ensures r.Some? ==> LodSize(r.value) == w
    ensures r.None? ==> forall k: nat :: LodSize(k) != w
  {
    if w > 0 && w % ChunkSize == 0 then
      var n := w / ChunkSize;
      FloorBounds(w, ChunkSize);
      assert ChunkSize * n == w;
      match Log2Exact(n)
      case Some(k) => assert LodSize(k) == ChunkSize * Pow2(k); Some(k)
      case None =>
        NoLodForNonPower(n, w);
        None
    else
      LodSizeAligned(w);
      None
  }

  lemma NoLodForNonPower(n: int, w: int)
    requires ChunkSize * n == w && Log2Exact(n).None?
    ensures forall k: nat :: LodSize(k) != w
  {
    Log2ExactComplete(n);
    LodSizeInjective(n, w);
    forall k: nat ensures LodSize(k) != w {
      assert Pow2(k) != n;
    }
  }

  lemma LodSizeInjective(n: int, w: int)
    requires ChunkSize * n == w
    ensures forall k: nat :: LodSize(k) == w ==> Pow2(k) == n
  {
    forall k: nat | LodSize(k) == w ensures Pow2(k) == n {
      MulLe(Pow2(k), n, ChunkSize);
      MulLe(n, Pow2(k), ChunkSize);
    }
  }

  lemma LodSizeAligned(w: int)
    requires !(w > 0 && w % ChunkSize == 0)
    ensures forall k: nat :: LodSize(k) != w
  {
    forall k: nat ensures LodSize(k) != w {
      DivUnique(LodSize(k), ChunkSize, Pow2(k), 0);
    }
  }

  lemma LodOfLodSize(k: nat)
    ensures LodOfSize(LodSize(k)) == Some(k)
  {
    assert LodSize(k) / ChunkSize == Pow2(k);
    Log2ExactOfPow2(k);
  }

  lemma {:induction false} Pow2Add(i: nat, j: nat)
    ensures Pow2(i + j) == Pow2(i) * Pow2(j)
  {
    if j > 0 {
      Pow2Add(i, j - 1);
      assert Pow2(i + j) == 2 * Pow2(i + j - 1);
      assert Pow2(i) * Pow2(j) == Pow2(i) * (2 * Pow2(j - 1)) == 2 * (Pow2(i) * Pow2(j - 1));
    }
  }

  lemma {:induction false} Pow2Mono(i: nat, j: nat)
    requires i < j
    ensures Pow2(i) < Pow2(j)
  {
    if j - 1 > i {
      Pow2Mono(i, j - 1);
    }
  }

  /** A node edge the octree can hold: NodeMinSize times a power of two. */
  predicate ValidSize(s: int) {
    s >= NodeMinSize && s % NodeMinSize == 0 && Log2Exact(s / NodeMinSize).Some?
  }

  /** The exponent of a valid node edge: `s == NodeMinSize * 2^SizeExp(s)`. */
  function SizeExp(s: int): (k: nat)
    requires ValidSize(s)
    ensures s == NodeMinSize * Pow2(k)
  {
    FloorBounds(s, NodeMinSize);
    Log2Exact(s / NodeMinSize).value
  }

  lemma ValidOfExp(k: nat)
    ensures ValidSize(NodeMinSize * Pow2(k)) && SizeExp(NodeMinSize * Pow2(k)) == k
  {
    DivUnique(NodeMinSize * Pow2(k), NodeMinSize, Pow2(k), 0);
    Log2ExactOfPow2(k);
  }

  /** A chunk edge is a valid node edge. */
  lemma LodSizeValid(k: nat)
    ensures ValidSize(LodSize(k))
  {
    Pow2Add(6, k);
    assert Pow2(6) == 64;
    assert LodSize(k) == NodeMinSize * Pow2(6 + k);
    ValidOfExp(6 + k);
  }

  /** Halving a valid edge above the minimum gives a valid edge. */
  lemma HalfValid(s: int)
    requires ValidSize(s) && s > NodeMinSize
    ensures s % 2 == 0 && s / 2 >= NodeMinSize && ValidSize(s / 2) && SizeExp(s / 2) + 1 == SizeExp(s)
  {
    var k := SizeExp(s);
    assert k > 0;
    assert s == 2 * (NodeMinSize * Pow2(k - 1));
    ValidOfExp(k - 1);
  }

  /** A smaller valid edge divides a larger one. */
  lemma ValidDivides(a: int, b: int)
    requires ValidSize(a) && ValidSize(b) && a <= b
    ensures b % a == 0 && b / a >= 1
  {
    var i, j := SizeExp(a), SizeExp(b);
    if j < i {
      Pow2Mono(j, i);
      MulLe(Pow2(i), Pow2(j), NodeMinSize);
    }
    Pow2Add(i, j - i);
    assert b == a * Pow2(j - i);
    DivUnique(b, a, Pow2(j - i), 0);
  }

  /** Valid edges are ordered as their exponents. */
  lemma SizeOrder(a: int, b: int)
    requires ValidSize(a) && ValidSize(b)
    ensures a < b <==> SizeExp(a) < SizeExp(b)
  {
    var i, j := SizeExp(a), SizeExp(b);
    if i < j {
      Pow2Mono(i, j);
      MulLe(Pow2(j), Pow2(i), NodeMinSize);
    } else if j < i {
      Pow2Mono(j, i);
      MulLe(Pow2(i), Pow2(j), NodeMinSize);
    }
  }

  /** A valid edge below another is at most half of it. */
  lemma BelowHalf(a: int, b: int)
    requires ValidSize(a) && ValidSize(b) && a < b
    ensures b > NodeMinSize && ValidSize(b / 2) && a <= b / 2
  {
    SizeOrder(a, b);
    HalfValid(b);
    SizeOrder(a, b / 2);
  }

  /** Two distinct multiples of `t` are at least `t` apart. */
  lemma MultipleGap(a: int, b: int, t: int)
    requires t > 0 && a % t == 0 && b % t == 0 && a < b
    ensures a + t <= b
  {
    FloorBounds(a, t);
    FloorBounds(b, t);
    MulLe(a / t + 1, b / t, t);
  }

  /** A multiple of a multiple of `t` is a multiple of `t`. */
  lemma ModTrans(a: int, h: int, t: int)
    requires t > 0 && h > 0 && a % h == 0 && h % t == 0
    ensures a % t == 0
  {
    FloorBounds(a, h);
    FloorBounds(h, t);
    var p, q := a / h, h / t;
    assert a == (q * t) * p == t * (q * p);
    DivUnique(a, t, q * p, 0);
  }

  // ---------------------------------------------------------------- octants

  /** The octant (i, j, k) of child index `i * 4 + j * 2 + k`. */
  function Octant(idx: int): (o: Vec3)
    requires 0 <= idx < 8
    ensures 0 <= o.x < 2 && 0 <= o.y < 2 && 0 <= o.z < 2
    ensures OctantIndex(o) == idx
  {
    var x := if idx >= 4 then 1 else 0;
    var y := if idx - 4 * x >= 2 then 1 else 0;
    Vec3(x, y, idx - 4 * x - 2 * y)
  }

  /** The octant in the engine's own arithmetic: `(j / 4, (j % 4) / 2, j % 2)`. */
  lemma OctantDivMod(idx: int)
    requires 0 <= idx < 8
    ensures Octant(idx) == Vec3(idx / 4, (idx % 4) / 2, idx % 2)
  {
  }

  /** The child index `x * 4 + y * 2 + z` of an octant. */
  function OctantIndex(o: Vec3): int {
    o.x * 4 + o.y * 2 + o.z
  }

  /** Index and octant are inverse on the unit cube. */
  lemma OctantRoundTrip(o: Vec3)
    requires 0 <= o.x < 2 && 0 <= o.y < 2 && 0 <= o.z < 2
    ensures 0 <= OctantIndex(o) < 8 && Octant(OctantIndex(o)) == o
  {
  }

  // ---------------------------------------------------------------- octant geometry

  /** The bound of child `idx`: octant `Octant(idx)` of `b`, half its edge. */
  function ChildBound(b: Box, idx: int): (c: Box)
    requires 0 <= idx < 8
    ensures c.w == b.w / 2
  {
    OctantBox(b, Octant(idx))
  }

  /** Octant `o` of `b`: min corner `b.Min() + o * (b.w / 2)`. */
  function OctantBox(b: Box, o: Vec3): (c: Box)
    ensures c.w == b.w / 2
  {
    var h := b.w / 2;
    Box(b.x + Step(o.x, h), b.y + Step(o.y, h), b.z + Step(o.z, h), h)
  }

  /** `bit * h` for an octant bit, written without multiplication. */
  function Step(bit: int, h: int): int {
    if bit == 0 then 0 else h
  }

  lemma StepMul(bit: int, h: int)
    requires 0 <= bit < 2
    ensures Step(bit, h) == bit * h
  {
  }

  /** The min corner is a multiple of the edge. */
  predicate Aligned(b: Box) {
    b.w > 0 && b.x % b.w == 0 && b.y % b.w == 0 && b.z % b.w == 0
  }

  /** Per axis 0 below the centre of `b`, 1 from the centre on. */
  function HalfOf(b: Box, p: Vec3): (o: Vec3)
    ensures 0 <= o.x < 2 && 0 <= o.y < 2 && 0 <= o.z < 2
  {
    var h := b.w / 2;
    Vec3(if p.x < b.x + h then 0 else 1, if p.y < b.y + h then 0 else 1, if p.z < b.z + h then 0 else 1)
  }

  /** The child index the descent takes toward point `p`. */
  function ChildIdx(b: Box, p: Vec3): (idx: int)
    ensures 0 <= idx < 8 && Octant(idx) == HalfOf(b, p)
  {
    OctantRoundTrip(HalfOf(b, p));
    OctantIndex(HalfOf(b, p))
  }

  /** The child the descent picks holds the point the parent holds. */
  lemma ChildIdxHasPoint(b: Box, p: Vec3)
    requires b.w > 0 && b.w % 2 == 0 && b.HasPoint(p)
    ensures ChildBound(b, ChildIdx(b, p)).HasPoint(p)
  {
    AxisStep(b.x, b.w, p.x);
    AxisStep(b.y, b.w, p.y);
    AxisStep(b.z, b.w, p.z);
  }

  /** A point of child `idx` sends the descent into child `idx`. */
  lemma ChildIdxOfChildPoint(b: Box, idx: int, p: Vec3)
    requires 0 <= idx < 8 && b.w > 0 && b.w % 2 == 0 && ChildBound(b, idx).HasPoint(p)
    ensures ChildIdx(b, p) == idx
  {
    var o := Octant(idx);
    assert HalfOf(b, p) == o;
    assert Octant(ChildIdx(b, p)) == o;
  }

  /** On one axis, the half the descent picks holds the coordinate. */
  lemma AxisStep(lo: int, w: int, p: int)
    requires w > 0 && w % 2 == 0 && lo <= p < lo + w
    ensures var s := Step(if p < lo + w / 2 then 0 else 1, w / 2); lo + s <= p < lo + s + w / 2
  {
  }

  /** A child of an aligned box of even edge is aligned to the half edge
      and lies inside the parent. */
  lemma ChildBoundInside(b: Box, idx: int)
    requires 0 <= idx < 8 && Aligned(b) && b.w % 2 == 0
    ensures Aligned(ChildBound(b, idx)) && Within(ChildBound(b, idx), b)
  {
    var o := Octant(idx);
    AxisChild(b.x, b.w, o.x);
    AxisChild(b.y, b.w, o.y);
    AxisChild(b.z, b.w, o.z);
  }

  /** On one axis, either half of an aligned even interval is aligned to the
      half edge and lies inside the interval. */
  lemma AxisChild(a: int, w: int, bit: int)
    requires w > 0 && w % 2 == 0 && a % w == 0 && 0 <= bit < 2
    ensures (a + Step(bit, w / 2)) % (w / 2) == 0
    ensures a <= a + Step(bit, w / 2) && a + Step(bit, w / 2) + w / 2 <= a + w
  {
    var h := w / 2;
    FloorBounds(a, w);
    DivUnique(a, h, 2 * (a / w), 0);
    if bit == 1 {
      DivUnique(a + h, h, 2 * (a / w) + 1, 0);
    }
  }

  // ---------------------------------------------------------------- IDs and bounds

  /** `NodeID` to `NodeBound`: edge `ChunkSize * 2^lod`, min `id * edge`. */
  function IdToBound(id: NodeID): (b: Box)
    ensures b.w == LodSize(id.lod)
    ensures b.x == id.x * b.w && b.y == id.y * b.w && b.z == id.z * b.w
  {
    var w := LodSize(id.lod);
    Box(id.x * w, id.y * w, id.z * w, w)
  }

  /** `NodeBound` to `NodeID`: the floor of min / edge per axis, and the LOD
      whose chunk size is the edge.  The engine converts every node bound,
      so a node below chunk size gets a negative LOD; `NodeID` here has a
      non-negative LOD, so such a bound has no ID and its node is keyed by
      its bound instead. */
  function BoundToId(b: Box): (r: Option<NodeID>)
    ensures r.Some? ==> LodSize(r.value.lod) == b.w && IdToBound(r.value).HasPoint(b.Min())
    ensures r.None? <==> forall k: nat :: LodSize(k) != b.w
  {
    match LodOfSize(b.w)
    case None => None
    case Some(k) =>
      var id := NodeID(b.x / b.w, b.y / b.w, b.z / b.w, k);
      FloorBounds(b.x, b.w);
      FloorBounds(b.y, b.w);
      FloorBounds(b.z, b.w);
      Some(id)
  }

  /** ID to bound to ID is the identity. */
  lemma IdBoundRoundTrip(id: NodeID)
    ensures BoundToId(IdToBound(id)) == Some(id)
  {
    var b := IdToBound(id);
    LodOfLodSize(id.lod);
    DivUnique(b.x, b.w, id.x, 0);
    DivUnique(b.y, b.w, id.y, 0);
    DivUnique(b.z, b.w, id.z, 0);
    assert NodeID(b.x / b.w, b.y / b.w, b.z / b.w, id.lod) == id;
  }

  /** `NodeID + Vector3`: shifts the coordinates and keeps the LOD. */
  function Shift(id: NodeID, d: Vec3): (r: NodeID)
    ensures r.lod == id.lod
    ensures IdToBound(r).Min() == IdToBound(id).Min().Plus(d.Scale(IdToBound(id).w))
  {
    var w := LodSize(id.lod);
    assert (id.x + d.x) * w == id.x * w + w * d.x;
    assert (id.y + d.y) * w == id.y * w + w * d.y;
    assert (id.z + d.z) * w == id.z * w + w * d.z;
    NodeID(id.x + d.x, id.y + d.y, id.z + d.z, id.lod)
  }

  /** `NodeID + NodeID`: adds all four components. */
  function AddIds(a: NodeID, b: NodeID): (r: NodeID)
    ensures r.lod == a.lod + b.lod
    ensures b.lod == 0 ==> r == Shift(a, Vec3(b.x, b.y, b.z))
  {
    NodeID(a.x + b.x, a.y + b.y, a.z + b.z, a.lod + b.lod)
  }

  /** `NodeBoundInt.Equals`: exact, componentwise. */
  predicate SameBox(a: Box, b: Box)
    ensures SameBox(a, b) <==> a == b
  {
    a.x == b.x && a.y == b.y && a.z == b.z && a.w == b.w
  }

  /** Box `b` lies inside box `a`. */
  predicate Within(b: Box, a: Box) {
    a.x <= b.x && b.x + b.w <= a.x + a.w &&
    a.y <= b.y && b.y + b.w <= a.y + a.w &&
    a.z <= b.z && b.z + b.w <= a.z + a.w
  }

  /** `OctreeUtil.Contains(a, b)`: false if b is larger; true if equal; else
      the per-axis tolerance tests, which on the lattice are `<=`. */
  function Contains(a: Box, b: Box): (r: bool)
    ensures r <==> b.w <= a.w && Within(b, a)
  {
    if b.w > a.w then false
    else if a == b then true
    else (a.x <= b.x && a.x + a.w >= b.x + b.w
      && a.y <= b.y && a.y + a.w >= b.y + b.w
      && a.z <= b.z && a.z + a.w >= b.z + b.w)
  }

  lemma ContainsReflexive(a: Box)
    ensures Contains(a, a)
  {
  }

  lemma ContainsTransitive(a: Box, b: Box, c: Box)
    requires Contains(a, b) && Contains(b, c)
    ensures Contains(a, c)
  {
  }

  /** `GetNodeID`: the ID at `lod` of the node containing `pos`. */
  function GetNodeID(pos: Vec3, lod: nat): (id: NodeID)
    requires lod <= MaxLOD
    ensures id.lod == lod && IdToBound(id).HasPoint(pos)
  {
    var size := LodSize(lod);
    FloorBounds(pos.x, size);
    FloorBounds(pos.y, size);
    FloorBounds(pos.z, size);
    NodeID(pos.x / size, pos.y / size, pos.z / size, lod)
  }

  /** The node ID of a LOD is unique: an ID whose bound holds `pos` is `GetNodeID`. */
  lemma GetNodeIDUnique(pos: Vec3, id: NodeID)
    requires id.lod <= MaxLOD && IdToBound(id).HasPoint(pos)
    ensures GetNodeID(pos, id.lod) == id
  {
    var w := LodSize(id.lod);
    DivUnique(pos.x, w, id.x, pos.x - id.x * w);
    DivUnique(pos.y, w, id.y, pos.y - id.y * w);
    DivUnique(pos.z, w, id.z, pos.z - id.z * w);
  }

  /** `GetChunkNodeBound`: the chunk-sized box at `lod` holding `pos`, its
      min aligned to its size. */
  function GetChunkNodeBound(pos: Vec3, lod: nat): (b: Box)
    requires lod <= MaxLOD
    ensures b.w == LodSize(lod) && b.HasPoint(pos)
    ensures b.x % b.w == 0 && b.y % b.w == 0 && b.z % b.w == 0
  {
    var size := Pow2(lod) * ChunkSize;
    Box(FloorToMultiple(pos.x, size), FloorToMultiple(pos.y, size), FloorToMultiple(pos.z, size), size)
  }

  /** The chunk bound is the bound of the node ID of the same point and LOD. */
  lemma ChunkBoundIsNodeBound(pos: Vec3, lod: nat)
    requires lod <= MaxLOD
    ensures GetChunkNodeBound(pos, lod) == IdToBound(GetNodeID(pos, lod))
  {
  }

  /** Flooring a position to whole world units first (as `FindChunk` does) does
      not change its chunk bound. */
  lemma ChunkBoundIgnoresUnitFloor(pos: Vec3, lod: nat)
    requires lod <= MaxLOD
    ensures GetChunkNodeBound(Vec3(FloorToMultiple(pos.x, Eighths), FloorToMultiple(pos.y, Eighths),
              FloorToMultiple(pos.z, Eighths)), lod) == GetChunkNodeBound(pos, lod)
  {
    var size := LodSize(lod);
    assert size == Eighths * (16 * Pow2(lod));
    FloorFloor(pos.x, 16 * Pow2(lod));
    FloorFloor(pos.y, 16 * Pow2(lod));
    FloorFloor(pos.z, 16 * Pow2(lod));
  }

  lemma FloorFloor(v: int, n: int)
    requires n > 0
    ensures FloorToMultiple(FloorToMultiple(v, Eighths), Eighths * n) == FloorToMultiple(v, Eighths * n)
  {
    var s := Eighths * n;
    var f := FloorToMultiple(v, Eighths);
    var k := v / s;
    var g := FloorToMultiple(v, s);
    assert g == k * s;
    assert k * s == (n * k) * Eighths;
    FloorToMultipleIsGreatest(v, Eighths, n * k);
    assert g <= f <= v < g + s;
    assert f == s * k + (f - g);
    DivUnique(f, s, k, f - g);
  }

  /** `SignedDirToChar`: directions 1–2 are x, 3–4 are y, the rest z. */
  function SignedDirToChar(dir: int): (c: char)
    ensures c == 'x' <==> dir <= 2
    ensures c == 'y' <==> 3 <= dir <= 4
    ensures c == 'z' <==> dir >= 5
  {
    if dir <= 2 then 'x' else if dir <= 4 then 'y' else 'z'
  }

  /** The unit vector of axis `c`. */
  function AxisVec(c: char): Vec3 {
    if c == 'x' then Vec3(1, 0, 0) else if c == 'y' then Vec3(0, 1, 0) else Vec3(0, 0, 1)
  }

  /** The child-index bit of an axis: x = 4, y = 2, z = 1. */
  function AxisBit(c: char): int {
    if c == 'x' then 4 else if c == 'y' then 2 else 1
  }

  // ---------------------------------------------------------------- cube grid

  /** `CubeParam`: the world/cube-grid transforms exist only after `Initialize`. */
  datatype CubeParam = CubeParam(initialized: bool, cubeOctreeSize: int)

  const Uninitialized: CubeParam := CubeParam(false, 0)

  /** `CubeParam.Initialize`: the cube octree edge is OctreeSize / CubeSize cells. */
  function InitializeCubeParam(): (p: CubeParam)
    ensures p.initialized && p.cubeOctreeSize * CubeSize == OctreeSize
  {
    CubeParam(true, OctreeSize / CubeSize)
  }

  /** The affine map world -> grid: subtract `offset`, divide by `cell`. */
  datatype GridTransform = GridTransform(offset: int, cell: int)

  /** `WorldToCubeGrid`: throws before `Initialize`. */
  function WorldToCubeGrid(p: CubeParam): (r: Result<GridTransform>)
    ensures r.Failure? <==> !p.initialized
    ensures r.Success? ==> r.value == GridTransform(CubeGridOffset, CubeSize)
  {
    if !p.initialized then Failure(NotInitialized) else Success(GridTransform(CubeGridOffset, CubeSize))
  }

  /** `CubeGridToWorld`, the inverse transform: throws before `Initialize`. */
  function CubeGridToWorld(p: CubeParam): (r: Result<GridTransform>)
    ensures r.Failure? <==> !p.initialized
    ensures r.Success? ==> r.value == GridTransform(CubeGridOffset, CubeSize)
  {
    if !p.initialized then Failure(NotInitialized) else Success(GridTransform(CubeGridOffset, CubeSize))
  }

  function FloorCell(t: GridTransform, w: int): int
    requires t.cell > 0
  {
    (w - t.offset) / t.cell
  }

  /** `GetCubePos`: the cube cell holding a world point. */
  function GetCubePos(p: CubeParam, w: Vec3): (r: Result<Vec3>)
    ensures r.Failure? <==> !p.initialized
    ensures r.Success? ==> CellMin(r.value).x <= w.x < CellMin(r.value).x + CubeSize
    ensures r.Success? ==> CellMin(r.value).y <= w.y < CellMin(r.value).y + CubeSize
    ensures r.Success? ==> CellMin(r.value).z <= w.z < CellMin(r.value).z + CubeSize
  {
    var t :- WorldToCubeGrid(p);
    Success(Vec3(FloorCell(t, w.x), FloorCell(t, w.y), FloorCell(t, w.z)))
  }

  /** The world position of a cube cell's min corner. */
  function CellMin(g: Vec3): Vec3 {
    Vec3(g.x * CubeSize + CubeGridOffset, g.y * CubeSize + CubeGridOffset, g.z * CubeSize + CubeGridOffset)
  }

  /** `GetWorldPos`: a cube cell's min corner in world space. */
  function GetWorldPos(p: CubeParam, g: Vec3): (r: Result<Vec3>)
    ensures r.Failure? <==> !p.initialized
    ensures r.Success? ==> r.value == CellMin(g)
  {
    var t :- CubeGridToWorld(p);
    Success(Vec3(g.x * t.cell + t.offset, g.y * t.cell + t.offset, g.z * t.cell + t.offset))
  }

  /** Grid to world to grid is the identity once initialised. */
  lemma CubeGridRoundTrip(p: CubeParam, g: Vec3)
    requires p.initialized
    ensures GetWorldPos(p, g).Success?
    ensures GetCubePos(p, GetWorldPos(p, g).value) == Success(g)
  {
    DivUnique(g.x * CubeSize, CubeSize, g.x, 0);
    DivUnique(g.y * CubeSize, CubeSize, g.y, 0);
    DivUnique(g.z * CubeSize, CubeSize, g.z, 0);
  }
}
