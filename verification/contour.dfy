/** Quad and triangle emission of `OctreeEdgeIterator`: at each minimal
    edge the traversal reaches, `CreateQuad` reads the edge's sign from the
    smallest of the four leaves, fills in a vertex for any leaf that has
    none, and writes one or two triangles over the leaves' vertices into a
    mesh stream.

    Leaf data lives in a store keyed by node bound (a bound names one node
    of the world, as the engine's object references do).  The floating
    point geometry the engine computes on the way (plane normals, sphere
    and terrain normals, the averaged vertex and its normal, the steepness
    test) is a parameter of the model, so every property here holds
    whatever those computations return. */
module Contouring {
  import opened Lattice
  import opened CubeOctrees
  import opened Surfaces
  import opened SpatialOctree
  import opened LeafNodes
  import opened MeshStreams
  import opened ContourTables
  import opened Traversal

  /** The leaf data of the world, by node bound. */
  type Store = map<Box, LeafNodeData>

  /** Every leaf has its eight corner slots. */
  predicate StoreOk(s: Store) {
    forall b | b in s :: LeafOk(s[b])
  }

  /** The floating point computations the contouring stage makes, taken as
      given: `new Plane(a, b, c).normal`, `SphereSDF.Normal`,
      `WorldData.GetNormal(x, z, size)`, the test `n.y < 0.2f`, and the
      averaged vertex and normalised normal of `_GetMidPosNormal`. */
  datatype Geometry = Geometry(
    planeNormal: (Vec3, Vec3, Vec3) -> Vec3,
    sphereNormal: (SphereSDF, Vec3) -> Vec3,
    terrainNormal: (int, int, int) -> Vec3,
    steep: Vec3 -> bool,
    midPosNormal: (seq<Vec3>, seq<Vec3>) -> (Vec3, Vec3))

  // ---------------------------------------------------------------- the four leaves

  /** `EdgeProcData.GetNode(k)` for k in 0..3: LT, RT, LB, RB. */
  function NodeBox(q: Quad, k: int): Box
    requires 0 <= k < 4
  {
    if k == 0 then q.b1 else if k == 1 then q.b2 else if k == 2 then q.b3 else q.b4
  }

  /** `b` is one of the quad's leaves. */
  predicate InQuad(q: Quad, b: Box) {
    b == q.b1 || b == q.b2 || b == q.b3 || b == q.b4
  }

  /** The quad's leaves all have data with eight corners. */
  predicate QuadOk(s: Store, q: Quad) {
    q.b1 in s && q.b2 in s && q.b3 in s && q.b4 in s &&
    LeafOk(s[q.b1]) && LeafOk(s[q.b2]) && LeafOk(s[q.b3]) && LeafOk(s[q.b4])
  }

  // ---------------------------------------------------------------- edge sign

  /** The leaf `GetEdgeSign` reads: the first of RB, LT, RT, LB whose size
      is within the float tolerance of all the others.  Sizes are multiples
      of a quarter unit, so `a < b + 0.001` is `a <= b`.  Whatever the ties,
      the leaf read is one of the smallest. */
  function SmallestNode(q: Quad): (k: int)
    ensures 0 <= k < 4
    ensures forall j | 0 <= j < 4 :: NodeBox(q, k).w <= NodeBox(q, j).w
  {
    var w1, w2, w3, w4 := q.b1.w, q.b2.w, q.b3.w, q.b4.w;
    if w4 <= w1 && w4 <= w2 && w4 <= w3 then 3
    else if w1 <= w2 && w1 <= w3 && w1 <= w4 then 0
    else if w2 <= w1 && w2 <= w3 && w2 <= w4 then 1
    else 2
  }

  /** The sign of an edge from its two end sources: 1 when the first end is
      solid and the second air, -1 for the reverse, 0 when either end is
      invalid (255) or both are alike. */
  function SignOf(c1: SDFInfo, c2: SDFInfo): (r: int)
    ensures r == 1 <==> c1.mat != 0 && c1.mat != Unset && c2.mat == 0
    ensures r == -1 <==> c1.mat == 0 && c2.mat != 0 && c2.mat != Unset
    ensures r == 0 || r == 1 || r == -1
  {
    if c1.mat == Unset || c2.mat == Unset || (c1.mat != 0 && c2.mat != 0) then 0
    else if c1.mat == 0 && c2.mat != 0 then -1
    else if c1.mat != 0 && c2.mat == 0 then 1
    else 0
  }

  /** Reading the edge from its other end negates the sign. */
  lemma SignAntisymmetric(c1: SDFInfo, c2: SDFInfo)
    ensures SignOf(c2, c1) == -SignOf(c1, c2)
  {
  }

  /** The source that decides the edge: the end of higher edit order, the
      second end on a tie. */
  function Dominant(c1: SDFInfo, c2: SDFInfo): (r: SDFInfo)
    ensures r == c1 || r == c2
    ensures r.order >= c1.order && r.order >= c2.order
    ensures c1.order == c2.order ==> r == c2
  {
    if c1.order > c2.order then c1 else c2
  }

  /** The material the surface of a crossed edge takes: the second end's,
      unless that end is air. */
  function EdgeMat(c1: SDFInfo, c2: SDFInfo): (m: Mat)
    ensures m == c1.mat || m == c2.mat
    ensures SignOf(c1, c2) == 1 ==> m == c1.mat
    ensures SignOf(c1, c2) == -1 ==> m == c2.mat
  {
    if c2.mat == 0 then c1.mat else c2.mat
  }

  /** On a crossed edge the surface material is the solid end's: never air
      and never the invalid mark. */
  lemma EdgeMatSolid(c1: SDFInfo, c2: SDFInfo)
    requires SignOf(c1, c2) != 0
    ensures EdgeMat(c1, c2) != 0 && EdgeMat(c1, c2) != Unset
  {
  }

  /** What `GetEdgeSign` finds: the sign, the kind of the deciding source,
      both end sources, and (for the contract) which leaf was read and at
      which two of its corners. */
  datatype EdgeSign = EdgeSign(
    sign: int, isCube: bool, isSphere: bool, c1: SDFInfo, c2: SDFInfo,
    node: int, end1: Vec3, end2: Vec3)

  /** `GetEdgeSign`: reads the two ends of the shared edge from a smallest
      leaf.  An axis character other than x and y reads the z corners. */
  function GetEdgeSign(s: Store, q: Quad): (e: EdgeSign)
    requires QuadOk(s, q)
    ensures e.sign == SignOf(e.c1, e.c2)
    ensures e.isCube <==> Dominant(e.c1, e.c2).kind == CubeType
    ensures e.isSphere <==> Dominant(e.c1, e.c2).kind == SphereType
  {
    var k := SmallestNode(q);
    var a := AxisOf(q.dir);
    var d := s[NodeBox(q, k)];
    EdgeCornersOnEdge(k, a);
    var p1, p2 := EdgeCorners(k, a).0, EdgeCorners(k, a).1;
    var c1, c2 := GetCornerData(d, p1).value, GetCornerData(d, p2).value;
    var si := Dominant(c1, c2);
    EdgeSign(SignOf(c1, c2), si.kind == CubeType, si.kind == SphereType, c1, c2, k, p1, p2)
  }

  /** Where `GetEdgeSign` reads: a smallest leaf, at the two ends of the
      edge the quad shares: the first end in the corner of the leaf that
      touches the edge, the second a step along the edge axis from it. */
  lemma EdgeSignReads(s: Store, q: Quad)
    requires QuadOk(s, q)
    ensures var e := GetEdgeSign(s, q);
      0 <= e.node < 4 && forall j | 0 <= j < 4 :: NodeBox(q, e.node).w <= NodeBox(q, j).w
    ensures var e := GetEdgeSign(s, q);
      0 <= OctantIndex(e.end1) < 8 && 0 <= OctantIndex(e.end2) < 8 &&
      e.c1 == s[NodeBox(q, e.node)].corners[OctantIndex(e.end1)] &&
      e.c2 == s[NodeBox(q, e.node)].corners[OctantIndex(e.end2)]
    ensures var e := GetEdgeSign(s, q);
      Quadrant(e.node, AxisOf(q.dir)) + Pack(e.end1) == Stride(HAxis(AxisOf(q.dir))) + Stride(VAxis(AxisOf(q.dir))) &&
      Pack(e.end2) == Pack(e.end1) + Stride(AxisOf(q.dir))
  {
    EdgeCornersOnEdge(SmallestNode(q), AxisOf(q.dir));
  }

  // ---------------------------------------------------------------- missing vertices

  /** No bound is listed twice. */
  predicate Unique(t: seq<Box>) {
    forall i, j | 0 <= i < j < |t| :: t[i] != t[j]
  }

  /** `if (!tmp.Contains(b)) tmp.Add(b)`. */
  function AddNew(t: seq<Box>, b: Box): (r: seq<Box>)
    ensures forall x :: x in r <==> x in t || x == b
    ensures Unique(t) ==> Unique(r)
  {
    if b in t then t else t + [b]
  }

  /** The quad's leaves without repeats, in the order LT, RT, LB, RB; a
      leaf that spans two quadrants of a coarser side counts once. */
  function DistinctLeaves(q: Quad): (r: seq<Box>)
    ensures Unique(r)
    ensures forall x :: x in r <==> InQuad(q, x)
  {
    AddNew(AddNew(AddNew([q.b1], q.b2), q.b3), q.b4)
  }

  /** The listed leaves that hold at least one crossing, in order. */
  function WithEdges(s: Store, t: seq<Box>): (r: seq<Box>)
    requires forall x | x in t :: x in s
    ensures forall x | x in r :: x in s
    ensures forall x :: x in r <==> x in t && HasEdgeData(s[x])
    ensures Unique(t) ==> Unique(r)
  {
    if |t| == 0 then []
    else
      var rest := WithEdges(s, t[1..]);
      assert forall x | x in rest :: x in t[1..];
      (if HasEdgeData(s[t[0]]) then [t[0]] else []) + rest
  }

  /** The leaves whose vertices `_GetMidPosNormal` averages: each distinct
      leaf of the quad that holds a crossing, once. */
  function Contributors(s: Store, q: Quad): (r: seq<Box>)
    requires QuadOk(s, q)
    ensures Unique(r)
    ensures forall x :: x in r <==> InQuad(q, x) && x in s && HasEdgeData(s[x])
  {
    WithEdges(s, DistinctLeaves(q))
  }

  /** The vertices of the listed leaves. */
  function Vertices(s: Store, t: seq<Box>): (r: seq<Vec3>)
    requires forall x | x in t :: x in s
    ensures |r| == |t| && forall i | 0 <= i < |t| :: r[i] == s[t[i]].vertex
  {
    if |t| == 0 then [] else [s[t[0]].vertex] + Vertices(s, t[1..])
  }

  /** The normals of the listed leaves. */
  function Normals(s: Store, t: seq<Box>): (r: seq<Vec3>)
    requires forall x | x in t :: x in s
    ensures |r| == |t| && forall i | 0 <= i < |t| :: r[i] == s[t[i]].normal
  {
    if |t| == 0 then [] else [s[t[0]].normal] + Normals(s, t[1..])
  }

  /** `_GetMidPosNormal`: the position and normal a leaf without a vertex
      borrows, computed from the contributors' vertices and normals. */
  function MidPosNormal(s: Store, q: Quad, g: Geometry): (Vec3, Vec3)
    requires QuadOk(s, q)
  {
    var c := Contributors(s, q);
    g.midPosNormal(Vertices(s, c), Normals(s, c))
  }

  /** The leaf whose material a filled-in vertex takes: the first of LT,
      RT, LB with a vertex, and RB when none of them has one. */
  function MatSource(s: Store, q: Quad): (k: int)
    requires QuadOk(s, q)
    ensures 0 <= k < 4
    ensures k < 3 ==> HasVertex(s[NodeBox(q, k)])
    ensures forall j | 0 <= j < k && j < 3 :: !HasVertex(s[NodeBox(q, j)])
  {
    if HasVertex(s[q.b1]) then 0 else if HasVertex(s[q.b2]) then 1 else if HasVertex(s[q.b3]) then 2 else 3
  }

  /** A leaf given a borrowed vertex: position, normal and material set,
      and the vertex marked as filled in. */
  function Filled(d: LeafNodeData, pn: (Vec3, Vec3), m: Mat): (r: LeafNodeData)
    ensures HasVertex(r) && r.vertex == pn.0 && r.normal == pn.1 && r.vertexMaterial == m
    ensures r.corners == d.corners && r.edgeData == d.edgeData && r.meshDataIndex == d.meshDataIndex
  {
    d.(vertex := pn.0, normal := pn.1, vertexMaterial := m, hasFakeVertex := true)
  }

  /** What one leaf becomes when filling in: a leaf that is asked for and
      has no vertex borrows one; every other leaf stays as it is. */
  function FillTarget(d: LeafNodeData, asked: bool, pn: (Vec3, Vec3), m: Mat): (r: LeafNodeData)
    ensures asked ==> HasVertex(r)
    ensures HasVertex(d) ==> r == d
    ensures r.corners == d.corners && r.edgeData == d.edgeData && r.meshDataIndex == d.meshDataIndex
  {
    if asked && !HasVertex(d) then Filled(d, pn, m) else d
  }

  /** One `if (!n.HasVertex) { ... }` block of `_FixMissingData`. */
  function FixNode(s: Store, b: Box, pn: (Vec3, Vec3), m: Mat): (r: Store)
    requires b in s
    ensures r == s[b := FillTarget(s[b], true, pn, m)]
  {
    if HasVertex(s[b]) then s else s[b := Filled(s[b], pn, m)]
  }

  /** The blocks of `_FixMissingData` in order over the listed leaves; a
      leaf listed twice is filled once, since the first pass gives it a
      vertex. */
  function FixAll(s: Store, t: seq<Box>, pn: (Vec3, Vec3), m: Mat): (r: Store)
    requires forall x | x in t :: x in s
    ensures r.Keys == s.Keys
    ensures forall b | b in s :: r[b] == FillTarget(s[b], b in t, pn, m)
    decreases |t|
  {
    if |t| == 0 then s
    else
      var s1 := FixNode(s, t[0], pn, m);
      assert forall x | x in t[1..] :: x in t;
      var r := FixAll(s1, t[1..], pn, m);
      assert forall b | b in s :: r[b] == FillTarget(s[b], b in t, pn, m) by {
        forall b | b in s ensures r[b] == FillTarget(s[b], b in t, pn, m) {
          if b != t[0] {
            assert b in t <==> b in t[1..];
          }
        }
      }
      r
  }

  /** The material a filled-in vertex takes. */
  function FillMat(s: Store, q: Quad): Mat
    requires QuadOk(s, q)
  {
    s[NodeBox(q, MatSource(s, q))].vertexMaterial
  }

  /** `_FixMissingData`: when some leaf of the quad has no vertex, each such
      leaf borrows the averaged position and normal of the contributors and
      the material of the first leaf with a vertex; no other leaf changes. */
  function FixMissingData(s: Store, q: Quad, g: Geometry): (r: Store)
    requires QuadOk(s, q)
    ensures r.Keys == s.Keys
    ensures forall b | b in s :: r[b] == FillTarget(s[b], InQuad(q, b), MidPosNormal(s, q, g), FillMat(s, q))
  {
    if HasVertex(s[q.b1]) && HasVertex(s[q.b2]) && HasVertex(s[q.b3]) && HasVertex(s[q.b4]) then s
    else
      var t := [q.b1, q.b2, q.b3, q.b4];
      assert forall x :: x in t <==> InQuad(q, x);
      FixAll(s, t, MidPosNormal(s, q, g), FillMat(s, q))
  }

  /** After filling in, every leaf of the quad has a vertex and keeps its
      corners, and the quad's leaves are still well formed. */
  lemma FixGivesVertices(s: Store, q: Quad, g: Geometry)
    requires QuadOk(s, q)
    ensures QuadOk(FixMissingData(s, q, g), q)
    ensures forall k | 0 <= k < 4 :: HasVertex(FixMissingData(s, q, g)[NodeBox(q, k)])
  {
    var r := FixMissingData(s, q, g);
    assert forall k | 0 <= k < 4 :: InQuad(q, NodeBox(q, k));
  }

  /** Filling in is idempotent: once every leaf of the quad has a vertex, a
      second pass changes nothing. */
  lemma FixIdempotent(s: Store, q: Quad, g: Geometry)
    requires QuadOk(s, q)
    ensures QuadOk(FixMissingData(s, q, g), q)
    ensures FixMissingData(FixMissingData(s, q, g), q, g) == FixMissingData(s, q, g)
  {
    FixGivesVertices(s, q, g);
  }

  // ---------------------------------------------------------------- triangles

  /** The component of `n` along the axis character `dir` (z for anything
      but x and y). */
  function Along(n: Vec3, dir: char): int {
    if dir == 'x' then n.x else if dir == 'y' then n.y else n.z
  }

  /** `GetCubeNormal`: the unit vector along the edge axis that points to
      the side the plane normal faces (positive on a zero component). */
  function GetCubeNormal(dir: char, n: Vec3): (r: Vec3)
    ensures r == AxisVec(dir).Scale(if Along(n, dir) < 0 then -1 else 1)
  {
    if dir == 'x' then (if n.x < 0 then Vec3(-1, 0, 0) else Vec3(1, 0, 0))
    else if dir == 'y' then (if n.y < 0 then Vec3(0, -1, 0) else Vec3(0, 1, 0))
    else (if n.z < 0 then Vec3(0, 0, -1) else Vec3(0, 0, 1))
  }

  /** The cube normal is a unit axis vector on the same side as the plane
      normal: its dot product with the plane normal is the absolute value of
      that normal's component along the axis. */
  lemma CubeNormalFacesPlane(dir: char, n: Vec3)
    ensures var r := GetCubeNormal(dir, n);
      r.x * n.x + r.y * n.y + r.z * n.z == (if Along(n, dir) < 0 then -Along(n, dir) else Along(n, dir))
    ensures var r := GetCubeNormal(dir, n);
      r.x * r.x + r.y * r.y + r.z * r.z == 1
  {
  }

  /** The streams of a mesh agree: a normal and a material entry per
      vertex, whole triangles, and every corner index names a vertex. */
  predicate MeshValid(md: MeshData) {
    Paired(md) && |md.material| == |md.vertex| && |md.tris| % 3 == 0 &&
    forall i | 0 <= i < |md.tris| :: 0 <= md.tris[i] < |md.vertex|
  }

  /** The leaves' index caches agree with the mesh, and only a leaf with a
      vertex has an entry for it. */
  predicate StoreSound(s: Store, md: MeshData) {
    forall b | b in s :: CacheSound(s[b], md) && (Key(md) in s[b].meshDataIndex ==> HasVertex(s[b]))
  }

  /** `md2` is `md` with more written at the end of every stream. */
  predicate Extends(md: MeshData, md2: MeshData) {
    Key(md2) == Key(md) &&
    |md.vertex| <= |md2.vertex| && md2.vertex[..|md.vertex|] == md.vertex &&
    |md.normal| <= |md2.normal| && md2.normal[..|md.normal|] == md.normal &&
    |md.material| <= |md2.material| && md2.material[..|md.material|] == md.material &&
    |md.tris| <= |md2.tris| && md2.tris[..|md.tris|] == md.tris
  }

  /** `s2` is `s` with at most index caches changed. */
  predicate OnlyCaches(s: Store, s2: Store) {
    s2.Keys == s.Keys && forall b | b in s :: s2[b].(meshDataIndex := s[b].meshDataIndex) == s[b]
  }

  /** Three vertices of their own and one triangle over them, as the cube,
      sphere and SDF branches of `CreateTri` write: materials per triangle,
      the given normals per vertex. */
  function FreshTri(md: MeshData, p: seq<Vec3>, n: seq<Vec3>, m: seq<int>): (r: MeshData)
    requires |p| == 3 && |n| == 3 && |m| == 3
    ensures r.vertex == md.vertex + p && r.normal == md.normal + n && Key(r) == Key(md)
    ensures r.tris == md.tris + [|md.vertex|, |md.vertex| + 1, |md.vertex| + 2]
    ensures |r.material| == |md.material| + 3 && r.material[..|md.material|] == md.material
  {
    var c := |md.vertex|;
    var md1 := AddVertexNormal(AddVertexNormal(AddVertexNormal(md, p[0], n[0]), p[1], n[1]), p[2], n[2]);
    assert md1.vertex == md.vertex + p && md1.normal == md.normal + n;
    AddTriangleMats(md1, c, c + 1, c + 2, m[0], m[1], m[2])
  }

  /** A fresh triangle keeps the mesh valid and extends it by one triangle
      whose corners hold the given positions and normals. */
  lemma FreshTriValid(md: MeshData, p: seq<Vec3>, n: seq<Vec3>, m: seq<int>)
    requires |p| == 3 && |n| == 3 && |m| == 3 && MeshValid(md)
    ensures var r := FreshTri(md, p, n, m);
      MeshValid(r) && Extends(md, r) && |r.tris| == |md.tris| + 3
    ensures var r := FreshTri(md, p, n, m);
      forall k | 0 <= k < 3 :: r.vertex[r.tris[|md.tris| + k]] == p[k] && r.normal[r.tris[|md.tris| + k]] == n[k]
  {
    var r := FreshTri(md, p, n, m);
    var c := |md.vertex|;
    forall i | 0 <= i < |r.tris| ensures 0 <= r.tris[i] < |r.vertex| {
      if i >= |md.tris| {
        assert r.tris[i] == c + (i - |md.tris|);
      } else {
        assert r.tris[i] == md.tris[i];
      }
    }
    forall k | 0 <= k < 3 ensures r.vertex[r.tris[|md.tris| + k]] == p[k] && r.normal[r.tris[|md.tris| + k]] == n[k] {
      assert r.tris[|md.tris| + k] == c + k;
    }
    assert r.vertex[..|md.vertex|] == md.vertex;
    assert r.normal[..|md.normal|] == md.normal;
    assert r.tris[..|md.tris|] == md.tris;
  }

  /** Later writes keep what earlier ones wrote at every index. */
  lemma ExtendsAt(md: MeshData, md2: MeshData, i: int)
    requires Extends(md, md2) && 0 <= i < |md.vertex| && i < |md.normal|
    ensures md2.vertex[i] == md.vertex[i] && md2.normal[i] == md.normal[i]
  {
    assert md2.vertex[..|md.vertex|][i] == md.vertex[i];
    assert md2.normal[..|md.normal|][i] == md.normal[i];
  }

  /** Writing more on a mesh written more keeps extending it. */
  lemma ExtendsTrans(md: MeshData, md2: MeshData, md3: MeshData)
    requires Extends(md, md2) && Extends(md2, md3)
    ensures Extends(md, md3)
  {
    assert md3.vertex[..|md.vertex|] == md3.vertex[..|md2.vertex|][..|md.vertex|];
    assert md3.normal[..|md.normal|] == md3.normal[..|md2.normal|][..|md.normal|];
    assert md3.material[..|md.material|] == md3.material[..|md2.material|][..|md.material|];
    assert md3.tris[..|md.tris|] == md3.tris[..|md2.tris|][..|md.tris|];
  }

  /** Caches stay sound when the mesh only grows: an index cached before
      still names the same vertex and normal. */
  lemma SoundOnGrowth(s: Store, md: MeshData, md2: MeshData)
    requires StoreSound(s, md) && Extends(md, md2)
    ensures StoreSound(s, md2)
  {
    forall x | x in s ensures CacheSound(s[x], md2) {
      if Key(md) in s[x].meshDataIndex {
        ExtendsAt(md, md2, s[x].meshDataIndex[Key(md)]);
      }
    }
  }

  /** What a leaf keeps when only its cache changes. */
  lemma OnlyCachesAt(s: Store, s2: Store, b: Box)
    requires OnlyCaches(s, s2) && b in s
    ensures b in s2 && s2[b].vertex == s[b].vertex && s2[b].normal == s[b].normal
    ensures s2[b].corners == s[b].corners && s2[b].vertexMaterial == s[b].vertexMaterial
    ensures HasVertex(s2[b]) == HasVertex(s[b]) && HasSDFData(s2[b]) == HasSDFData(s[b])
  {
    assert s2[b].(meshDataIndex := s[b].meshDataIndex) == s[b];
  }

  /** Changing caches twice changes only caches. */
  lemma OnlyCachesTrans(s1: Store, s2: Store, s3: Store)
    requires OnlyCaches(s1, s2) && OnlyCaches(s2, s3)
    ensures OnlyCaches(s1, s3)
  {
    forall b | b in s1 ensures s3[b].(meshDataIndex := s1[b].meshDataIndex) == s1[b] {
      assert s3[b].(meshDataIndex := s2[b].meshDataIndex) == s2[b];
    }
  }

  /** One triangle over vertices already written keeps the mesh valid,
      extends it, and leaves every cache as sound as it was. */
  lemma AddTriangleValid(s: Store, md: MeshData, i1: int, i2: int, i3: int)
    requires MeshValid(md) && StoreSound(s, md)
    requires 0 <= i1 < |md.vertex| && 0 <= i2 < |md.vertex| && 0 <= i3 < |md.vertex|
    ensures var r := AddTriangle(md, i1, i2, i3);
      MeshValid(r) && StoreSound(s, r) && Extends(md, r) && r.tris[|md.tris|..] == [i1, i2, i3]
  {
    var r := AddTriangle(md, i1, i2, i3);
    assert r.tris[..|md.tris|] == md.tris;
    forall i | 0 <= i < |r.tris| ensures 0 <= r.tris[i] < |r.vertex| {
      if i < |md.tris| {
        assert r.tris[i] == md.tris[i];
      }
    }
    assert r.vertex[..|md.vertex|] == md.vertex;
    assert r.normal[..|md.normal|] == md.normal;
    assert r.material[..|md.material|] == md.material;
    SoundOnGrowth(s, md, r);
  }

  /** `n.GetMeshDataVertexIndex(meshData)` on the leaf stored under `b`:
      the index of a vertex holding the leaf's vertex and normal, written
      (with the leaf's material) only when the leaf has no index cached for
      this mesh. */
  method SharedVertex(s: Store, md: MeshData, b: Box) returns (s2: Store, md2: MeshData, idx: int)
    requires b in s && HasVertex(s[b]) && MeshValid(md) && StoreSound(s, md)
    ensures MeshValid(md2) && Extends(md, md2) && md2.tris == md.tris
    ensures StoreSound(s2, md2) && OnlyCaches(s, s2) && Key(md) in s2[b].meshDataIndex
    ensures 0 <= idx < |md2.vertex| && md2.vertex[idx] == s[b].vertex && md2.normal[idx] == s[b].normal
    ensures Key(md) in s[b].meshDataIndex ==> s2 == s && md2 == md
    ensures Key(md) !in s[b].meshDataIndex ==> idx == |md.vertex| && |md2.vertex| == |md.vertex| + 1
  {
    var x := GetMeshDataVertexIndex(s[b], md);
    VertexIndexStable(s[b], md);
    s2, md2, idx := s[b := x.0], x.1, x.2;
    if Key(md) !in s[b].meshDataIndex {
      assert md2.vertex[..|md.vertex|] == md.vertex;
      assert md2.normal[..|md.normal|] == md.normal;
      assert md2.material[..|md.material|] == md.material;
      SoundOnGrowth(s, md, md2);
    }
  }

  /** Triangle corner `i` of the mesh sits at position `v`. */
  predicate CornerAt(md: MeshData, i: int, v: Vec3) {
    0 <= i < |md.tris| && 0 <= md.tris[i] < |md.vertex| && md.vertex[md.tris[i]] == v
  }

  /** Triangle corner `i` of the mesh carries normal `n`. */
  predicate NormalAt(md: MeshData, i: int, n: Vec3) {
    0 <= i < |md.tris| && 0 <= md.tris[i] < |md.normal| && md.normal[md.tris[i]] == n
  }

  /** Three leaves of a triangle, in the order written. */
  datatype Tri = Tri(a: Box, b: Box, c: Box)

  function TriBox(t: Tri, k: int): Box
    requires 0 <= k < 3
  {
    if k == 0 then t.a else if k == 1 then t.b else t.c
  }

  /** The triangle's leaves are stored and have vertices. */
  predicate TriReady(s: Store, t: Tri) {
    t.a in s && t.b in s && t.c in s && HasVertex(s[t.a]) && HasVertex(s[t.b]) && HasVertex(s[t.c])
  }

  /** What `CreateQuad` hands every `CreateTri` of one edge: the surface
      material, the edge axis, the kind of the deciding source and that
      source. */
  datatype Style = Style(edgeMat: Mat, dir: char, isCube: bool, isSphere: bool, sdf: SDFInfo)

  /** The triangle gets vertices of its own (cube, sphere or any leaf
      touched by an edit) rather than the leaves' shared ones. */
  predicate OwnVertices(s: Store, t: Tri, st: Style)
    requires t.a in s && t.b in s && t.c in s
  {
    st.isCube || st.isSphere || HasSDFData(s[t.a]) || HasSDFData(s[t.b]) || HasSDFData(s[t.c])
  }

  /** The normal each corner of a `CreateTri` triangle carries: the cube
      normal for a cube edge, the sphere's normal at the vertex for a sphere
      edge, for other edited leaves the plane normal when the triangle is
      steep and the terrain normal at the vertex otherwise, and the leaf's
      own normal for a shared vertex. */
  function CornerNormals(s: Store, g: Geometry, t: Tri, st: Style): (r: seq<Vec3>)
    requires t.a in s && t.b in s && t.c in s
    ensures |r| == 3
    ensures !OwnVertices(s, t, st) ==> r == [s[t.a].normal, s[t.b].normal, s[t.c].normal]
    ensures st.isCube ==> r[0] == r[1] == r[2] && r[0] == GetCubeNormal(st.dir, r[0])
  {
    var p1, p2, p3 := s[t.a].vertex, s[t.b].vertex, s[t.c].vertex;
    var pn := g.planeNormal(p1, p2, p3);
    if st.isCube then
      var n := GetCubeNormal(st.dir, pn);
      CubeNormalStable(st.dir, pn);
      [n, n, n]
    else if st.isSphere then
      [g.sphereNormal(st.sdf.sphere, p1), g.sphereNormal(st.sdf.sphere, p2), g.sphereNormal(st.sdf.sphere, p3)]
    else if OwnVertices(s, t, st) then
      if g.steep(pn) then [pn, pn, pn]
      else [g.terrainNormal(p1.x, p1.z, t.a.w), g.terrainNormal(p2.x, p2.z, t.b.w), g.terrainNormal(p3.x, p3.z, t.c.w)]
    else
      [s[t.a].normal, s[t.b].normal, s[t.c].normal]
  }

  /** A cube normal is its own cube normal: the choice is a projection. */
  lemma CubeNormalStable(dir: char, n: Vec3)
    ensures GetCubeNormal(dir, GetCubeNormal(dir, n)) == GetCubeNormal(dir, n)
  {
  }

  /** The materials of a triangle with vertices of its own: the leaves'
      vertex materials on a sphere edge of material 1, the edge material
      three times otherwise. */
  function OwnMats(s: Store, t: Tri, st: Style): (m: seq<int>)
    requires t.a in s && t.b in s && t.c in s
    ensures |m| == 3
    ensures !(st.isSphere && !st.isCube && st.edgeMat == 1) ==> m == [st.edgeMat, st.edgeMat, st.edgeMat]
  {
    if !st.isCube && st.isSphere && st.edgeMat == 1 then
      [s[t.a].vertexMaterial, s[t.b].vertexMaterial, s[t.c].vertexMaterial]
    else [st.edgeMat, st.edgeMat, st.edgeMat]
  }

  /** The cube, sphere and SDF branches of `CreateTri`: three vertices of
      the triangle's own, with the branch's normals and materials. */
  method OwnTri(s: Store, md: MeshData, g: Geometry, t: Tri, st: Style) returns (md2: MeshData)
    requires TriReady(s, t) && MeshValid(md) && StoreSound(s, md)
    ensures MeshValid(md2) && StoreSound(s, md2) && Extends(md, md2)
    ensures |md2.tris| == |md.tris| + 3 && |md2.vertex| == |md.vertex| + 3
    ensures forall k | 0 <= k < 3 :: CornerAt(md2, |md.tris| + k, s[TriBox(t, k)].vertex)
    ensures forall k | 0 <= k < 3 :: NormalAt(md2, |md.tris| + k, CornerNormals(s, g, t, st)[k])
    ensures md2.material[|md.material|..] ==
      [MatEntry(OwnMats(s, t, st)[0], OwnMats(s, t, st)[1], OwnMats(s, t, st)[2], 1),
       MatEntry(OwnMats(s, t, st)[0], OwnMats(s, t, st)[1], OwnMats(s, t, st)[2], 2),
       MatEntry(OwnMats(s, t, st)[0], OwnMats(s, t, st)[1], OwnMats(s, t, st)[2], 3)]
  {
    var ns := CornerNormals(s, g, t, st);
    var ms := OwnMats(s, t, st);
    var p := [s[t.a].vertex, s[t.b].vertex, s[t.c].vertex];
    md2 := FreshTri(md, p, ns, ms);
    FreshTriValid(md, p, ns, ms);
    SoundOnGrowth(s, md, md2);
    assert md2.material[|md.material|..] == [MatEntry(ms[0], ms[1], ms[2], 1), MatEntry(ms[0], ms[1], ms[2], 2), MatEntry(ms[0], ms[1], ms[2], 3)];
  }

  /** Each looked-up index names a vertex holding the expected position
      and normal. */
  predicate Found(m: MeshData, idx: seq<int>, pos: seq<Vec3>, nor: seq<Vec3>) {
    |idx| <= |pos| && |idx| <= |nor| &&
    forall j | 0 <= j < |idx| :: 0 <= idx[j] < |m.vertex| && idx[j] < |m.normal| &&
      m.vertex[idx[j]] == pos[j] && m.normal[idx[j]] == nor[j]
  }

  /** Indices found on a mesh stay found once the mesh grows. */
  lemma FoundKept(m: MeshData, m2: MeshData, idx: seq<int>, pos: seq<Vec3>, nor: seq<Vec3>)
    requires Found(m, idx, pos, nor) && Extends(m, m2)
    ensures Found(m2, idx, pos, nor)
  {
    forall j | 0 <= j < |idx| ensures m2.vertex[idx[j]] == pos[j] && m2.normal[idx[j]] == nor[j] {
      ExtendsAt(m, m2, idx[j]);
    }
  }

  /** One more index found. */
  lemma FoundAppend(m: MeshData, idx: seq<int>, pos: seq<Vec3>, nor: seq<Vec3>, i: int)
    requires Found(m, idx, pos, nor) && |idx| < |pos| && |idx| < |nor|
    requires 0 <= i < |m.vertex| && i < |m.normal| && m.vertex[i] == pos[|idx|] && m.normal[i] == nor[|idx|]
    ensures Found(m, idx + [i], pos, nor)
  {
    forall j | 0 <= j < |idx| + 1 ensures (idx + [i])[j] == if j < |idx| then idx[j] else i {
    }
  }

  /** What the lookups of `SharedTri` keep: a valid mesh that extends the
      starting one by vertices only, and a store whose caches alone changed
      and that stays sound for it. */
  predicate Sharing(s: Store, md: MeshData, cur: Store, m: MeshData) {
    MeshValid(m) && StoreSound(cur, m) && OnlyCaches(s, cur) && Extends(md, m) && m.tris == md.tris
  }

  /** One leaf's lookup inside `SharedTri`, carrying what the loop keeps. */
  method SharedStep(s: Store, md: MeshData, cur: Store, m: MeshData, idx: seq<int>, pos: seq<Vec3>, nor: seq<Vec3>, b: Box)
    returns (cur2: Store, m2: MeshData, idx2: seq<int>)
    requires Sharing(s, md, cur, m)
    requires Found(m, idx, pos, nor) && |idx| < |pos| && |idx| < |nor|
    requires b in s && HasVertex(s[b]) && s[b].vertex == pos[|idx|] && s[b].normal == nor[|idx|]
    ensures Sharing(s, md, cur2, m2)
    ensures Found(m2, idx2, pos, nor) && |idx2| == |idx| + 1 && |m2.vertex| <= |m.vertex| + 1
  {
    OnlyCachesAt(s, cur, b);
    var i;
    cur2, m2, i := SharedVertex(cur, m, b);
    OnlyCachesTrans(s, cur, cur2);
    ExtendsTrans(md, m, m2);
    FoundKept(m, m2, idx, pos, nor);
    FoundAppend(m2, idx, pos, nor, i);
    idx2 := idx + [i];
  }

  /** The last branch of `CreateTri`: each leaf's shared vertex, looked up
      (or written once) left to right, then one triangle over them. */
  method SharedTri(s: Store, md: MeshData, t: Tri) returns (s2: Store, md2: MeshData)
    requires TriReady(s, t) && MeshValid(md) && StoreSound(s, md)
    ensures MeshValid(md2) && StoreSound(s2, md2) && OnlyCaches(s, s2) && Extends(md, md2)
    ensures |md2.tris| == |md.tris| + 3 && |md2.vertex| <= |md.vertex| + 3
    ensures forall k | 0 <= k < 3 :: CornerAt(md2, |md.tris| + k, s[TriBox(t, k)].vertex)
    ensures forall k | 0 <= k < 3 :: NormalAt(md2, |md.tris| + k, s[TriBox(t, k)].normal)
  {
    var pos := [s[t.a].vertex, s[t.b].vertex, s[t.c].vertex];
    var nor := [s[t.a].normal, s[t.b].normal, s[t.c].normal];
    var m, idx;
    s2, m, idx := SharedIndices(s, md, t, pos, nor);
    md2 := FoundTri(s, md, m, s2, idx, pos, nor);
    assert forall k | 0 <= k < 3 :: s[TriBox(t, k)].vertex == pos[k] && s[TriBox(t, k)].normal == nor[k];
  }

  /** The lookups of `SharedTri`, left to right: one found index per leaf. */
  method SharedIndices(s: Store, md: MeshData, t: Tri, pos: seq<Vec3>, nor: seq<Vec3>) returns (cur: Store, m: MeshData, idx: seq<int>)
    requires TriReady(s, t) && MeshValid(md) && StoreSound(s, md)
    requires |pos| == 3 && |nor| == 3
    requires forall k | 0 <= k < 3 :: s[TriBox(t, k)].vertex == pos[k] && s[TriBox(t, k)].normal == nor[k]
    ensures Sharing(s, md, cur, m) && |m.vertex| <= |md.vertex| + 3 && |idx| == 3 && Found(m, idx, pos, nor)
  {
    SharingStart(s, md);
    cur, m := s, md;
    idx := [];
    for k := 0 to 3
      invariant Sharing(s, md, cur, m)
      invariant |m.vertex| <= |md.vertex| + k && |idx| == k && Found(m, idx, pos, nor)
    {
      cur, m, idx := SharedStep(s, md, cur, m, idx, pos, nor, TriBox(t, k));
    }
  }

  /** Before any lookup nothing has changed. */
  lemma SharingStart(s: Store, md: MeshData)
    requires MeshValid(md) && StoreSound(s, md)
    ensures Sharing(s, md, s, md)
  {
    assert md.vertex[..|md.vertex|] == md.vertex && md.normal[..|md.normal|] == md.normal;
  }

  /** One triangle over three found indices: its corners hold the expected
      positions and normals. */
  method FoundTri(s: Store, md: MeshData, m: MeshData, cur: Store, idx: seq<int>, pos: seq<Vec3>, nor: seq<Vec3>) returns (md2: MeshData)
    requires Sharing(s, md, cur, m)
    requires |idx| == 3 && Found(m, idx, pos, nor)
    ensures md2 == AddTriangle(m, idx[0], idx[1], idx[2])
    ensures MeshValid(md2) && StoreSound(cur, md2) && Extends(md, md2)
    ensures |md2.tris| == |md.tris| + 3 && |md2.vertex| == |m.vertex|
    ensures forall k | 0 <= k < 3 :: CornerAt(md2, |md.tris| + k, pos[k]) && NormalAt(md2, |md.tris| + k, nor[k])
  {
    AddTriangleValid(cur, m, idx[0], idx[1], idx[2]);
    md2 := AddTriangle(m, idx[0], idx[1], idx[2]);
    ExtendsTrans(md, m, md2);
    assert md2.tris[|md.tris|] == idx[0] && md2.tris[|md.tris| + 1] == idx[1] && md2.tris[|md.tris| + 2] == idx[2];
  }

  /** `CreateTri`: one triangle over the three leaves' vertices.  With
      vertices of its own it writes three new vertices and marks the
      materials per corner, and the store is untouched; otherwise it reuses
      (or writes once) each leaf's shared vertex, left to right. */
  method CreateTri(s: Store, md: MeshData, g: Geometry, t: Tri, st: Style) returns (s2: Store, md2: MeshData)
    requires TriReady(s, t) && MeshValid(md) && StoreSound(s, md)
    ensures MeshValid(md2) && StoreSound(s2, md2) && OnlyCaches(s, s2) && Extends(md, md2)
    ensures |md2.tris| == |md.tris| + 3
    ensures forall k | 0 <= k < 3 :: CornerAt(md2, |md.tris| + k, s[TriBox(t, k)].vertex)
    ensures forall k | 0 <= k < 3 :: NormalAt(md2, |md.tris| + k, CornerNormals(s, g, t, st)[k])
    ensures OwnVertices(s, t, st) ==> s2 == s && |md2.vertex| == |md.vertex| + 3
  {
    if OwnVertices(s, t, st) {
      md2 := OwnTri(s, md, g, t, st);
      s2 := s;
    } else {
      s2, md2 := SharedTri(s, md, t);
      assert forall k | 0 <= k < 3 :: CornerNormals(s, g, t, st)[k] == s[TriBox(t, k)].normal;
    }
  }

  // ---------------------------------------------------------------- quads

  /** Two stores hold the same leaves with the same corner sources. */
  predicate CornersSame(s: Store, s2: Store) {
    s2.Keys == s.Keys && forall b | b in s :: s2[b].corners == s[b].corners
  }

  /** A store whose caches alone changed keeps its corners. */
  lemma OnlyCachesCorners(s: Store, s2: Store)
    requires OnlyCaches(s, s2)
    ensures CornersSame(s, s2)
  {
    forall b | b in s ensures s2[b].corners == s[b].corners {
      OnlyCachesAt(s, s2, b);
    }
  }

  /** Filling in vertices keeps every corner. */
  lemma FixKeepsCorners(s: Store, q: Quad, g: Geometry)
    requires QuadOk(s, q)
    ensures CornersSame(s, FixMissingData(s, q, g))
  {
    var r := FixMissingData(s, q, g);
    forall b | b in r ensures r[b].corners == s[b].corners {
      assert r[b] == FillTarget(s[b], InQuad(q, b), MidPosNormal(s, q, g), FillMat(s, q));
    }
  }

  /** Filling in vertices keeps the index caches sound: a leaf that
      borrows a vertex had none, so it had no index for this mesh either. */
  lemma FixKeepsSound(s: Store, md: MeshData, q: Quad, g: Geometry)
    requires QuadOk(s, q) && StoreSound(s, md)
    ensures StoreSound(FixMissingData(s, q, g), md)
  {
    var r := FixMissingData(s, q, g);
    forall b | b in r
      ensures CacheSound(r[b], md) && (Key(md) in r[b].meshDataIndex ==> HasVertex(r[b]))
    {
      assert r[b] == FillTarget(s[b], InQuad(q, b), MidPosNormal(s, q, g), FillMat(s, q));
    }
  }

  /** The sign of an edge depends on the corner sources alone. */
  lemma SignOnCorners(s: Store, s2: Store, q: Quad)
    requires QuadOk(s, q) && CornersSame(s, s2)
    ensures QuadOk(s2, q) && GetEdgeSign(s2, q) == GetEdgeSign(s, q)
  {
  }

  /** The leaves in the order `CreateQuad` writes them, top row then
      bottom row: along z the columns are swapped so that every axis is
      seen from its positive side, and a negative sign swaps them (again). */
  function Ordered(q: Quad, sign: int): (o: seq<Box>)
    ensures |o| == 4
    ensures (sign == 1) == (q.dir != 'z') ==> o == [q.b1, q.b2, q.b3, q.b4]
    ensures (sign == 1) != (q.dir != 'z') ==> o == [q.b2, q.b1, q.b4, q.b3]
  {
    var p := if q.dir == 'z' then [q.b2, q.b1, q.b4, q.b3] else [q.b1, q.b2, q.b3, q.b4];
    if sign == 1 then p else [p[1], p[0], p[3], p[2]]
  }

  /** Three positions in the ordered quad, naming a triangle's corners. */
  datatype Corners = Corners(i: int, j: int, k: int)

  predicate CornersIn(t: Corners) {
    0 <= t.i < 4 && 0 <= t.j < 4 && 0 <= t.k < 4
  }

  /** The place of a quad position on the loop round the quad: top left,
      top right, bottom right, bottom left. */
  function CyclePos(i: int): int {
    if i == 2 then 3 else if i == 3 then 2 else i
  }

  /** `a`, `b`, `c` run forward round a loop of places. */
  predicate Forward(a: int, b: int, c: int) {
    (a < b < c) || (b < c < a) || (c < a < b)
  }

  /** Position `x` is a corner of `t`. */
  predicate Uses(t: Corners, x: int) {
    t.i == x || t.j == x || t.k == x
  }

  /** The triangles `CreateQuad` writes over the ordered leaves: two when
      the four leaves are pairwise distinct round the loop, otherwise one
      over the three distinct leaves a level-of-detail step leaves.  Every
      triangle runs forward round the loop, and between them the
      triangles reach every leaf. */
  function TriPlan(o: seq<Box>): (r: seq<Corners>)
    requires |o| == 4
    ensures 1 <= |r| <= 2
    ensures |r| == 2 <==> o[0] != o[1] && o[1] != o[3] && o[3] != o[2] && o[2] != o[0]
    ensures forall n | 0 <= n < |r| :: CornersIn(r[n]) && Forward(CyclePos(r[n].i), CyclePos(r[n].j), CyclePos(r[n].k))
    ensures |r| == 2 ==> forall x | 0 <= x < 4 :: Uses(r[0], x) || Uses(r[1], x)
    ensures |r| == 1 ==> CornersIn(r[0]) && forall x | 0 <= x < 4 :: o[x] in {o[r[0].i], o[r[0].j], o[r[0].k]}
  {
    if o[0] != o[1] && o[1] != o[3] && o[2] != o[3] && o[0] != o[2] then [Corners(0, 1, 2), Corners(1, 3, 2)]
    else if o[0] == o[1] then [Corners(1, 3, 2)]
    else if o[1] == o[3] then [Corners(0, 3, 2)]
    else if o[2] == o[3] then [Corners(0, 1, 3)]
    else [Corners(1, 3, 2)]
  }

  /** The position a leaf takes when the columns swap. */
  function SwapColumn(i: int): int {
    if i == 0 then 1 else if i == 1 then 0 else if i == 2 then 3 else 2
  }

  /** Swapping the columns turns the loop round. */
  lemma SwapReverses(a: int, b: int, c: int)
    requires 0 <= a < 4 && 0 <= b < 4 && 0 <= c < 4
    requires Forward(CyclePos(a), CyclePos(b), CyclePos(c))
    ensures Forward(CyclePos(SwapColumn(c)), CyclePos(SwapColumn(b)), CyclePos(SwapColumn(a)))
  {
  }

  /** A negative edge sign writes the same quad with the columns swapped,
      and with as many triangles; read in the positive order, each of its
      triangles runs backward, so the surface faces the other way. */
  lemma SignFlipsWinding(q: Quad)
    ensures forall i | 0 <= i < 4 :: Ordered(q, -1)[i] == Ordered(q, 1)[SwapColumn(i)]
    ensures |TriPlan(Ordered(q, -1))| == |TriPlan(Ordered(q, 1))|
    ensures forall t | t in TriPlan(Ordered(q, -1)) ::
      Forward(CyclePos(SwapColumn(t.k)), CyclePos(SwapColumn(t.j)), CyclePos(SwapColumn(t.i)))
  {
    var p := TriPlan(Ordered(q, -1));
    forall n | 0 <= n < |p|
      ensures Forward(CyclePos(SwapColumn(p[n].k)), CyclePos(SwapColumn(p[n].j)), CyclePos(SwapColumn(p[n].i)))
    {
      SwapReverses(p[n].i, p[n].j, p[n].k);
    }
  }

  /** The triangles of the plan as leaf triples. */
  function QuadTris(o: seq<Box>): (ts: seq<Tri>)
    requires |o| == 4
    ensures |ts| == |TriPlan(o)|
    ensures forall n | 0 <= n < |ts| :: ts[n] == Tri(o[TriPlan(o)[n].i], o[TriPlan(o)[n].j], o[TriPlan(o)[n].k])
  {
    var p := TriPlan(o);
    var t0 := Tri(o[p[0].i], o[p[0].j], o[p[0].k]);
    if |p| == 1 then [t0] else [t0, Tri(o[p[1].i], o[p[1].j], o[p[1].k])]
  }

  /** Every triangle of the list is ready. */
  predicate AllReady(s: Store, ts: seq<Tri>) {
    forall n | 0 <= n < |ts| :: TriReady(s, ts[n])
  }

  /** The leaf vertices a list of triangles puts at its corners, in order. */
  function Positions(s: Store, ts: seq<Tri>): (ps: seq<Vec3>)
    requires AllReady(s, ts)
    ensures |ps| == 3 * |ts|
  {
    if ts == [] then []
    else [s[ts[0].a].vertex, s[ts[0].b].vertex, s[ts[0].c].vertex] + Positions(s, ts[1..])
  }

  /** Triangle corners from index `i` on sit at the positions `ps`. */
  predicate Wrote(md: MeshData, i: int, ps: seq<Vec3>) {
    forall k | 0 <= k < |ps| :: CornerAt(md, i + k, ps[k])
  }

  /** What was written stays written as the mesh grows. */
  lemma WroteKept(md: MeshData, md2: MeshData, i: int, ps: seq<Vec3>)
    requires MeshValid(md) && Wrote(md, i, ps) && Extends(md, md2)
    ensures Wrote(md2, i, ps)
  {
    forall k | 0 <= k < |ps| ensures CornerAt(md2, i + k, ps[k]) {
      assert CornerAt(md, i + k, ps[k]);
      assert md2.tris[..|md.tris|][i + k] == md.tris[i + k];
      ExtendsAt(md, md2, md.tris[i + k]);
    }
  }

  /** One triangle's corners, then more written after it. */
  lemma WroteCons(md: MeshData, md2: MeshData, i: int, head: seq<Vec3>, rest: seq<Vec3>)
    requires MeshValid(md) && |head| == 3 && Wrote(md, i, head) && Extends(md, md2) && Wrote(md2, i + 3, rest)
    ensures Wrote(md2, i, head + rest)
  {
    WroteKept(md, md2, i, head);
    forall k | 0 <= k < |head + rest| ensures CornerAt(md2, i + k, (head + rest)[k]) {
      if k >= 3 {
        assert CornerAt(md2, i + 3 + (k - 3), rest[k - 3]);
      }
    }
  }

  /** A triangle written from a store whose caches alone differ from `f`
      sits at `f`'s vertices. */
  lemma HeadWrote(f: Store, s: Store, md: MeshData, i: int, t: Tri)
    requires OnlyCaches(f, s) && TriReady(f, t)
    requires forall k | 0 <= k < 3 :: CornerAt(md, i + k, s[TriBox(t, k)].vertex)
    ensures Wrote(md, i, [f[t.a].vertex, f[t.b].vertex, f[t.c].vertex])
  {
    OnlyCachesAt(f, s, t.a);
    OnlyCachesAt(f, s, t.b);
    OnlyCachesAt(f, s, t.c);
    assert CornerAt(md, i, s[TriBox(t, 0)].vertex);
    assert CornerAt(md, i + 1, s[TriBox(t, 1)].vertex);
    assert CornerAt(md, i + 2, s[TriBox(t, 2)].vertex);
  }

  /** `CreateTri` on a store whose caches alone differ from `f`. */
  method WriteHead(f: Store, s: Store, md: MeshData, g: Geometry, t: Tri, st: Style)
    returns (s2: Store, md2: MeshData)
    requires OnlyCaches(f, s) && MeshValid(md) && StoreSound(s, md) && TriReady(f, t)
    ensures MeshValid(md2) && StoreSound(s2, md2) && OnlyCaches(f, s2) && Extends(md, md2)
    ensures |md2.tris| == |md.tris| + 3
    ensures Wrote(md2, |md.tris|, [f[t.a].vertex, f[t.b].vertex, f[t.c].vertex])
  {
    OnlyCachesAt(f, s, t.a);
    OnlyCachesAt(f, s, t.b);
    OnlyCachesAt(f, s, t.c);
    s2, md2 := CreateTri(s, md, g, t, st);
    OnlyCachesTrans(f, s, s2);
    HeadWrote(f, s, md2, |md.tris|, t);
  }

  /** `CreateTri` for each triangle in turn, on a store whose caches alone
      differ from `f`. */
  method WriteTris(f: Store, s: Store, md: MeshData, g: Geometry, ts: seq<Tri>, st: Style)
    returns (s2: Store, md2: MeshData)
    requires OnlyCaches(f, s) && MeshValid(md) && StoreSound(s, md)
    requires AllReady(f, ts)
    ensures MeshValid(md2) && StoreSound(s2, md2) && OnlyCaches(f, s2) && Extends(md, md2)
    ensures |md2.tris| == |md.tris| + 3 * |ts|
    ensures Wrote(md2, |md.tris|, Positions(f, ts))
    ensures ts == [] ==> s2 == s && md2 == md
    decreases |ts|
  {
    if ts == [] {
      return s, md;
    }
    var t := ts[0];
    assert TriReady(f, t);
    var s1, md1 := WriteHead(f, s, md, g, t, st);
    assert AllReady(f, ts[1..]) by {
      assert forall n | 0 <= n < |ts[1..]| :: ts[1..][n] == ts[n + 1];
    }
    s2, md2 := WriteTris(f, s1, md1, g, ts[1..], st);
    ExtendsTrans(md, md1, md2);
    var head := [f[t.a].vertex, f[t.b].vertex, f[t.c].vertex];
    WroteCons(md1, md2, |md.tris|, head, Positions(f, ts[1..]));
  }

  /** The store `CreateQuad` writes from: the quad's vertices filled in
      when the edge is crossed, the store as it was otherwise. */
  function QuadStore(s: Store, q: Quad, g: Geometry): (f: Store)
    requires QuadOk(s, q)
    ensures CornersSame(s, f) && QuadOk(f, q)
  {
    FixGivesVertices(s, q, g);
    FixKeepsCorners(s, q, g);
    if GetEdgeSign(s, q).sign == 0 then s else FixMissingData(s, q, g)
  }

  /** The triangles `CreateQuad` writes, as leaf triples: none on an edge
      without a crossing. */
  function QuadTriangles(s: Store, q: Quad): (ts: seq<Tri>)
    requires QuadOk(s, q)
    ensures |ts| <= 2
    ensures |ts| == 0 <==> GetEdgeSign(s, q).sign == 0
  {
    var e := GetEdgeSign(s, q);
    if e.sign == 0 then [] else QuadTris(Ordered(q, e.sign))
  }

  /** The quad's triangles are over leaves of the quad. */
  lemma QuadTrianglesInQuad(s: Store, q: Quad)
    requires QuadOk(s, q)
    ensures forall n | 0 <= n < |QuadTriangles(s, q)| ::
      InQuad(q, QuadTriangles(s, q)[n].a) && InQuad(q, QuadTriangles(s, q)[n].b) && InQuad(q, QuadTriangles(s, q)[n].c)
  {
    var e := GetEdgeSign(s, q);
    if e.sign != 0 {
      var o := Ordered(q, e.sign);
      assert forall x | 0 <= x < 4 :: InQuad(q, o[x]);
    }
  }

  /** Every triangle `CreateQuad` writes is over leaves with vertices once
      the quad is filled in. */
  lemma QuadTrianglesReady(s: Store, q: Quad, g: Geometry)
    requires QuadOk(s, q)
    ensures AllReady(QuadStore(s, q, g), QuadTriangles(s, q))
  {
    var e := GetEdgeSign(s, q);
    if e.sign != 0 {
      FixGivesVertices(s, q, g);
      QuadTrisReady(FixMissingData(s, q, g), q, e.sign);
    }
  }

  /** Where `Ordered` takes each of its leaves from. */
  function OrderedIndex(q: Quad, sign: int, x: int): (k: int)
    requires 0 <= x < 4
    ensures 0 <= k < 4 && Ordered(q, sign)[x] == NodeBox(q, k)
  {
    if (sign == 1) == (q.dir != 'z') then x else SwapColumn(x)
  }

  /** Triangles over leaves with vertices are ready. */
  lemma QuadTrisReady(f: Store, q: Quad, sign: int)
    requires QuadOk(f, q) && forall k | 0 <= k < 4 :: HasVertex(f[NodeBox(q, k)])
    ensures AllReady(f, QuadTris(Ordered(q, sign)))
  {
    var o := Ordered(q, sign);
    forall x | 0 <= x < 4 ensures o[x] in f && HasVertex(f[o[x]]) {
      var k := OrderedIndex(q, sign, x);
    }
  }

  /** The positions the triangles of `CreateQuad` put at their corners. */
  function QuadPositions(s: Store, q: Quad, g: Geometry): (ps: seq<Vec3>)
    requires QuadOk(s, q)
    ensures |ps| == 3 * |QuadTriangles(s, q)|
  {
    QuadTrianglesReady(s, q, g);
    Positions(QuadStore(s, q, g), QuadTriangles(s, q))
  }

  /** `CreateQuad`: nothing on an edge without a crossing; otherwise the
      quad's missing vertices are filled in and its one or two triangles
      are written, in the order the sign gives, over the leaves' vertices.
      Afterwards the store holds the filled-in leaves, with caches
      updated. */
  method CreateQuad(s: Store, md: MeshData, g: Geometry, q: Quad) returns (s2: Store, md2: MeshData)
    requires QuadOk(s, q) && MeshValid(md) && StoreSound(s, md)
    ensures MeshValid(md2) && StoreSound(s2, md2) && Extends(md, md2)
    ensures OnlyCaches(QuadStore(s, q, g), s2) && CornersSame(s, s2)
    ensures |md2.tris| == |md.tris| + 3 * |QuadTriangles(s, q)|
    ensures Wrote(md2, |md.tris|, QuadPositions(s, q, g))
    ensures GetEdgeSign(s, q).sign == 0 ==> s2 == s && md2 == md
  {
    var e := GetEdgeSign(s, q);
    var f := QuadStore(s, q, g);
    if e.sign != 0 {
      FixKeepsSound(s, md, q, g);
    }
    QuadTrianglesReady(s, q, g);
    var st := Style(EdgeMat(e.c1, e.c2), q.dir, e.isCube, e.isSphere, Dominant(e.c1, e.c2));
    s2, md2 := WriteTris(f, f, md, g, QuadTriangles(s, q), st);
    OnlyCachesCorners(f, s2);
  }

  // ---------------------------------------------------------------- whole walks

  /** Every quad of the list has stored leaves with eight corners. */
  predicate AllQuadsOk(s: Store, qs: seq<Quad>) {
    forall n | 0 <= n < |qs| :: QuadOk(s, qs[n])
  }

  /** The quads of a walk over stored leaves can all be contoured. */
  lemma WalkedOk(s: Store, qs: seq<Quad>, leaves: set<Box>)
    requires Walked(qs, leaves) && leaves <= s.Keys && StoreOk(s)
    ensures AllQuadsOk(s, qs)
  {
  }

  /** Two rounds of keeping corners keep them. */
  lemma CornersSameTrans(s1: Store, s2: Store, s3: Store)
    requires CornersSame(s1, s2) && CornersSame(s2, s3)
    ensures CornersSame(s1, s3)
  {
  }

  /** The number of triangles the quads of a walk write, one quad after
      the other. */
  function TriCount(s: Store, qs: seq<Quad>): (n: nat)
    requires AllQuadsOk(s, qs)
    ensures n <= 2 * |qs|
  {
    if qs == [] then 0
    else
      assert AllQuadsOk(s, qs[..|qs| - 1]) by {
        assert forall n | 0 <= n < |qs| - 1 :: qs[..|qs| - 1][n] == qs[n];
      }
      TriCount(s, qs[..|qs| - 1]) + |QuadTriangles(s, qs[|qs| - 1])|
  }

  /** The quads of a prefix of the walk can be contoured. */
  lemma AllQuadsOkPrefix(s: Store, qs: seq<Quad>, i: int)
    requires AllQuadsOk(s, qs) && 0 <= i <= |qs|
    ensures AllQuadsOk(s, qs[..i])
  {
    forall n | 0 <= n < i ensures QuadOk(s, qs[..i][n]) {
      assert qs[..i][n] == qs[n];
    }
  }

  /** One more quad of the walk adds its own triangles to the count. */
  lemma TriCountStep(s: Store, qs: seq<Quad>, i: int)
    requires AllQuadsOk(s, qs) && 0 <= i < |qs|
    ensures AllQuadsOk(s, qs[..i]) && AllQuadsOk(s, qs[..i + 1])
    ensures TriCount(s, qs[..i + 1]) == TriCount(s, qs[..i]) + |QuadTriangles(s, qs[i])|
  {
    AllQuadsOkPrefix(s, qs, i);
    AllQuadsOkPrefix(s, qs, i + 1);
    assert qs[..i + 1][..i] == qs[..i];
  }

  /** No edge of the walk's quads is crossed. */
  predicate NoCrossing(s: Store, qs: seq<Quad>)
    requires AllQuadsOk(s, qs)
  {
    forall n | 0 <= n < |qs| :: GetEdgeSign(s, qs[n]).sign == 0
  }

  /** A walk writes nothing exactly when none of its edges is crossed. */
  lemma {:induction false} TriCountZero(s: Store, qs: seq<Quad>)
    requires AllQuadsOk(s, qs)
    ensures TriCount(s, qs) == 0 <==> NoCrossing(s, qs)
  {
    if qs != [] {
      var i := |qs| - 1;
      var p := qs[..i];
      AllQuadsOkPrefix(s, qs, i);
      TriCountZero(s, p);
      if NoCrossing(s, qs) {
        forall n | 0 <= n < i ensures GetEdgeSign(s, p[n]).sign == 0 {
          assert p[n] == qs[n];
        }
      }
      if NoCrossing(s, p) && GetEdgeSign(s, qs[i]).sign == 0 {
        forall n | 0 <= n < |qs| ensures GetEdgeSign(s, qs[n]).sign == 0 {
          if n < i {
            assert p[n] == qs[n];
            assert GetEdgeSign(s, p[n]).sign == 0;
          } else {
            assert n == i;
          }
        }
      }
    }
  }

  /** One `CreateQuad` after another over a walk's quads, in order.  The
      corners of the store are untouched, the mesh only grows, and the
      number of triangles written is the walk's count taken on the store
      as it was at the start. */
  method RunQuads(s: Store, md: MeshData, g: Geometry, qs: seq<Quad>) returns (s2: Store, md2: MeshData)
    requires AllQuadsOk(s, qs) && MeshValid(md) && StoreSound(s, md)
    ensures MeshValid(md2) && StoreSound(s2, md2) && Extends(md, md2) && CornersSame(s, s2)
    ensures |md2.tris| == |md.tris| + 3 * TriCount(s, qs)
    ensures TriCount(s, qs) == 0 ==> s2 == s && md2 == md
  {
    s2, md2 := s, md;
    AllQuadsOkPrefix(s, qs, 0);
    for i := 0 to |qs|
      invariant AllQuadsOk(s, qs[..i])
      invariant MeshValid(md2) && StoreSound(s2, md2) && Extends(md, md2) && CornersSame(s, s2)
      invariant |md2.tris| == |md.tris| + 3 * TriCount(s, qs[..i])
      invariant TriCount(s, qs[..i]) == 0 ==> s2 == s && md2 == md
    {
      var q := qs[i];
      SignOnCorners(s, s2, q);
      var s3, md3 := CreateQuad(s2, md2, g, q);
      ExtendsTrans(md, md2, md3);
      CornersSameTrans(s, s2, s3);
      TriCountStep(s, qs, i);
      s2, md2 := s3, md3;
    }
    assert qs[..|qs|] == qs;
  }

  /** `GenerateQuadsInNode`: contours every edge inside the node. */
  method GenerateQuadsInNode(s: Store, md: MeshData, g: Geometry, n: Node) returns (s2: Store, md2: MeshData)
    requires SpatialOctree.WF(n) && Leaves(n) <= s.Keys && StoreOk(s) && MeshValid(md) && StoreSound(s, md)
    ensures MeshValid(md2) && StoreSound(s2, md2) && Extends(md, md2) && CornersSame(s, s2)
    ensures |md2.tris| == |md.tris| + 3 * TriCount(s, CellProc(n))
    ensures SpatialOctree.IsLeaf(n) ==> s2 == s && md2 == md
  {
    WalkedOk(s, CellProc(n), Leaves(n));
    s2, md2 := RunQuads(s, md, g, CellProc(n));
  }

  /** `GenerateQuadsInFace`: contours every edge on the face between two
      neighbouring nodes (of two chunks). */
  method GenerateQuadsInFace(s: Store, md: MeshData, g: Geometry, n1: Node, n2: Node, dir: char)
    returns (s2: Store, md2: MeshData)
    requires SpatialOctree.WF(n1) && SpatialOctree.WF(n2) && (!(SpatialOctree.IsLeaf(n1) && SpatialOctree.IsLeaf(n2)) ==> IsDir(dir))
    requires Leaves(n1) + Leaves(n2) <= s.Keys && StoreOk(s) && MeshValid(md) && StoreSound(s, md)
    ensures MeshValid(md2) && StoreSound(s2, md2) && Extends(md, md2) && CornersSame(s, s2)
    ensures |md2.tris| == |md.tris| + 3 * TriCount(s, FaceProc(n1, n2, dir))
    ensures SpatialOctree.IsLeaf(n1) && SpatialOctree.IsLeaf(n2) ==> s2 == s && md2 == md
  {
    WalkedOk(s, FaceProc(n1, n2, dir), Leaves(n1) + Leaves(n2));
    s2, md2 := RunQuads(s, md, g, FaceProc(n1, n2, dir));
  }

  /** `GenerateQuadsInEdge`: contours every edge along the edge shared by
      four nodes (of up to four chunks). */
  method GenerateQuadsInEdge(s: Store, md: MeshData, g: Geometry, n1: Node, n2: Node, n3: Node, n4: Node, dir: char)
    returns (s2: Store, md2: MeshData)
    requires SpatialOctree.WF(n1) && SpatialOctree.WF(n2) && SpatialOctree.WF(n3) && SpatialOctree.WF(n4) && (!AllLeaves(n1, n2, n3, n4) ==> IsDir(dir))
    requires Leaves(n1) + Leaves(n2) + Leaves(n3) + Leaves(n4) <= s.Keys
    requires StoreOk(s) && MeshValid(md) && StoreSound(s, md)
    ensures MeshValid(md2) && StoreSound(s2, md2) && Extends(md, md2) && CornersSame(s, s2)
    ensures |md2.tris| == |md.tris| + 3 * TriCount(s, EdgeProc(n1, n2, n3, n4, dir))
  {
    var qs := EdgeProc(n1, n2, n3, n4, dir);
    if AllLeaves(n1, n2, n3, n4) {
      assert AllQuadsOk(s, qs);
    } else {
      WalkedOk(s, qs, Leaves(n1) + Leaves(n2) + Leaves(n3) + Leaves(n4));
    }
    s2, md2 := RunQuads(s, md, g, qs);
  }
}
