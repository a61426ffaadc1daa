/** Sampling one data node (`RecalculateSingleNode` and its helpers): which
    source decides each corner, and which source resolves each of the
    twelve edges.

    Terrain height tests and sphere containment are inputs; the
    floating-point terrain and sphere crossings are the two functions of a
    `Field`. */
module Sampling {
  import opened Lattice
  import opened CubeOctrees
  import opened Surfaces

  // ---------------------------------------------------------------- spheres

  /** `FindSphere`: of the spheres containing the point (`inside`), the one
      with the greatest order, earlier ones winning ties; the default sphere
      (order 0, mat 255) when none has a positive order. */
  function FindSphere(spheres: seq<SphereSDF>, inside: SphereSDF -> bool): (r: SphereSDF)
    decreases |spheres|
  {
    if |spheres| == 0 then NoSphere
    else
      var prev := FindSphere(spheres[..|spheres| - 1], inside);
      var s := spheres[|spheres| - 1];
      if inside(s) && s.order > prev.order then s else prev
  }

  /** The chosen sphere contains the point and has the greatest order of
      all containing spheres; the first one of that order wins; the default
      is returned exactly when no containing sphere has a positive order. */
  lemma {:induction false} FindSphereIsMax(spheres: seq<SphereSDF>, inside: SphereSDF -> bool)
    ensures var r := FindSphere(spheres, inside);
      forall i | 0 <= i < |spheres| && inside(spheres[i]) :: spheres[i].order <= r.order
    ensures var r := FindSphere(spheres, inside);
      r == NoSphere <==> forall i | 0 <= i < |spheres| && inside(spheres[i]) :: spheres[i].order == 0
    ensures var r := FindSphere(spheres, inside);
      r != NoSphere ==> exists i | 0 <= i < |spheres| :: (spheres[i] == r && inside(r) && r.order > 0 &&
        forall j | 0 <= j < i && inside(spheres[j]) :: spheres[j].order < r.order)
    decreases |spheres|
  {
    if |spheres| > 0 {
      var init := spheres[..|spheres| - 1];
      FindSphereIsMax(init, inside);
      var prev := FindSphere(init, inside);
      var s := spheres[|spheres| - 1];
      var r := FindSphere(spheres, inside);
      assert forall i | 0 <= i < |init| :: spheres[i] == init[i];
      if inside(s) && s.order > prev.order {
        assert r == s;
        assert spheres[|spheres| - 1] == r;
      } else {
        assert r == prev;
        if r != NoSphere {
          var i :| 0 <= i < |init| && init[i] == r && inside(r) && r.order > 0 &&
            forall j | 0 <= j < i && inside(init[j]) :: init[j].order < r.order;
          assert spheres[i] == r;
        }
      }
    }
  }

  // ---------------------------------------------------------------- corners

  /** What `RecalculateSingleNode` reads at one corner: the cube value and
      order there, the sphere found there, and whether the corner is below
      the terrain height. */
  datatype CornerInput = CornerInput(cubeMat: Mat, cubeOrder: nat, sphere: SphereSDF, inTerrain: bool)

  /** The corner's source: the cube if its order is strictly greater than
      the sphere's, else the sphere; a material-255 winner falls back to
      terrain (1 below the height, 0 above). */
  function CornerSource(c: CornerInput): (m: SDFInfo)
    ensures m.mat != Unset
  {
    var m := if c.cubeOrder > c.sphere.order then MakeSDF(CubeType, c.cubeMat, c.cubeOrder)
             else SphereSDFInfo(SphereType, c.sphere);
    if m.mat == Unset then Terrain(if c.inTerrain then 1 else 0) else m
  }

  /** Corner priority, stated case by case: the newer edit wins, a tie goes
      to the sphere, and terrain decides only where the winner is unset. */
  lemma CornerPriority(c: CornerInput)
    ensures c.cubeOrder > c.sphere.order && c.cubeMat != Unset ==>
      CornerSource(c).kind == CubeType && CornerSource(c).mat == c.cubeMat && CornerSource(c).order == c.cubeOrder
    ensures c.cubeOrder <= c.sphere.order && c.sphere.mat != Unset ==>
      CornerSource(c).kind == SphereType && CornerSource(c).mat == c.sphere.mat && CornerSource(c).sphere == c.sphere
    ensures (if c.cubeOrder > c.sphere.order then c.cubeMat else c.sphere.mat) == Unset ==>
      CornerSource(c) == Terrain(if c.inTerrain then 1 else 0)
    ensures CornerSource(c).kind == TerrainType ==> CornerSource(c).mat <= 1 && CornerSource(c).order == 0
  {
  }

  /** A corner with neither a cube nor a sphere is plain terrain. */
  lemma EmptyCornerIsTerrain(c: CornerInput, spheres: seq<SphereSDF>, inside: SphereSDF -> bool)
    requires c.cubeMat == Unset && c.cubeOrder == 0 && c.sphere == FindSphere(spheres, inside)
    requires forall i | 0 <= i < |spheres| :: !inside(spheres[i])
    ensures CornerSource(c) == Terrain(if c.inTerrain then 1 else 0)
  {
    FindSphereIsMax(spheres, inside);
  }

  // ---------------------------------------------------------------- edges

  /** How `GetSurfaceData` resolves an edge. */
  datatype EdgePlan = TerrainEdge | SDFEdge(sign: int, src: SDFInfo, mat: Mat) | NoEdge

  predicate SolidSet(s: SDFInfo) { s.mat != Unset && s.mat != 0 }
  predicate AirSet(s: SDFInfo) { s.mat == 0 }

  /** The decision of `GetSurfaceData` between the edge's two endpoint
      sources: the main source is the one of strictly greater order (ties:
      the second); `Equals` picks which endpoint it counts as. */
  function PlanEdge(m1: SDFInfo, m2: SDFInfo): (p: EdgePlan)
    ensures p.SDFEdge? ==> (p.sign == 1 || p.sign == -1) && (p.src == m1 || p.src == m2)
  {
    var main := if m1.order > m2.order then m1 else m2;
    var sub := if m1.order > m2.order then m2 else m1;
    if m1.kind == TerrainType && m2.kind == TerrainType && ((m1.mat == 1 && m2.mat == 0) || (m1.mat == 0 && m2.mat == 1)) then
      TerrainEdge
    else if SolidSet(main) && sub.mat == 0 then
      if SameSource(main, m1) then SDFEdge(1, m1, m1.mat) else SDFEdge(-1, m2, m2.mat)
    else if AirSet(main) && sub.mat != 0 then
      if SameSource(main, m1) then SDFEdge(-1, m1, m2.mat) else SDFEdge(1, m2, m1.mat)
    else NoEdge
  }

  /** Sources as sampling produces them: never material 255, terrain only
      with material 0 or 1. */
  predicate Sampled(m: SDFInfo) {
    m.mat != Unset && (m.kind == TerrainType ==> m.mat <= 1)
  }

  /** Corner sources are sampled sources. */
  lemma CornerSourceSampled(c: CornerInput)
    ensures Sampled(CornerSource(c))
  {
  }

  /** Between sampled sources where two edits that `Equals` calls the same
      agree on material (an edit has one material; terrain corners all have
      order 0 and may differ), an edge carries a crossing exactly
      when one endpoint is air; the sign is +1 iff the first endpoint is the
      solid one, the material is the solid side's, and the geometry comes
      from the newer source (the second on ties). */
  lemma PlanCrossing(m1: SDFInfo, m2: SDFInfo)
    requires Sampled(m1) && Sampled(m2)
    requires SameSource(m1, m2) && m1.kind != TerrainType ==> m1.mat == m2.mat
    ensures PlanEdge(m1, m2) != NoEdge <==> (m1.mat == 0) != (m2.mat == 0)
    ensures PlanEdge(m1, m2) == TerrainEdge <==> m1.kind == TerrainType && m2.kind == TerrainType && m1.mat != m2.mat
    ensures PlanEdge(m1, m2).SDFEdge? ==>
      (PlanEdge(m1, m2).sign == 1 <==> m1.mat != 0) &&
      PlanEdge(m1, m2).mat == (if m1.mat != 0 then m1.mat else m2.mat) &&
      PlanEdge(m1, m2).src == (if m1.order > m2.order then m1 else m2)
  {
  }

  /** The two floating-point crossing computations, as functions:
      `GetTerrainEdge` (position and normal) and the sphere branch of
      `GetSurfacePosNor`. */
  datatype Field = Field(
    terrainEdge: (Box, Vec3, char) -> (Vec3, Vec3),
    sphereEdge: (SphereSDF, Vec3, char, int, Mat) -> (Vec3, Vec3))

  /** `GetSDFEdge`: cube sources use the grid geometry, all others the
      sphere geometry; the record keeps the source's kind. */
  function SDFEdgeData(f: Field, edgeMin: Vec3, edgeDir: char, edgeSign: int, edgeLength: int, sdf: SDFInfo, mat: Mat): (r: SurfaceData)
    ensures r.valid && r.mat == mat && r.dir == edgeDir && r.sdfType == sdf.kind
    ensures sdf.kind == CubeType ==> (r.pos, r.nor) == CubeSurfacePosNor(edgeMin, edgeDir, edgeSign)
  {
    var pn := if sdf.kind == CubeType then CubeSurfacePosNor(edgeMin, edgeDir, edgeSign)
              else f.sphereEdge(sdf.sphere, edgeMin, edgeDir, edgeLength, sdf.mat);
    SurfaceData(true, pn.0, pn.1, mat, sdf.kind, edgeDir)
  }

  /** `GetSurfaceData`: the crossing record of one edge of `node`. */
  function EdgeSurface(f: Field, node: Box, edgeMin: Vec3, edgeDir: char, m1: SDFInfo, m2: SDFInfo): (r: SurfaceData)
    ensures r.valid <==> PlanEdge(m1, m2) != NoEdge
    ensures PlanEdge(m1, m2) == NoEdge ==> r == InvalidSurface
    ensures PlanEdge(m1, m2) == TerrainEdge ==> IsTerrain(r) && r.mat == 1 && r.dir == edgeDir
    ensures PlanEdge(m1, m2).SDFEdge? ==>
      r.sdfType == PlanEdge(m1, m2).src.kind && r.mat == PlanEdge(m1, m2).mat && r.dir == edgeDir
  {
    match PlanEdge(m1, m2)
    case TerrainEdge =>
      var pn := f.terrainEdge(node, edgeMin, edgeDir);
      SurfaceData(true, pn.0, pn.1, 1, TerrainType, edgeDir)
    case SDFEdge(sign, src, mat) => SDFEdgeData(f, edgeMin, edgeDir, sign, node.w, src, mat)
    case NoEdge => InvalidSurface
  }

  // ---------------------------------------------------------------- one node

  /** The twelve edges of a node in the order `RecalculateSingleNode` visits
      them: four along x, four along y, four along z; each is (first corner,
      second corner), corners indexed `x*4+y*2+z`. */
  function EdgeEnds(e: int): (r: (int, int))
    requires 0 <= e < 12
    ensures 0 <= r.0 < 8 && 0 <= r.1 < 8
  {
    if e < 4 then (e, e + 4)
    else if e < 8 then (if e == 4 then (0, 2) else if e == 5 then (4, 6) else if e == 6 then (1, 3) else (5, 7))
    else (if e == 8 then (0, 1) else if e == 9 then (4, 5) else if e == 10 then (2, 3) else (6, 7))
  }

  function EdgeAxis(e: int): char
    requires 0 <= e < 12
  {
    if e < 4 then 'x' else if e < 8 then 'y' else 'z'
  }

  /** The position of an edge in the table, from its two corners. */
  function EdgeIndexOf(a: int, b: int): int {
    if b - a == 4 then a
    else if b - a == 2 then (if a == 0 then 4 else if a == 4 then 5 else if a == 1 then 6 else 7)
    else (if a == 0 then 8 else if a == 4 then 9 else if a == 2 then 10 else 11)
  }

  /** Each listed edge joins two corners that differ exactly in its axis's
      bit, clear in the first corner; the table can be read backwards, so
      the twelve edges are distinct. */
  lemma EdgeTable(e: int)
    requires 0 <= e < 12
    ensures EdgeEnds(e).1 == EdgeEnds(e).0 + AxisBit(EdgeAxis(e)) && (EdgeEnds(e).0 / AxisBit(EdgeAxis(e))) % 2 == 0
    ensures EdgeIndexOf(EdgeEnds(e).0, EdgeEnds(e).1) == e
  {
    if e == 0 {} else if e == 1 {} else if e == 2 {} else if e == 3 {}
    else if e == 4 {} else if e == 5 {} else if e == 6 {} else if e == 7 {}
    else if e == 8 {} else if e == 9 {} else if e == 10 {} else {}
  }

  lemma EdgesDistinct(e: int, e': int)
    requires 0 <= e < 12 && 0 <= e' < 12 && e != e'
    ensures EdgeEnds(e) != EdgeEnds(e')
  {
    EdgeTable(e);
    EdgeTable(e');
  }

  /** Corner `i` of a node: min + `Octant(i)` times the edge. */
  function CornerPos(node: Box, i: int): Vec3
    requires 0 <= i < 8
  {
    var o := Octant(i);
    Vec3(node.x + Step(o.x, node.w), node.y + Step(o.y, node.w), node.z + Step(o.z, node.w))
  }

  /** The crossing record of edge `e` given the eight corner sources. */
  function NodeEdge(f: Field, node: Box, corners: seq<SDFInfo>, e: int): SurfaceData
    requires |corners| == 8 && 0 <= e < 12
  {
    var (a, b) := EdgeEnds(e);
    EdgeSurface(f, node, CornerPos(node, a), EdgeAxis(e), corners[a], corners[b])
  }

  function NodeEdges(f: Field, node: Box, corners: seq<SDFInfo>): (s: seq<SurfaceData>)
    requires |corners| == 8
    ensures |s| == 12
  {
    seq(12, e requires 0 <= e < 12 => NodeEdge(f, node, corners, e))
  }

  /** `RecalculateSingleNode`: corner sources, then the three source flags
      over all twelve edge records, then the records themselves. */
  function RecalculateSingleNode(f: Field, node: Box, inputs: seq<CornerInput>): (d: SingleNodeData)
    requires |inputs| == 8
    ensures NodeDataOk(d) && d.node == node
    ensures forall i | 0 <= i < 8 :: d.corners[i] == CornerSource(inputs[i]) && Sampled(d.corners[i])
    ensures var es := NodeEdges(f, node, d.corners);
      d.surfaces == Accepted(es) &&
      (d.hasCubeData <==> exists e | 0 <= e < 12 :: IsCube(es[e])) &&
      (d.hasSphereData <==> exists e | 0 <= e < 12 :: IsSphere(es[e])) &&
      (d.hasTerrainData <==> exists e | 0 <= e < 12 :: IsTerrain(es[e]))
  {
    var corners := seq(8, i requires 0 <= i < 8 => CornerSource(inputs[i]));
    assert forall i | 0 <= i < 8 :: Sampled(corners[i]) by {
      forall i | 0 <= i < 8 {
        CornerSourceSampled(inputs[i]);
      }
    }
    var es := NodeEdges(f, node, corners);
    var d0 := CreateNodeData(node).(corners := corners,
      hasCubeData := exists e | 0 <= e < 12 :: IsCube(es[e]),
      hasSphereData := exists e | 0 <= e < 12 :: IsSphere(es[e]),
      hasTerrainData := exists e | 0 <= e < 12 :: IsTerrain(es[e]));
    AddAllFromEmpty(d0, es);
    AddAll(d0, es)
  }

  /** Filling an empty node with at most twelve records keeps exactly the
      valid ones. */
  lemma AddAllFromEmpty(d: SingleNodeData, sds: seq<SurfaceData>)
    requires NodeDataOk(d) && |d.surfaces| == 0 && |sds| <= 12
    ensures AddAll(d, sds).surfaces == Accepted(sds)
  {
    AddAllKeepsAccepted(d, sds);
    assert d.surfaces + Take(Accepted(sds), 12) == Accepted(sds);
  }

  /** Every stored crossing of a sampled node lies on an edge whose
      endpoints are one air and one non-air corner, given an edit has one
      material; terrain corners may differ. */
  lemma StoredCrossingsSeparateAir(f: Field, node: Box, inputs: seq<CornerInput>, e: int)
    requires |inputs| == 8 && 0 <= e < 12
    requires forall i, j | 0 <= i < 8 && 0 <= j < 8 ::
      SameSource(CornerSource(inputs[i]), CornerSource(inputs[j])) && CornerSource(inputs[i]).kind != TerrainType ==>
      CornerSource(inputs[i]).mat == CornerSource(inputs[j]).mat
    ensures var d := RecalculateSingleNode(f, node, inputs);
      var (a, b) := EdgeEnds(e);
      NodeEdges(f, node, d.corners)[e].valid <==> (d.corners[a].mat == 0) != (d.corners[b].mat == 0)
  {
    var d := RecalculateSingleNode(f, node, inputs);
    var (a, b) := EdgeEnds(e);
    PlanCrossing(d.corners[a], d.corners[b]);
  }
}
