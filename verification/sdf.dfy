/** The per-corner volume source (`SDFInfo`), the per-edge surface record
    (`SurfaceData`) and the per-node result of sampling (`SingleNodeData`).

    Surface positions and normals are lattice vectors; the terrain and
    sphere crossings that the engine computes in floating point stay
    outside this module and arrive as values. */
module Surfaces {
  import opened Lattice
  import opened CubeOctrees

  /** Source kinds: 0 terrain, 1 cube, 2 sphere; 255 marks an invalid entry. */
  const TerrainType: Mat := 0
  const CubeType: Mat := 1
  const SphereType: Mat := 2

  /** `SDFInfo`: the source that decides a corner. */
  datatype SDFInfo = SDFInfo(kind: Mat, mat: Mat, order: nat, sphere: SphereSDF)

  /** The default sphere: `new SphereSDF(0, 0, 0, 255)`. */
  const NoSphere := SphereSDF(Vec3(0, 0, 0), 0, 0, Unset)

  /** `new SDFInfo(type, mat, order)`.  The trailing `type = 255` for mat 255
      assigns the parameter, so the stored type is the argument. */
  function MakeSDF(kind: Mat, mat: Mat, order: nat): (r: SDFInfo)
    ensures r.kind == kind && r.mat == mat && r.order == order && r.sphere == SphereSDF(Vec3(0, 0, 0), 0, 0, 0)
  {
    SDFInfo(kind, mat, order, SphereSDF(Vec3(0, 0, 0), 0, 0, 0))
  }

  /** `new SDFInfo(type, sphere)`: material and order come from the sphere;
      the type is again stored as given. */
  function SphereSDFInfo(kind: Mat, s: SphereSDF): (r: SDFInfo)
    ensures r.kind == kind && r.mat == s.mat && r.order == s.order && r.sphere == s
  {
    SDFInfo(kind, s.mat, s.order, s)
  }

  /** Neither constructor rewrites the type of a material-255 source. */
  lemma ConstructorsKeepType(kind: Mat, order: nat, s: SphereSDF)
    requires s.mat == Unset
    ensures MakeSDF(kind, Unset, order).kind == kind
    ensures SphereSDFInfo(kind, s).kind == kind
  {
  }

  /** `SDFInfo.Terrain(m)`. */
  function Terrain(m: Mat): (r: SDFInfo)
    ensures r.kind == TerrainType && r.mat == m && r.order == 0
  {
    MakeSDF(TerrainType, m, 0)
  }

  /** `SDFInfo.Invalid()`. */
  function Invalid(): (r: SDFInfo)
    ensures r.kind == Unset && r.mat == Unset && r.order == 0
  {
    MakeSDF(Unset, Unset, 0)
  }

  /** `SDFInfo.Equals`: order and type only. */
  predicate SameSource(a: SDFInfo, b: SDFInfo) {
    a.order == b.order && a.kind == b.kind
  }

  /** `CubeUtil.GetCubeGridPointCeiled`: the first cube-grid plane at or
      above the world coordinate (planes sit at 8k + 1 eighths). */
  function GridPointCeiled(w: int): (r: int)
    ensures r % CubeSize == CubeGridOffset && w <= r < w + CubeSize
  {
    var icp := -((-(w - CubeGridOffset)) / CubeSize);
    assert w <= icp * CubeSize + CubeGridOffset < w + CubeSize by {
      FloorBounds(-(w - CubeGridOffset), CubeSize);
    }
    assert (icp * CubeSize + CubeGridOffset) % CubeSize == CubeGridOffset by {
      DivUnique(icp * CubeSize + CubeGridOffset, CubeSize, icp, CubeGridOffset);
    }
    icp * CubeSize + CubeGridOffset
  }

  /** The ceiled grid point is the only grid plane within one cube above `w`. */
  lemma GridPointCeiledUnique(w: int, r: int)
    requires r % CubeSize == CubeGridOffset && w <= r < w + CubeSize
    ensures r == GridPointCeiled(w)
  {
    var c := GridPointCeiled(w);
    assert (r - CubeGridOffset) % CubeSize == 0 by {
      DivUnique(r - CubeGridOffset, CubeSize, r / CubeSize, 0);
    }
    assert (c - CubeGridOffset) % CubeSize == 0 by {
      DivUnique(c - CubeGridOffset, CubeSize, c / CubeSize, 0);
    }
    if r < c {
      MultipleGap(r - CubeGridOffset, c - CubeGridOffset, CubeSize);
    } else if c < r {
      MultipleGap(c - CubeGridOffset, r - CubeGridOffset, CubeSize);
    }
  }

  /** `GetSurfacePosNor` for a cube source: the position moves only along
      the edge axis, to the next grid plane; the normal is the axis unit
      vector, positive iff `edgeSign > 0`. */
  function CubeSurfacePosNor(edgeMin: Vec3, edgeDir: char, edgeSign: int): (r: (Vec3, Vec3))
    ensures edgeDir == 'x' ==> r.0 == Vec3(GridPointCeiled(edgeMin.x), edgeMin.y, edgeMin.z)
    ensures edgeDir == 'y' ==> r.0 == Vec3(edgeMin.x, GridPointCeiled(edgeMin.y), edgeMin.z)
    ensures edgeDir != 'x' && edgeDir != 'y' ==> r.0 == Vec3(edgeMin.x, edgeMin.y, GridPointCeiled(edgeMin.z))
    ensures r.1 == AxisVec(edgeDir).Scale(if edgeSign > 0 then 1 else -1)
  {
    var s := if edgeSign > 0 then 1 else -1;
    if edgeDir == 'x' then (Vec3(GridPointCeiled(edgeMin.x), edgeMin.y, edgeMin.z), Vec3(s, 0, 0))
    else if edgeDir == 'y' then (Vec3(edgeMin.x, GridPointCeiled(edgeMin.y), edgeMin.z), Vec3(0, s, 0))
    else (Vec3(edgeMin.x, edgeMin.y, GridPointCeiled(edgeMin.z)), Vec3(0, 0, s))
  }

  /** The cube surface point lies on the edge's line, at most one cube
      ahead of the edge start. */
  lemma CubeSurfaceOnEdge(edgeMin: Vec3, edgeDir: char, edgeSign: int)
    ensures var p := CubeSurfacePosNor(edgeMin, edgeDir, edgeSign).0;
      var d := AxisVec(edgeDir);
      exists t | 0 <= t < CubeSize :: p == edgeMin.Plus(d.Scale(t))
  {
    var p := CubeSurfacePosNor(edgeMin, edgeDir, edgeSign).0;
    var d := AxisVec(edgeDir);
    if edgeDir == 'x' {
      var t := GridPointCeiled(edgeMin.x) - edgeMin.x;
      assert p == edgeMin.Plus(d.Scale(t));
    } else if edgeDir == 'y' {
      var t := GridPointCeiled(edgeMin.y) - edgeMin.y;
      assert p == edgeMin.Plus(d.Scale(t));
    } else {
      var t := GridPointCeiled(edgeMin.z) - edgeMin.z;
      assert p == edgeMin.Plus(d.Scale(t));
    }
  }

  // ---------------------------------------------------------------- SurfaceData

  /** `SurfaceData`: a crossing on one edge. */
  datatype SurfaceData = SurfaceData(valid: bool, pos: Vec3, nor: Vec3, mat: Mat, sdfType: Mat, dir: char)

  /** `default(SurfaceData)`. */
  const NoSurface := SurfaceData(false, Vec3(0, 0, 0), Vec3(0, 0, 0), 0, 0, 0 as char)

  /** `SurfaceData.Invalid()`. */
  const InvalidSurface := SurfaceData(false, Vec3(0, 0, 0), Vec3(0, 0, 0), 0, Unset, ' ')

  predicate IsTerrain(s: SurfaceData) { s.valid && s.sdfType == TerrainType }
  predicate IsCube(s: SurfaceData) { s.valid && s.sdfType == CubeType }
  predicate IsSphere(s: SurfaceData) { s.valid && s.sdfType == SphereType }

  /** At most one of the kind tests holds. */
  lemma SurfaceKindsExclusive(s: SurfaceData)
    ensures !(IsTerrain(s) && IsCube(s)) && !(IsTerrain(s) && IsSphere(s)) && !(IsCube(s) && IsSphere(s))
    ensures !s.valid ==> !IsTerrain(s) && !IsCube(s) && !IsSphere(s)
  {
  }

  // ---------------------------------------------------------------- SingleNodeData

  /** A stored crossing: `SingleNodeData` keeps position, normal, material
      and direction, not the source kind. */
  datatype Stored = Stored(pos: Vec3, nor: Vec3, mat: Mat, dir: char)

  /** `SingleNodeData`: the node, its eight corner sources (index
      `x*4+y*2+z`), the accepted crossings and the three source flags. */
  datatype SingleNodeData = SingleNodeData(
    node: Box, corners: seq<SDFInfo>, surfaces: seq<Stored>,
    hasCubeData: bool, hasSphereData: bool, hasTerrainData: bool)

  predicate NodeDataOk(d: SingleNodeData) {
    |d.corners| == 8 && |d.surfaces| <= 12
  }

  /** `SingleNodeData.Create`: no crossings, no flags, default corners. */
  function CreateNodeData(nb: Box): (d: SingleNodeData)
    ensures NodeDataOk(d) && d.node == nb && |d.surfaces| == 0
    ensures !d.hasCubeData && !d.hasSphereData && !d.hasTerrainData
  {
    SingleNodeData(nb, seq(8, _ => MakeSDF(0, 0, 0)), [], false, false, false)
  }

  /** The slot `SetCornerSDF` writes: `x*4+y*2+z`, anything outside 0..6
      falling to slot 7 (the `default` case). */
  function CornerSlot(c: Vec3): (k: int)
    ensures 0 <= k < 8
    ensures 0 <= c.x < 2 && 0 <= c.y < 2 && 0 <= c.z < 2 ==> k == OctantIndex(c)
  {
    var idx := c.x * 4 + c.y * 2 + c.z;
    if 0 <= idx < 7 then idx else 7
  }

  /** `SetCornerSDF`. */
  function SetCornerSDF(d: SingleNodeData, c: Vec3, s: SDFInfo): (r: SingleNodeData)
    requires NodeDataOk(d)
    ensures NodeDataOk(r) && r.corners[CornerSlot(c)] == s
    ensures forall k | 0 <= k < 8 && k != CornerSlot(c) :: r.corners[k] == d.corners[k]
    ensures r.surfaces == d.surfaces && r.node == d.node
  {
    d.(corners := d.corners[CornerSlot(c) := s])
  }

  /** `GetCornerSDF`: indices outside 0..6 read slot 7. */
  function GetCornerSDF(d: SingleNodeData, idx: int): SDFInfo
    requires NodeDataOk(d)
  {
    if 0 <= idx < 7 then d.corners[idx] else d.corners[7]
  }

  /** Writing corner (x, y, z) and reading index `x*4+y*2+z` gives the value
      back; the other corners keep theirs. */
  lemma CornerRoundTrip(d: SingleNodeData, c: Vec3, s: SDFInfo, idx: int)
    requires NodeDataOk(d) && 0 <= c.x < 2 && 0 <= c.y < 2 && 0 <= c.z < 2
    requires 0 <= idx < 8
    ensures GetCornerSDF(SetCornerSDF(d, c, s), OctantIndex(c)) == s
    ensures idx != OctantIndex(c) ==> GetCornerSDF(SetCornerSDF(d, c, s), idx) == GetCornerSDF(d, idx)
  {
  }

  /** `AddSurfaceData`: invalid records and anything past twelve are
      dropped. */
  function AddSurfaceData(d: SingleNodeData, sd: SurfaceData): (r: SingleNodeData)
    requires NodeDataOk(d)
    ensures NodeDataOk(r) && r.corners == d.corners && r.node == d.node
    ensures r.hasCubeData == d.hasCubeData && r.hasSphereData == d.hasSphereData && r.hasTerrainData == d.hasTerrainData
    ensures (sd.valid && |d.surfaces| < 12) ==> r.surfaces == d.surfaces + [Stored(sd.pos, sd.nor, sd.mat, sd.dir)]
    ensures !(sd.valid && |d.surfaces| < 12) ==> r.surfaces == d.surfaces
  {
    if !sd.valid || |d.surfaces| >= 12 then d
    else d.(surfaces := d.surfaces + [Stored(sd.pos, sd.nor, sd.mat, sd.dir)])
  }

  /** `GetSurfaceData(index)`: the stored record marked valid (its source
      kind reads back as 0, since it is not stored), or the default record
      outside `0..count`. */
  function GetSurfaceData(d: SingleNodeData, index: int): (r: SurfaceData)
    requires NodeDataOk(d)
    ensures !(0 <= index < |d.surfaces|) ==> r == NoSurface
    ensures 0 <= index < |d.surfaces| ==> r.valid && r.sdfType == 0
  {
    if index < 0 || index >= |d.surfaces| then NoSurface
    else
      var e := d.surfaces[index];
      SurfaceData(true, e.pos, e.nor, e.mat, 0, e.dir)
  }

  /** Adds a list of records in order. */
  function AddAll(d: SingleNodeData, sds: seq<SurfaceData>): (r: SingleNodeData)
    requires NodeDataOk(d)
    ensures NodeDataOk(r) && r.corners == d.corners && r.node == d.node
    ensures r.hasCubeData == d.hasCubeData && r.hasSphereData == d.hasSphereData && r.hasTerrainData == d.hasTerrainData
    decreases |sds|
  {
    if |sds| == 0 then d else AddAll(AddSurfaceData(d, sds[0]), sds[1..])
  }

  /** The valid records of a list, in order. */
  function Accepted(sds: seq<SurfaceData>): (a: seq<Stored>)
    ensures |a| <= |sds|
  {
    if |sds| == 0 then []
    else
      var first := if sds[0].valid then [Stored(sds[0].pos, sds[0].nor, sds[0].mat, sds[0].dir)] else [];
      first + Accepted(sds[1..])
  }

  /** The first `room` elements of a list, or all of it. */
  function Take<T>(a: seq<T>, room: int): (t: seq<T>)
    requires room >= 0
    ensures |t| <= room && |t| <= |a|
  {
    if |a| <= room then a else a[..room]
  }

  lemma TakeCons<T>(e: T, rest: seq<T>, room: int)
    requires room > 0
    ensures Take([e] + rest, room) == [e] + Take(rest, room - 1)
  {
    if |rest| > room - 1 {
      assert ([e] + rest)[..room] == [e] + rest[..room - 1];
    }
  }

  /** Adding records keeps the first `12 - count` valid ones, in order. */
  lemma {:induction false} AddAllKeepsAccepted(d: SingleNodeData, sds: seq<SurfaceData>)
    requires NodeDataOk(d)
    ensures AddAll(d, sds).surfaces == d.surfaces + Take(Accepted(sds), 12 - |d.surfaces|)
    decreases |sds|
  {
    if |sds| > 0 {
      var d1 := AddSurfaceData(d, sds[0]);
      assert AddAll(d, sds) == AddAll(d1, sds[1..]);
      AddAllKeepsAccepted(d1, sds[1..]);
      var rest := Accepted(sds[1..]);
      var room := 12 - |d.surfaces|;
      if sds[0].valid && room > 0 {
        var e := Stored(sds[0].pos, sds[0].nor, sds[0].mat, sds[0].dir);
        assert Accepted(sds) == [e] + rest;
        TakeCons(e, rest, room);
        assert d1.surfaces == d.surfaces + [e];
        assert d.surfaces + [e] + Take(rest, room - 1) == d.surfaces + ([e] + Take(rest, room - 1));
      } else if sds[0].valid {
        AddAllFull(d1, sds[1..]);
      } else {
        assert Accepted(sds) == rest;
      }
    }
  }

  /** A full node takes no more records. */
  lemma {:induction false} AddAllFull(d: SingleNodeData, sds: seq<SurfaceData>)
    requires NodeDataOk(d) && |d.surfaces| == 12
    ensures AddAll(d, sds).surfaces == d.surfaces
    decreases |sds|
  {
    if |sds| > 0 {
      AddAllFull(AddSurfaceData(d, sds[0]), sds[1..]);
    }
  }

  /** Reading back after adding: index `i` of a node filled from empty is
      the `i`-th valid record of the input, marked valid. */
  lemma ReadBackAccepted(nb: Box, sds: seq<SurfaceData>, i: int)
    requires 0 <= i < |Accepted(sds)| && i < 12
    ensures var r := GetSurfaceData(AddAll(CreateNodeData(nb), sds), i);
      var e := Accepted(sds)[i];
      r == SurfaceData(true, e.pos, e.nor, e.mat, 0, e.dir)
  {
    AddAllKeepsAccepted(CreateNodeData(nb), sds);
  }
}
