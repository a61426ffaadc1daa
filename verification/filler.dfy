/** Terrain crossings from the heightmap (`OctreeDataFiller`).  A chunk is
    cut into a grid of `GridCount` cells per edge; each column of the grid
    reads the terrain height at its corner and at the next corner along x
    and z, and every cell edge the surface crosses is marked on the four
    leaves that share it: the crossing is appended to each leaf's edge data
    and the two ends of the edge are set to terrain air and terrain solid.

    Heights are reals (world eighths) and stand for the engine's floats; the
    surface point and normal of a crossing (`Lerp`, `GetNormal`) are a
    parameter.  The rounding of float arithmetic is not modelled. */
module HeightmapFiller {
  import opened Wrappers
  import opened Lattice
  import CubeOctrees
  import opened Surfaces
  import opened SpatialOctree
  import opened LeafNodes
  import opened Contouring
  import Refinement

  // ---------------------------------------------------------------- grid

  /** `ChunkSize / TerrainResMul`: grid cells per chunk edge. */
  const GridCount: int := ChunkSize / Eighths / TerrainResMul

  /** A chunk box the grid divides: a positive multiple of the cell count. */
  predicate Gridded(c: Box) {
    c.w > 0 && c.w % GridCount == 0
  }

  /** `chunkNode.size / ChunkSize * TerrainResMul`: the edge of a grid cell. */
  function CellEdge(c: Box): (m: int)
    requires Gridded(c)
    ensures m > 0 && m * GridCount == c.w
  {
    c.w / GridCount
  }

  /** A LOD's chunk edge is gridded. */
  lemma LodSizeGridded(lod: nat)
    ensures LodSize(lod) > 0 && LodSize(lod) % GridCount == 0
  {
    var p := Pow2(lod);
    assert LodSize(lod) == 128 * p;
    DivUnique(128 * p, GridCount, 16 * p, 0);
  }

  /** `Mathf.CeilToInt`. */
  function Ceil(x: real): (c: int)
    ensures (c - 1) as real < x <= c as real
  {
    -((-x).Floor)
  }

  lemma MulReal(a: real, b: real, m: real)
    requires m > 0.0
    ensures a <= b ==> a * m <= b * m
    ensures a < b ==> a * m < b * m
  {
  }

  /** `CeilToInt(height0 / minNodeSize) - 1`: the grid cell holding a height
      above the chunk floor, a cell owning its top plane. */
  function CellBelow(h0: real, m: int): (j: int)
    requires m > 0
    ensures ((j * m) as real) < h0 <= (((j + 1) * m) as real)
  {
    var x := h0 / (m as real);
    var c := Ceil(x);
    MulReal(x, c as real, m as real);
    MulReal((c - 1) as real, x, m as real);
    assert (c * m) as real == (c as real) * (m as real);
    assert ((c - 1) * m) as real == ((c - 1) as real) * (m as real);
    c - 1
  }

  /** The cell is the only one whose half-open range holds the height. */
  lemma CellBelowUnique(h0: real, m: int, j: int)
    requires m > 0 && ((j * m) as real) < h0 <= (((j + 1) * m) as real)
    ensures CellBelow(h0, m) == j
  {
    var c := CellBelow(h0, m);
    if c < j {
      MulLe(c + 1, j, m);
    } else if c > j {
      MulLe(j + 1, c, m);
    }
  }

  /** The height of a grid level above the chunk floor. */
  function Level(a: int, m: int): real {
    (a * m) as real
  }

  /** The cells from `lo` to `hi`, in increasing order. */
  function Levels(lo: int, hi: int): (r: seq<int>)
    ensures forall a :: a in r <==> lo <= a <= hi
    ensures forall t | 0 <= t < |r| :: r[t] == lo + t
  {
    if lo > hi then [] else
      var r := seq(hi - lo + 1, t => lo + t);
      forall a | lo <= a <= hi ensures a in r {
        assert r[a - lo] == a;
      }
      r
  }

  function Min(a: int, b: int): int {
    if a <= b then a else b
  }

  function Max(a: int, b: int): int {
    if a >= b then a else b
  }

  /** The levels the x (or z) loop of `FillChunkHeightMap` visits between
      the cells of two neighbouring heights, clipped to the chunk. */
  function CrossedLevels(j: int, jn: int): (r: seq<int>)
    ensures forall a :: a in r <==> 0 <= a <= GridCount && Min(j, jn) < a <= Max(j, jn)
  {
    Levels(Max(0, Min(j, jn) + 1), Min(GridCount, Max(j, jn)))
  }

  /** A level lies strictly between the cells of two heights exactly when
      the surface passes it between them: at or above the lower height and
      below the upper one. */
  lemma LevelCrossed(h0: real, hn: real, m: int, a: int)
    requires m > 0
    ensures var j := CellBelow(h0, m); var jn := CellBelow(hn, m);
      Min(j, jn) < a <= Max(j, jn) <==>
        (h0 <= Level(a, m) < hn) || (hn <= Level(a, m) < h0)
  {
    var j := CellBelow(h0, m);
    var jn := CellBelow(hn, m);
    LevelVsCell(h0, m, a);
    LevelVsCell(hn, m, a);
  }

  /** A level is at or above a height exactly when it is above its cell. */
  lemma LevelVsCell(h0: real, m: int, a: int)
    requires m > 0
    ensures CellBelow(h0, m) < a <==> h0 <= Level(a, m)
  {
    var j := CellBelow(h0, m);
    MulLe(j + 1, a, m);
    MulLe(a, j, m);
  }

  /** Cells of two heights differ in the direction of the heights. */
  lemma CellsOrdered(h0: real, hn: real, m: int)
    requires m > 0 && CellBelow(h0, m) != CellBelow(hn, m)
    ensures CellBelow(h0, m) > CellBelow(hn, m) <==> hn < h0
  {
    var j := CellBelow(h0, m);
    var jn := CellBelow(hn, m);
    if j > jn {
      MulLe(jn + 1, j, m);
    } else {
      MulLe(j + 1, jn, m);
    }
  }

  // ---------------------------------------------------------------- the y edge

  /** The y-edge test of `FillChunkHeightMap` as written,
      `height0 >= 0 && height0 < chunkNode.size`. */
  predicate YEdgeAsWritten(h0: real, w: int) {
    0.0 <= h0 < w as real
  }

  /** The test with the comparisons the cell formula needs: a height on the
      floor belongs to the chunk below, one on the ceiling to this one. */
  predicate YEdge(h0: real, w: int) {
    0.0 < h0 <= w as real
  }

  /** With the test as written, a height on a chunk's floor is taken by the
      chunk, but its cell is the one below the chunk, so no leaf of the chunk
      holds the edge; the chunk below, seeing the same height on its ceiling,
      skips it.  The crossing is lost. */
  lemma YEdgeAsWrittenLosesFloor()
    ensures YEdgeAsWritten(0.0, ChunkSize) && CellBelow(0.0, ChunkSize / GridCount) == -1
    ensures !YEdgeAsWritten(ChunkSize as real, ChunkSize)
    ensures CellBelow(ChunkSize as real, ChunkSize / GridCount) == GridCount - 1
  {
    CellBelowUnique(0.0, 16, -1);
    CellBelowUnique(ChunkSize as real, 16, 7);
  }

  /** The corrected test keeps exactly the heights whose cell lies inside
      the chunk. */
  lemma YEdgeInside(h0: real, c: Box)
    requires Gridded(c)
    ensures YEdge(h0, c.w) <==> 0 <= CellBelow(h0, CellEdge(c)) < GridCount
  {
    var m := CellEdge(c);
    LevelVsCell(h0, m, 0);
    LevelVsCell(h0, m, GridCount);
  }

  /** Of a stack of chunks of one edge, exactly one takes a given height:
      the one `CellBelow(h0, w)` chunks up. */
  lemma YEdgeOwnedOnce(h0: real, w: int, k: int)
    requires w > 0
    ensures YEdge(h0 - Level(k, w), w) <==> k == CellBelow(h0, w)
  {
    var j := CellBelow(h0, w);
    assert Level(k + 1, w) == Level(k, w) + w as real;
    if YEdge(h0 - Level(k, w), w) {
      CellBelowUnique(h0, w, k);
    }
  }

  // ---------------------------------------------------------------- the columns

  /** A crossing to mark: the min end of a cell edge and the direction of
      the surface normal there (1 x+, 2 x-, 3 y+, 4 y-, 5 z+, 6 z-). */
  datatype Job = Job(p: Vec3, dir: int)

  /** The terrain height of column `(i, k)`, above the chunk floor. */
  function Height0(c: Box, height: (int, int) -> real, i: int, k: int): real
    requires Gridded(c)
  {
    height(c.x + CellEdge(c) * i, c.z + CellEdge(c) * k) - c.y as real
  }

  /** The grid point of column `(i, k)` at level `a`. */
  function GridPoint(c: Box, i: int, a: int, k: int): Vec3
    requires Gridded(c)
  {
    Vec3(c.x + CellEdge(c) * i, c.y + CellEdge(c) * a, c.z + CellEdge(c) * k)
  }

  /** Which y-edge test the fill applies: the source's or the corrected one. */
  datatype YTest = AsWritten | Corrected

  /** The y-edge test `t` names. */
  predicate TakesHeight(t: YTest, h0: real, w: int) {
    match t
    case AsWritten => YEdgeAsWritten(h0, w)
    case Corrected => YEdge(h0, w)
  }

  /** The vertical crossing of a column: the edge of the height's cell,
      normal up, when the test takes the height. */
  function YJobs(t: YTest, c: Box, h0: real, i: int, k: int): (r: seq<Job>)
    requires Gridded(c)
    ensures |r| <= 1
  {
    if TakesHeight(t, h0, c.w) then [Job(GridPoint(c, i, CellBelow(h0, CellEdge(c)), k), 3)] else []
  }

  /** The horizontal crossings between a column and its neighbour: one edge
      per level passed, at the column's grid point; `minus` and `plus` are the
      normal directions for a falling and a rising surface. */
  function SideJobs(c: Box, h0: real, hn: real, i: int, k: int, plus: int, minus: int): (r: seq<Job>)
    requires Gridded(c)
    ensures forall t | 0 <= t < |r| :: r[t].dir == plus || r[t].dir == minus
  {
    var m := CellEdge(c);
    var j := CellBelow(h0, m);
    var jn := CellBelow(hn, m);
    if j == jn then [] else
      var ls := CrossedLevels(j, jn);
      seq(|ls|, t requires 0 <= t < |ls| => Job(GridPoint(c, i, ls[t], k), if j > jn then plus else minus))
  }

  /** One pass of the inner loop of `FillChunkHeightMap`: the y crossing,
      then the x crossings unless the column is on the far x face, then the
      z crossings unless it is on the far z face. */
  function ColumnJobs(t: YTest, c: Box, height: (int, int) -> real, i: int, k: int): seq<Job>
    requires Gridded(c)
  {
    var h0 := Height0(c, height, i, k);
    YJobs(t, c, h0, i, k)
      + (if i == GridCount then [] else SideJobs(c, h0, Height0(c, height, i + 1, k), i, k, 1, 2))
      + (if k == GridCount then [] else SideJobs(c, h0, Height0(c, height, i, k + 1), i, k, 5, 6))
  }

  /** The side jobs are the crossed levels, all with one direction. */
  lemma SideJobsMembers(c: Box, h0: real, hn: real, i: int, k: int, plus: int, minus: int, a: int, d: int)
    requires Gridded(c)
    ensures var j := CellBelow(h0, CellEdge(c)); var jn := CellBelow(hn, CellEdge(c));
      Job(GridPoint(c, i, a, k), d) in SideJobs(c, h0, hn, i, k, plus, minus) <==>
        j != jn && a in CrossedLevels(j, jn) && d == (if j > jn then plus else minus)
  {
    var m := CellEdge(c);
    var j := CellBelow(h0, m);
    var jn := CellBelow(hn, m);
    var r := SideJobs(c, h0, hn, i, k, plus, minus);
    if j != jn {
      var ls := CrossedLevels(j, jn);
      if a in ls {
        var t := a - Max(0, Min(j, jn) + 1);
        assert r[t] == Job(GridPoint(c, i, a, k), if j > jn then plus else minus);
      }
      if Job(GridPoint(c, i, a, k), d) in r {
        var t :| 0 <= t < |r| && r[t] == Job(GridPoint(c, i, a, k), d);
        GridPointLevel(c, i, a, ls[t], k);
      }
    }
  }

  /** A side job is at a crossed level, with the normal pointing to the lower
      side, and every crossed level has one. */
  lemma SideJobsExact(c: Box, h0: real, hn: real, i: int, k: int, plus: int, minus: int, a: int, d: int)
    requires Gridded(c) && plus != minus
    ensures Job(GridPoint(c, i, a, k), d) in SideJobs(c, h0, hn, i, k, plus, minus) <==>
      0 <= a <= GridCount &&
      ((d == plus && hn <= Level(a, CellEdge(c)) < h0) || (d == minus && h0 <= Level(a, CellEdge(c)) < hn))
  {
    var m := CellEdge(c);
    SideJobsMembers(c, h0, hn, i, k, plus, minus, a, d);
    LevelCrossed(h0, hn, m, a);
    if CellBelow(h0, m) != CellBelow(hn, m) {
      CellsOrdered(h0, hn, m);
    }
  }

  /** Grid points of one column differ by level. */
  lemma GridPointLevel(c: Box, i: int, a: int, b: int, k: int)
    requires Gridded(c) && GridPoint(c, i, a, k) == GridPoint(c, i, b, k)
    ensures a == b
  {
    MulLe(a, b, CellEdge(c));
    MulLe(b, a, CellEdge(c));
  }

  /** The vertical job is the edge of the cell holding the height, when the
      test takes the height; with the corrected test, exactly when that cell
      is inside the chunk. */
  lemma YJobsExact(t: YTest, c: Box, h0: real, i: int, a: int, k: int)
    requires Gridded(c)
    ensures Job(GridPoint(c, i, a, k), 3) in YJobs(t, c, h0, i, k) <==>
      TakesHeight(t, h0, c.w) && Level(a, CellEdge(c)) < h0 <= Level(a + 1, CellEdge(c))
    ensures t == Corrected ==> (Job(GridPoint(c, i, a, k), 3) in YJobs(t, c, h0, i, k) <==>
      0 <= a < GridCount && Level(a, CellEdge(c)) < h0 <= Level(a + 1, CellEdge(c)))
  {
    var m := CellEdge(c);
    YEdgeInside(h0, c);
    if Job(GridPoint(c, i, a, k), 3) in YJobs(t, c, h0, i, k) {
      GridPointLevel(c, i, a, CellBelow(h0, m), k);
    }
    if Level(a, m) < h0 <= Level(a + 1, m) {
      CellBelowUnique(h0, m, a);
    }
  }

  /** With the test as written, a height on the chunk's floor gives a job on
      the level below the chunk, whose four cells all lie outside it, and a
      height on the ceiling gives none; the corrected test gives no job for
      the floor and the top cell's edge for the ceiling. */
  lemma YJobsAsWrittenMisplaced(c: Box, i: int, k: int)
    requires Gridded(c)
    ensures YJobs(AsWritten, c, 0.0, i, k) == [Job(GridPoint(c, i, -1, k), 3)]
    ensures forall t | 0 <= t < 4 :: !Contains(c, NodeAt(GridPoint(c, i, -1, k), 3, t, CellEdge(c)))
    ensures YJobs(Corrected, c, 0.0, i, k) == []
    ensures YJobs(AsWritten, c, c.w as real, i, k) == []
    ensures YJobs(Corrected, c, c.w as real, i, k) == [Job(GridPoint(c, i, GridCount - 1, k), 3)]
  {
    var m := CellEdge(c);
    CellBelowUnique(0.0, m, -1);
    CellBelowUnique(c.w as real, m, GridCount - 1);
  }

  /** The jobs of a column, by direction: one up edge at the height's cell
      inside the chunk, an x edge at every level the surface passes towards
      the next column along x, and a z edge at every level it passes towards
      the next column along z, the normal pointing to the lower side. */
  lemma ColumnJobsExact(t: YTest, c: Box, height: (int, int) -> real, i: int, a: int, k: int, d: int)
    requires Gridded(c) && 0 <= i <= GridCount && 0 <= k <= GridCount
    ensures var m := CellEdge(c); var h0 := Height0(c, height, i, k);
      d == 3 ==> (Job(GridPoint(c, i, a, k), d) in ColumnJobs(t, c, height, i, k) <==>
        TakesHeight(t, h0, c.w) && Level(a, m) < h0 <= Level(a + 1, m))
    ensures var m := CellEdge(c); var h0 := Height0(c, height, i, k);
      (d == 1 || d == 2) ==> (Job(GridPoint(c, i, a, k), d) in ColumnJobs(t, c, height, i, k) <==>
        i < GridCount && 0 <= a <= GridCount &&
        var hx := Height0(c, height, i + 1, k);
        ((d == 1 && hx <= Level(a, m) < h0) || (d == 2 && h0 <= Level(a, m) < hx)))
    ensures var m := CellEdge(c); var h0 := Height0(c, height, i, k);
      (d == 5 || d == 6) ==> (Job(GridPoint(c, i, a, k), d) in ColumnJobs(t, c, height, i, k) <==>
        k < GridCount && 0 <= a <= GridCount &&
        var hz := Height0(c, height, i, k + 1);
        ((d == 5 && hz <= Level(a, m) < h0) || (d == 6 && h0 <= Level(a, m) < hz)))
    ensures Job(GridPoint(c, i, a, k), d) in ColumnJobs(t, c, height, i, k) ==> d in {1, 2, 3, 5, 6}
  {
    var h0 := Height0(c, height, i, k);
    var job := Job(GridPoint(c, i, a, k), d);
    var ys := YJobs(t, c, h0, i, k);
    var xs := if i == GridCount then [] else SideJobs(c, h0, Height0(c, height, i + 1, k), i, k, 1, 2);
    var zs := if k == GridCount then [] else SideJobs(c, h0, Height0(c, height, i, k + 1), i, k, 5, 6);
    assert ColumnJobs(t, c, height, i, k) == ys + xs + zs;
    assert job in ys + xs + zs <==> job in ys || job in xs || job in zs;
    YJobsExact(t, c, h0, i, a, k);
    if i < GridCount {
      SideJobsExact(c, h0, Height0(c, height, i + 1, k), i, k, 1, 2, a, d);
    }
    if k < GridCount {
      SideJobsExact(c, h0, Height0(c, height, i, k + 1), i, k, 5, 6, a, d);
    }
    assert job in ys ==> d == 3;
    assert job in xs ==> d == 1 || d == 2;
    assert job in zs ==> d == 5 || d == 6;
  }

  /** The number of columns: `0..GridCount` along x and along z. */
  const Columns: int := (GridCount + 1) * (GridCount + 1)

  /** The column at loop index `u`. */
  function ColumnAt(t: YTest, c: Box, height: (int, int) -> real, u: int): seq<Job>
    requires Gridded(c)
  {
    ColumnJobs(t, c, height, u / (GridCount + 1), u % (GridCount + 1))
  }

  /** The columns from index `t` on, in loop order: `i` outer, `k` inner. */
  function JobsFrom(y: YTest, c: Box, height: (int, int) -> real, t: nat): seq<Job>
    requires Gridded(c)
    decreases Columns - t
  {
    if t >= Columns then [] else ColumnAt(y, c, height, t) + JobsFrom(y, c, height, t + 1)
  }

  /** Every job of `FillChunkHeightMap`, in the order the loops make them. */
  function ChunkJobs(y: YTest, c: Box, height: (int, int) -> real): seq<Job>
    requires Gridded(c)
  {
    JobsFrom(y, c, height, 0)
  }

  /** A column from index `t` on makes the job. */
  predicate MadeFrom(y: YTest, c: Box, height: (int, int) -> real, t: nat, job: Job)
    requires Gridded(c)
  {
    exists u | t <= u < Columns :: job in ColumnAt(y, c, height, u)
  }

  /** A job is listed from index `t` on exactly when a column from there on
      makes it. */
  lemma {:induction false} JobsFromExact(y: YTest, c: Box, height: (int, int) -> real, t: nat, job: Job)
    requires Gridded(c)
    decreases Columns - t
    ensures job in JobsFrom(y, c, height, t) <==> MadeFrom(y, c, height, t, job)
  {
    if t < Columns {
      JobsFromExact(y, c, height, t + 1, job);
      var here := ColumnAt(y, c, height, t);
      var rest := JobsFrom(y, c, height, t + 1);
      assert JobsFrom(y, c, height, t) == here + rest;
      assert job in here + rest <==> job in here || job in rest;
      if MadeFrom(y, c, height, t, job) && job !in here {
        var u :| t <= u < Columns && job in ColumnAt(y, c, height, u);
        assert u != t;
        assert MadeFrom(y, c, height, t + 1, job);
      }
    }
  }

  /** Loop index and column coordinates correspond. */
  lemma ColumnIndex(i: int, k: int)
    requires 0 <= i <= GridCount && 0 <= k <= GridCount
    ensures 0 <= i * (GridCount + 1) + k < Columns
    ensures (i * (GridCount + 1) + k) / (GridCount + 1) == i
    ensures (i * (GridCount + 1) + k) % (GridCount + 1) == k
  {
    assert GridCount + 1 == 9;
  }

  /** The column of a loop index lies in the grid. */
  lemma IndexColumn(u: int)
    requires 0 <= u < Columns
    ensures 0 <= u / (GridCount + 1) <= GridCount && 0 <= u % (GridCount + 1) <= GridCount
  {
    assert GridCount + 1 == 9;
  }

  /** The chunk's jobs are exactly the jobs of its columns. */
  lemma ChunkJobsExact(y: YTest, c: Box, height: (int, int) -> real, job: Job)
    requires Gridded(c)
    ensures job in ChunkJobs(y, c, height) <==>
      exists i, k | 0 <= i <= GridCount && 0 <= k <= GridCount :: job in ColumnJobs(y, c, height, i, k)
  {
    JobsFromExact(y, c, height, 0, job);
    if job in ChunkJobs(y, c, height) {
      var u :| 0 <= u < Columns && job in ColumnAt(y, c, height, u);
      IndexColumn(u);
      var i, k := u / (GridCount + 1), u % (GridCount + 1);
      assert job in ColumnJobs(y, c, height, i, k);
    } else {
      forall i, k | 0 <= i <= GridCount && 0 <= k <= GridCount
        ensures job !in ColumnJobs(y, c, height, i, k)
      {
        ColumnIndex(i, k);
        assert job !in ColumnAt(y, c, height, i * (GridCount + 1) + k);
      }
    }
  }

  // ---------------------------------------------------------------- the four leaves of an edge

  /** `xOffsets`, `yOffsets`, `zOffsets`: the min corners of the four cells
      around an edge, relative to its min end, in cell edges. */
  function Offsets(dir: int): (r: seq<Vec3>)
    ensures |r| == 4
  {
    if dir <= 2 then [Vec3(0, 0, -1), Vec3(0, 0, 0), Vec3(0, -1, -1), Vec3(0, -1, 0)]
    else if dir <= 4 then [Vec3(-1, 0, 0), Vec3(0, 0, 0), Vec3(-1, 0, -1), Vec3(0, 0, -1)]
    else [Vec3(-1, 0, 0), Vec3(0, 0, 0), Vec3(-1, -1, 0), Vec3(0, -1, 0)]
  }

  /** `Vector3.right`, `up` or `forward`: the axis of the edge. */
  function Axis(dir: int): Vec3 {
    if dir <= 2 then Vec3(1, 0, 0) else if dir <= 4 then Vec3(0, 1, 0) else Vec3(0, 0, 1)
  }

  /** `GetEdgePosInNode`: the corners of cell `offsetIndex` at the two ends of
      the edge, as (air, solid); an even direction (normal towards minus)
      swaps them. */
  function EdgePosInNode(offsetIndex: int, edgeDir: int): (r: (Vec3, Vec3))
  {
    var (air, nonAir) :=
      if edgeDir <= 2 then
        if offsetIndex == 0 then (Vec3(1, 0, 1), Vec3(0, 0, 1))
        else if offsetIndex == 1 then (Vec3(1, 0, 0), Vec3(0, 0, 0))
        else if offsetIndex == 2 then (Vec3(1, 1, 1), Vec3(0, 1, 1))
        else (Vec3(1, 1, 0), Vec3(0, 1, 0))
      else if edgeDir <= 4 then
        if offsetIndex == 0 then (Vec3(1, 1, 0), Vec3(1, 0, 0))
        else if offsetIndex == 1 then (Vec3(0, 1, 0), Vec3(0, 0, 0))
        else if offsetIndex == 2 then (Vec3(1, 1, 1), Vec3(1, 0, 1))
        else (Vec3(0, 1, 1), Vec3(0, 0, 1))
      else
        if offsetIndex == 0 then (Vec3(1, 0, 1), Vec3(1, 0, 0))
        else if offsetIndex == 1 then (Vec3(0, 0, 1), Vec3(0, 0, 0))
        else if offsetIndex == 2 then (Vec3(1, 1, 1), Vec3(1, 1, 0))
        else (Vec3(0, 1, 1), Vec3(0, 1, 0));
    if edgeDir % 2 == 0 then (nonAir, air) else (air, nonAir)
  }

  /** The end of the unit edge on the air side: the far end for a normal
      towards plus, the near end for one towards minus. */
  function AirEnd(dir: int): Vec3 {
    if dir % 2 == 0 then Vec3(0, 0, 0) else Axis(dir)
  }

  /** The end of the unit edge on the solid side. */
  function SolidEnd(dir: int): Vec3 {
    if dir % 2 == 0 then Axis(dir) else Vec3(0, 0, 0)
  }

  /** A corner of the unit cube. */
  predicate IsCorner(v: Vec3) {
    0 <= v.x <= 1 && 0 <= v.y <= 1 && 0 <= v.z <= 1
  }

  /** Seen from each of the four cells, the air corner is the edge's air end
      and the solid corner its solid end; both are corners of the cell. */
  lemma EdgePosOnEdge(i: int, dir: int)
    requires 0 <= i < 4
    ensures IsCorner(EdgePosInNode(i, dir).0) && IsCorner(EdgePosInNode(i, dir).1)
    ensures Offsets(dir)[i].Plus(EdgePosInNode(i, dir).0) == AirEnd(dir)
    ensures Offsets(dir)[i].Plus(EdgePosInNode(i, dir).1) == SolidEnd(dir)
    ensures EdgePosInNode(i, dir).0 != EdgePosInNode(i, dir).1
  {
  }

  /** A corner of the unit cube has one of the eight corner slots. */
  lemma CornerSlot(v: Vec3)
    requires IsCorner(v)
    ensures 0 <= OctantIndex(v) < 8
  {
  }

  /** For the six directions the four cells are those `_FindNodesAroundEdge`
      lists, so they are exactly the cells sharing the edge. */
  lemma OffsetsShareEdge(e: Vec3, dir: int)
    requires 1 <= dir <= 6
    ensures forall i | 0 <= i < 4 :: e.Plus(Offsets(dir)[i]) == Refinement.NodesAroundEdge(e, dir)[i]
    ensures forall n :: n in Refinement.NodesAroundEdge(e, dir) <==> Refinement.SharesEdge(n, e, SignedDirToChar(dir))
  {
    Refinement.NodesAroundEdgeShareIt(e, dir);
  }

  /** The bound of cell `i` around the edge from `p` with edge `L`. */
  function NodeAt(p: Vec3, dir: int, i: int, L: int): Box
    requires 0 <= i < 4
  {
    var o := Offsets(dir)[i];
    Box(p.x + o.x * L, p.y + o.y * L, p.z + o.z * L, L)
  }

  /** At world scale: the air corner of every cell is the air end of the
      edge, and the solid corner its solid end. */
  lemma NodeCornersOnEdge(p: Vec3, dir: int, i: int, L: int)
    requires 0 <= i < 4
    ensures NodeAt(p, dir, i, L).Min().Plus(EdgePosInNode(i, dir).0.Scale(L)) == p.Plus(AirEnd(dir).Scale(L))
    ensures NodeAt(p, dir, i, L).Min().Plus(EdgePosInNode(i, dir).1.Scale(L)) == p.Plus(SolidEnd(dir).Scale(L))
  {
    EdgeEnds(i, dir);
    CornersAtScale(p, Offsets(dir)[i], EdgePosInNode(i, dir), AirEnd(dir), SolidEnd(dir), L);
  }

  lemma EdgeEnds(i: int, dir: int)
    requires 0 <= i < 4
    ensures Offsets(dir)[i].Plus(EdgePosInNode(i, dir).0) == AirEnd(dir)
    ensures Offsets(dir)[i].Plus(EdgePosInNode(i, dir).1) == SolidEnd(dir)
  {
    EdgePosOnEdge(i, dir);
  }

  /** Corners `c` of the cell at offset `o` that are the points `e` of the
      unit lattice stay those points at scale `L`. */
  lemma CornersAtScale(p: Vec3, o: Vec3, c: (Vec3, Vec3), e0: Vec3, e1: Vec3, L: int)
    requires o.Plus(c.0) == e0 && o.Plus(c.1) == e1
    ensures Box(p.x + o.x * L, p.y + o.y * L, p.z + o.z * L, L).Min().Plus(c.0.Scale(L)) == p.Plus(e0.Scale(L))
    ensures Box(p.x + o.x * L, p.y + o.y * L, p.z + o.z * L, L).Min().Plus(c.1.Scale(L)) == p.Plus(e1.Scale(L))
  {
    ScaleSum(o, c.0, L);
    ScaleSum(o, c.1, L);
  }

  lemma ScaleSum(a: Vec3, b: Vec3, L: int)
    ensures a.Scale(L).Plus(b.Scale(L)) == a.Plus(b).Scale(L)
  {
    assert L * a.x + L * b.x == L * (a.x + b.x);
    assert L * a.y + L * b.y == L * (a.y + b.y);
    assert L * a.z + L * b.z == L * (a.z + b.z);
  }

  // ---------------------------------------------------------------- FillEdgeDataHeightmap

  /** What the filler changes: the chunk's subtree, the leaf data of the
      world, and the set `allActualTerrainNodes` of cells it visited. */
  datatype Filler = Filler(chunk: Node, store: Store, terrainNodes: set<Box>)

  /** The subtree is well formed, every leaf has eight corner slots, and
      every leaf of the chunk has its data. */
  predicate FillerOk(f: Filler) {
    WF(f.chunk) && StoreOk(f.store) && Leaves(f.chunk) <= f.store.Keys
  }

  /** Registration as `Divide` does it: the data of leaves that were divided
      is removed and every new leaf gets a pooled object, initialised.  The
      pooled object, with the IDs it is bound to, is a parameter. */
  function Registered(s: Store, before: set<Box>, after: set<Box>, pooled: Box -> LeafNodeData): (r: Store)
    ensures r.Keys == (s.Keys - (before - after)) + (after - before)
    ensures before <= s.Keys ==> after <= r.Keys
    ensures StoreOk(s) ==> StoreOk(r)
    ensures forall b | b in r :: (b in s && r[b] == s[b]) || (b in after - before && !HasVertex(r[b]))
  {
    map b | b in (s.Keys - (before - after)) + (after - before) ::
      if b in after - before then Reset(pooled(b)) else s[b]
  }

  /** A node `_GetNode` returns as a leaf is a leaf of the new tree. */
  lemma {:induction false} FoundLeafListed(n: Node, t: Box)
    requires WF(n)
    decreases n.bound.w
    ensures var r := GetNodeRec(n, t, Keep);
      r.1.Some? && SpatialOctree.IsLeaf(r.1.value) ==> r.1.value.bound in Leaves(r.0)
  {
    if t.w != n.bound.w && n.bound.w != NodeMinSize {
      var d := Opened(n);
      var i := ChildIdx(n.bound, t.Min());
      FoundLeafListed(d.children[i], t);
      var sub := GetNodeRec(d.children[i], t, Keep);
      var d' := SetChild(d, i, sub.0);
      assert GetNodeRec(n, t, Keep) == (d', sub.1);
      if sub.1.Some? && SpatialOctree.IsLeaf(sub.1.value) {
        assert d'.children[i] == sub.0;
        assert sub.1.value.bound in Leaves(d'.children[i]);
      }
    }
  }

  /** What `GetNode` returns for a cell: a found leaf is a leaf of the new
      tree, and an aligned cell of a valid edge is found exactly. */
  lemma GetNodeFacts(n: Node, t: Box)
    requires WF(n)
    ensures var r := GetNode(n, t, Keep);
      r.1.Some? && SpatialOctree.IsLeaf(r.1.value) ==> r.1.value.bound in Leaves(r.0)
    ensures Aligned(t) && ValidSize(t.w) && Contains(n.bound, t) ==>
      GetNode(n, t, Keep).1.Some? && GetNode(n, t, Keep).1.value.bound == t
  {
    if Contains(n.bound, t) {
      FoundLeafListed(n, t);
      if Aligned(t) && ValidSize(t.w) {
        GetNodeReaches(n, t, Keep);
      }
    }
  }

  /** `chunkNode.GetNode(nb)` for one cell, with the leaf registration its
      divisions make and the cell added to the visited set. */
  function Probe(f: Filler, pooled: Box -> LeafNodeData, nb: Box): (r: (Filler, Option<Node>))
    requires FillerOk(f)
    ensures FillerOk(r.0) && r.0.chunk.bound == f.chunk.bound
    ensures r.0.terrainNodes == f.terrainNodes + {nb}
    ensures r.1.Some? ==> r.1.value.bound.w == nb.w && (nb.w > 0 ==> r.1.value.bound.HasPoint(nb.Min()))
    ensures r.1.Some? && SpatialOctree.IsLeaf(r.1.value) ==> r.1.value.bound in r.0.store
    ensures !Contains(f.chunk.bound, nb) ==> r.1.None? && r.0.chunk == f.chunk && r.0.store == f.store
    ensures Aligned(nb) && ValidSize(nb.w) && Contains(f.chunk.bound, nb) ==> r.1.Some? && r.1.value.bound == nb
    ensures forall b | b in r.0.store :: (b in f.store && r.0.store[b] == f.store[b]) || !HasVertex(r.0.store[b])
  {
    var (root, found) := GetNode(f.chunk, nb, Keep);
    GetNodeFacts(f.chunk, nb);
    (Filler(root, Registered(f.store, Leaves(f.chunk), Leaves(root), pooled), f.terrainNodes + {nb}), found)
  }

  /** The writes to one leaf: `AddEdgeData(crossing, 1)`, then the air
      corner set to terrain 0 and the solid corner to terrain 1.  Both
      corners are slots of the array, so neither write throws. */
  function MarkLeaf(d: LeafNodeData, ed: EdgeData, air: Vec3, solid: Vec3): (r: LeafNodeData)
    requires LeafOk(d) && IsCorner(air) && IsCorner(solid) && air != solid
    ensures LeafOk(r) && r.edgeData == d.edgeData + [ed] && HasVertex(r)
    ensures r.corners[OctantIndex(air)] == Terrain(0) && r.corners[OctantIndex(solid)] == Terrain(1)
    ensures forall k | 0 <= k < 8 && k != OctantIndex(air) && k != OctantIndex(solid) :: r.corners[k] == d.corners[k]
  {
    CornerSlot(air);
    CornerSlot(solid);
    var d0 := AddEdgeData(d, ed, 1);
    var d1 := SetCornerData(d0, air, Terrain(0)).value;
    SetCornerData(d1, solid, Terrain(1)).value
  }

  /** One pass of the loop of `FillEdgeDataHeightmap` for the cell `nb`
      whose corners at the edge's ends are `air` and `solid`: probe the
      cell; skip it when it lies in a neighbouring chunk or when `mark` is
      false (an end of the edge is not air in the cube world); otherwise
      append the crossing to the leaf's edge data and set the two corners.
      A node found divided has no leaf data: the access fails. */
  function FillCell(f: Filler, pooled: Box -> LeafNodeData, mark: bool, nb: Box, air: Vec3, solid: Vec3, ed: EdgeData): (r: Result<Filler>)
    requires FillerOk(f) && IsCorner(air) && IsCorner(solid) && air != solid
    ensures r.Failure? <==> mark && Probe(f, pooled, nb).1.Some? && !SpatialOctree.IsLeaf(Probe(f, pooled, nb).1.value)
    ensures r.Failure? ==> r.error == NullNode
    ensures r.Success? ==> FillerOk(r.value) && r.value.chunk.bound == f.chunk.bound
    ensures r.Success? ==> r.value.terrainNodes == f.terrainNodes + {nb}
    ensures r.Success? && (!mark || Probe(f, pooled, nb).1.None?) ==> r.value == Probe(f, pooled, nb).0
    ensures r.Success? && mark && Probe(f, pooled, nb).1.Some? ==>
      var g := Probe(f, pooled, nb).0;
      var b := Probe(f, pooled, nb).1.value.bound;
      b in g.store && r.value.chunk == g.chunk && r.value.store == g.store[b := MarkLeaf(g.store[b], ed, air, solid)]
  {
    var (g, found) := Probe(f, pooled, nb);
    if found.None? || !mark then Success(g)
    else if !SpatialOctree.IsLeaf(found.value) then Failure(NullNode)
    else
      var b := found.value.bound;
      Success(g.(store := g.store[b := MarkLeaf(g.store[b], ed, air, solid)]))
  }

  /** The cells around an edge from index `i` on. */
  function Cells(p: Vec3, dir: int, L: int, i: nat): set<Box>
    requires i <= 4
    decreases 4 - i
  {
    if i == 4 then {} else {NodeAt(p, dir, i, L)} + Cells(p, dir, L, i + 1)
  }

  /** No leaf gained a crossing: every entry is the input's or carries no
      vertex. */
  predicate NothingMarked(s: Store, s2: Store) {
    forall b | b in s2 :: (b in s && s2[b] == s[b]) || !HasVertex(s2[b])
  }

  /** The loop of `FillEdgeDataHeightmap` from cell `i` on. */
  function FillCells(f: Filler, pooled: Box -> LeafNodeData, mark: bool, p: Vec3, dir: int, L: int, ed: EdgeData, i: nat): (r: Result<Filler>)
    requires FillerOk(f) && i <= 4
    decreases 4 - i
    ensures r.Failure? ==> r.error == NullNode
    ensures r.Success? ==> FillerOk(r.value) && r.value.chunk.bound == f.chunk.bound
    ensures r.Success? ==> r.value.terrainNodes == f.terrainNodes + Cells(p, dir, L, i)
    ensures r.Success? && !mark ==> NothingMarked(f.store, r.value.store)
  {
    if i == 4 then Success(f)
    else
      EdgePosOnEdge(i, dir);
      var g :- FillCell(f, pooled, mark, NodeAt(p, dir, i, L), EdgePosInNode(i, dir).0, EdgePosInNode(i, dir).1, ed);
      var r := FillCells(g, pooled, mark, p, dir, L, ed, i + 1);
      assert r.Success? && !mark ==> NothingMarked(f.store, g.store);
      r
  }

  /** `CubeUtil.FindCube` at the two ends of the job's edge. */
  function EndCubes(cubes: map<Box, CubeOctrees.Mat>, cp: CubeParam, lod: nat, job: Job, L: int): (r: (Result<CubeOctrees.Mat>, Result<CubeOctrees.Mat>))
    ensures !cp.initialized ==> r.0 == Failure(NotInitialized)
    ensures r.0.Failure? ==> r.0.error == NotInitialized
    ensures r.1.Failure? ==> r.1.error == NotInitialized
    ensures cp.initialized ==> r.0.Success? && r.1.Success?
  {
    (CubeOctrees.FindCube(cubes, cp, job.p, lod), CubeOctrees.FindCube(cubes, cp, job.p.Plus(Axis(job.dir).Scale(L)), lod))
  }

  /** Neither end of the job's edge holds a cube (both lookups give 255). */
  predicate NoCubeAtEnds(cubes: map<Box, CubeOctrees.Mat>, cp: CubeParam, lod: nat, job: Job, L: int) {
    EndCubes(cubes, cp, lod, job, L) == (Success(CubeOctrees.Unset), Success(CubeOctrees.Unset))
  }

  /** `FillEdgeDataHeightmap`: the cube values at the two ends of the edge
      are read first (at the chunk's LOD); the crossing is marked on the
      four leaves only when neither end holds a cube. */
  function FillEdgeDataHeightmap(f: Filler, pooled: Box -> LeafNodeData, cubes: map<Box, CubeOctrees.Mat>, cp: CubeParam,
                                 lod: nat, job: Job, L: int, surface: (Vec3, Vec3)): (r: Result<Filler>)
    requires FillerOk(f)
    ensures !cp.initialized ==> r == Failure(NotInitialized)
    ensures r.Failure? ==> r.error == NotInitialized || r.error == NullNode
    ensures r.Success? ==> FillerOk(r.value) && r.value.chunk.bound == f.chunk.bound
    ensures r.Success? ==> r.value.terrainNodes == f.terrainNodes + Cells(job.p, job.dir, L, 0)
    ensures r.Success? && !NoCubeAtEnds(cubes, cp, lod, job, L) ==> NothingMarked(f.store, r.value.store)
  {
    match EndCubes(cubes, cp, lod, job, L)
    case (Failure(e), _) => Failure(e)
    case (_, Failure(e)) => Failure(e)
    case (Success(m1), Success(m2)) =>
      var ed := EdgeData(surface.0, surface.1, SignedDirToChar(job.dir), 0);
      FillCells(f, pooled, m1 == CubeOctrees.Unset && m2 == CubeOctrees.Unset, job.p, job.dir, L, ed, 0)
  }

  /** The visited set after the jobs: each job adds its four cells. */
  function Visited(seen: set<Box>, jobs: seq<Job>, L: int): set<Box>
    decreases |jobs|
  {
    if jobs == [] then seen else Visited(seen + Cells(jobs[0].p, jobs[0].dir, L, 0), jobs[1..], L)
  }

  /** `FillEdgeDataHeightmap` for each job in turn; the first failure ends
      the fill. */
  function FillJobs(f: Filler, pooled: Box -> LeafNodeData, cubes: map<Box, CubeOctrees.Mat>, cp: CubeParam,
                    lod: nat, jobs: seq<Job>, L: int, surface: Job -> (Vec3, Vec3)): (r: Result<Filler>)
    requires FillerOk(f)
    decreases |jobs|
    ensures !cp.initialized && jobs != [] ==> r == Failure(NotInitialized)
    ensures r.Failure? ==> r.error == NotInitialized || r.error == NullNode
    ensures r.Success? ==> FillerOk(r.value) && r.value.chunk.bound == f.chunk.bound
    ensures r.Success? ==> r.value.terrainNodes == Visited(f.terrainNodes, jobs, L)
  {
    if jobs == [] then Success(f)
    else
      var g :- FillEdgeDataHeightmap(f, pooled, cubes, cp, lod, jobs[0], L, surface(jobs[0]));
      FillJobs(g, pooled, cubes, cp, lod, jobs[1..], L, surface)
  }

  /** `FillChunkHeightMap` as written: every crossing of the chunk's
      columns, in loop order, with cells of the grid's edge, the y edge taken
      by the source's test.  `surface` gives the surface point and normal the
      engine computes for a crossing. */
  function FillChunkHeightMap(f: Filler, pooled: Box -> LeafNodeData, cubes: map<Box, CubeOctrees.Mat>, cp: CubeParam,
                              height: (int, int) -> real, surface: Job -> (Vec3, Vec3)): (r: Result<Filler>)
    requires FillerOk(f) && f.chunk.chunkLOD >= 0 && Gridded(f.chunk.bound)
    ensures r.Failure? ==> r.error == NotInitialized || r.error == NullNode
    ensures r.Success? ==> FillerOk(r.value) && r.value.chunk.bound == f.chunk.bound
    ensures r.Success? ==> r.value.terrainNodes == Visited(f.terrainNodes, ChunkJobs(AsWritten, f.chunk.bound, height), CellEdge(f.chunk.bound))
  {
    FillJobs(f, pooled, cubes, cp, f.chunk.chunkLOD, ChunkJobs(AsWritten, f.chunk.bound, height), CellEdge(f.chunk.bound), surface)
  }

  /** `FillChunkHeightMap` with the corrected y-edge test. */
  function FillChunkHeightMapCorrected(f: Filler, pooled: Box -> LeafNodeData, cubes: map<Box, CubeOctrees.Mat>, cp: CubeParam,
                                       height: (int, int) -> real, surface: Job -> (Vec3, Vec3)): (r: Result<Filler>)
    requires FillerOk(f) && f.chunk.chunkLOD >= 0 && Gridded(f.chunk.bound)
    ensures r.Failure? ==> r.error == NotInitialized || r.error == NullNode
    ensures r.Success? ==> FillerOk(r.value) && r.value.chunk.bound == f.chunk.bound
    ensures r.Success? ==> r.value.terrainNodes == Visited(f.terrainNodes, ChunkJobs(Corrected, f.chunk.bound, height), CellEdge(f.chunk.bound))
  {
    FillJobs(f, pooled, cubes, cp, f.chunk.chunkLOD, ChunkJobs(Corrected, f.chunk.bound, height), CellEdge(f.chunk.bound), surface)
  }

  /** With the corrected test every vertical crossing of the chunk lies on
      an edge of a cell inside the chunk's y range. */
  lemma CorrectedYJobsInChunk(c: Box, height: (int, int) -> real, job: Job)
    requires Gridded(c) && job in ChunkJobs(Corrected, c, height) && job.dir == 3
    ensures c.y <= job.p.y && job.p.y + CellEdge(c) <= c.y + c.w
  {
    ChunkJobsExact(Corrected, c, height, job);
    var i, k :| 0 <= i <= GridCount && 0 <= k <= GridCount && job in ColumnJobs(Corrected, c, height, i, k);
    var h0 := Height0(c, height, i, k);
    ColumnVertical(Corrected, c, height, i, k, job);
    YJobInChunk(c, h0, i, k, job);
  }

  /** The only vertical crossing of a column is its y job. */
  lemma ColumnVertical(t: YTest, c: Box, height: (int, int) -> real, i: int, k: int, job: Job)
    requires Gridded(c) && job in ColumnJobs(t, c, height, i, k) && job.dir == 3
    ensures job in YJobs(t, c, Height0(c, height, i, k), i, k)
  {
    var h0 := Height0(c, height, i, k);
    var ys := YJobs(t, c, h0, i, k);
    var xs := if i == GridCount then [] else SideJobs(c, h0, Height0(c, height, i + 1, k), i, k, 1, 2);
    var zs := if k == GridCount then [] else SideJobs(c, h0, Height0(c, height, i, k + 1), i, k, 5, 6);
    assert ColumnJobs(t, c, height, i, k) == ys + xs + zs;
  }

  /** A corrected y job is the edge of a cell of the chunk. */
  lemma YJobInChunk(c: Box, h0: real, i: int, k: int, job: Job)
    requires Gridded(c) && job in YJobs(Corrected, c, h0, i, k)
    ensures c.y <= job.p.y && job.p.y + CellEdge(c) <= c.y + c.w
  {
    var m := CellEdge(c);
    var a := CellBelow(h0, m);
    YEdgeInside(h0, c);
    assert job.p.y == c.y + m * a;
    MulLe(0, a, m);
    MulLe(a + 1, GridCount, m);
  }

  // ---------------------------------------------------------------- no leaf found divided

  /** Every leaf under `n` has an edge of at least `L`. */
  predicate LeavesAtLeast(n: Node, L: int)
    decreases n
  {
    if SpatialOctree.IsLeaf(n) then n.bound.w >= L
    else forall i | 0 <= i < |n.children| :: LeavesAtLeast(n.children[i], L)
  }

  /** A node whose leaves are all at least `L` is at least `L`, and twice
      that when it is divided. */
  lemma {:induction false} CoarseSize(n: Node, L: int)
    requires WF(n) && LeavesAtLeast(n, L)
    decreases n
    ensures n.bound.w >= L
    ensures !SpatialOctree.IsLeaf(n) ==> n.bound.w >= 2 * L
  {
    if !SpatialOctree.IsLeaf(n) {
      CoarseSize(n.children[0], L);
      assert n.children[0].bound == ChildBound(n.bound, 0);
    }
  }

  /** Descending to a target no smaller than every leaf divides only nodes
      larger than it, so the leaves stay at least its edge, and the node
      reached is a leaf. */
  lemma {:induction false} GetNodeKeepsCoarse(n: Node, t: Box)
    requires WF(n) && ValidSize(t.w) && t.w <= n.bound.w && LeavesAtLeast(n, t.w)
    decreases n.bound.w
    ensures LeavesAtLeast(GetNodeRec(n, t, Keep).0, t.w)
    ensures GetNodeRec(n, t, Keep).1.Some? ==> SpatialOctree.IsLeaf(GetNodeRec(n, t, Keep).1.value)
  {
    if t.w == n.bound.w {
      CoarseSize(n, t.w);
    } else {
      assert n.bound.w != NodeMinSize;
      BelowHalf(t.w, n.bound.w);
      var d := Opened(n);
      assert LeavesAtLeast(d, t.w) by {
        if SpatialOctree.IsLeaf(n) {
          forall j | 0 <= j < 8 ensures LeavesAtLeast(d.children[j], t.w) {
            assert d.children[j].bound == ChildBound(n.bound, j);
          }
        }
      }
      var i := ChildIdx(n.bound, t.Min());
      assert d.children[i].bound == ChildBound(n.bound, i);
      GetNodeKeepsCoarse(d.children[i], t);
      var sub := GetNodeRec(d.children[i], t, Keep);
      var d' := SetChild(d, i, sub.0);
      assert GetNodeRec(n, t, Keep) == (d', sub.1);
      forall j | 0 <= j < 8 ensures LeavesAtLeast(d'.children[j], t.w) {
      }
    }
  }

  /** A probe for a cell of a valid edge no smaller than every leaf keeps
      that so and finds a leaf. */
  lemma ProbeCoarse(f: Filler, pooled: Box -> LeafNodeData, nb: Box)
    requires FillerOk(f) && ValidSize(nb.w) && LeavesAtLeast(f.chunk, nb.w)
    ensures LeavesAtLeast(Probe(f, pooled, nb).0.chunk, nb.w)
    ensures Probe(f, pooled, nb).1.Some? ==> SpatialOctree.IsLeaf(Probe(f, pooled, nb).1.value)
  {
    if Contains(f.chunk.bound, nb) {
      GetNodeKeepsCoarse(f.chunk, nb);
    }
  }

  /** From such a tree the four cells of an edge are all filled. */
  lemma {:induction false} FillCellsCoarse(f: Filler, pooled: Box -> LeafNodeData, mark: bool, p: Vec3, dir: int, L: int, ed: EdgeData, i: nat)
    requires FillerOk(f) && i <= 4 && ValidSize(L) && LeavesAtLeast(f.chunk, L)
    decreases 4 - i
    ensures FillCells(f, pooled, mark, p, dir, L, ed, i).Success?
    ensures LeavesAtLeast(FillCells(f, pooled, mark, p, dir, L, ed, i).value.chunk, L)
  {
    if i < 4 {
      var nb := NodeAt(p, dir, i, L);
      ProbeCoarse(f, pooled, nb);
      EdgePosOnEdge(i, dir);
      var r := FillCell(f, pooled, mark, nb, EdgePosInNode(i, dir).0, EdgePosInNode(i, dir).1, ed);
      assert r.Success? && r.value.chunk == Probe(f, pooled, nb).0.chunk;
      FillCellsCoarse(r.value, pooled, mark, p, dir, L, ed, i + 1);
    }
  }

  /** From such a tree the fill of one edge fails only for an uninitialised
      cube grid. */
  lemma FillEdgeCoarse(f: Filler, pooled: Box -> LeafNodeData, cubes: map<Box, CubeOctrees.Mat>, cp: CubeParam,
                       lod: nat, job: Job, L: int, surface: (Vec3, Vec3))
    requires FillerOk(f) && ValidSize(L) && LeavesAtLeast(f.chunk, L)
    ensures var r := FillEdgeDataHeightmap(f, pooled, cubes, cp, lod, job, L, surface);
      (r.Success? <==> cp.initialized) && (r.Success? ==> LeavesAtLeast(r.value.chunk, L))
  {
    var ends := EndCubes(cubes, cp, lod, job, L);
    if cp.initialized {
      var ed := EdgeData(surface.0, surface.1, SignedDirToChar(job.dir), 0);
      FillCellsCoarse(f, pooled, ends.0.value == CubeOctrees.Unset && ends.1.value == CubeOctrees.Unset, job.p, job.dir, L, ed, 0);
    }
  }

  /** From such a tree every job is filled unless the cube grid is
      uninitialised. */
  lemma {:induction false} FillJobsCoarse(f: Filler, pooled: Box -> LeafNodeData, cubes: map<Box, CubeOctrees.Mat>, cp: CubeParam,
                                          lod: nat, jobs: seq<Job>, L: int, surface: Job -> (Vec3, Vec3))
    requires FillerOk(f) && ValidSize(L) && LeavesAtLeast(f.chunk, L)
    decreases |jobs|
    ensures var r := FillJobs(f, pooled, cubes, cp, lod, jobs, L, surface);
      (r.Success? <==> cp.initialized || jobs == []) && (r.Failure? ==> r.error == NotInitialized)
  {
    if jobs != [] {
      FillEdgeCoarse(f, pooled, cubes, cp, lod, jobs[0], L, surface(jobs[0]));
      var g := FillEdgeDataHeightmap(f, pooled, cubes, cp, lod, jobs[0], L, surface(jobs[0]));
      if g.Success? {
        FillJobsCoarse(g.value, pooled, cubes, cp, lod, jobs[1..], L, surface);
      }
    }
  }

  /** The cell edge of a chunk of a LOD is a valid node edge. */
  lemma CellEdgeValid(lod: nat)
    ensures Gridded(Box(0, 0, 0, LodSize(lod)))
    ensures ValidSize(CellEdge(Box(0, 0, 0, LodSize(lod))))
  {
    LodSizeGridded(lod);
    var m := CellEdge(Box(0, 0, 0, LodSize(lod)));
    assert m * 8 == 128 * Pow2(lod);
    Pow2Add(3, lod);
    assert Pow2(3) == 8;
    ValidOfExp(3 + lod);
    assert m == NodeMinSize * Pow2(3 + lod);
  }

  /** Filling a collapsed chunk, as `FillChunkHeightMapParallel` does after
      `CollapseAll`, never meets a divided node: the cells all have the grid's
      edge, so every node the loop finds is a leaf with its data.  The fill
      fails only when the cube grid is uninitialised and there is a crossing
      to mark. */
  lemma FillChunkHeightMapFindsLeaves(f: Filler, pooled: Box -> LeafNodeData, cubes: map<Box, CubeOctrees.Mat>, cp: CubeParam,
                                      height: (int, int) -> real, surface: Job -> (Vec3, Vec3))
    requires FillerOk(f) && f.chunk.chunkLOD >= 0 && f.chunk.bound.w == LodSize(f.chunk.chunkLOD)
    requires SpatialOctree.IsLeaf(f.chunk)
    ensures Gridded(f.chunk.bound)
    ensures var r := FillChunkHeightMap(f, pooled, cubes, cp, height, surface);
      (r.Success? <==> cp.initialized || ChunkJobs(AsWritten, f.chunk.bound, height) == []) &&
      (r.Failure? ==> r.error == NotInitialized)
    ensures var r := FillChunkHeightMapCorrected(f, pooled, cubes, cp, height, surface);
      (r.Success? <==> cp.initialized || ChunkJobs(Corrected, f.chunk.bound, height) == []) &&
      (r.Failure? ==> r.error == NotInitialized)
  {
    CellEdgeValid(f.chunk.chunkLOD);
    var L := CellEdge(f.chunk.bound);
    assert L == CellEdge(Box(0, 0, 0, LodSize(f.chunk.chunkLOD)));
    CoarseSize(f.chunk, f.chunk.bound.w);
    assert LeavesAtLeast(f.chunk, L);
    FillJobsCoarse(f, pooled, cubes, cp, f.chunk.chunkLOD, ChunkJobs(AsWritten, f.chunk.bound, height), L, surface);
    FillJobsCoarse(f, pooled, cubes, cp, f.chunk.chunkLOD, ChunkJobs(Corrected, f.chunk.bound, height), L, surface);
  }
}
