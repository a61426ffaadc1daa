/** The lookup tables of the dual-contouring traversal
    (`OctreeEdgeIterator`) and the layout each one encodes.

    A cell step splits one node into its eight children; a face step the
    two nodes on either side of a face; an edge step the four nodes around
    an edge.  Each table lists which children (of which of the given
    nodes) the next step receives.  The layout lemmas place every child on a
    grid of half-node units and show that the listed nodes really do touch
    across the face, or sit around the edge, in the order the next step
    expects. */
module ContourTables {
  import opened Lattice

  /** The traversal's directions 'x', 'y', 'z' are the axis numbers 0, 1,
      2 here; `AxisOf` converts. */
  predicate IsAxis(a: int) {
    0 <= a < 3
  }

  /** A child of one of the given nodes: `(child index, node index)`. */
  datatype Pick = Pick(child: int, node: int)

  /** `cellFaceProcChildIndex`: the child pairs sharing an inner face of a
      node, the first on the low side. */
  function CellFaceChildren(i: int): (int, int) {
    if i == 0 then (0, 1)
    else if i == 1 then (2, 3)
    else if i == 2 then (4, 5)
    else if i == 3 then (6, 7)
    else if i == 4 then (0, 2)
    else if i == 5 then (4, 6)
    else if i == 6 then (1, 3)
    else if i == 7 then (5, 7)
    else if i == 8 then (0, 4)
    else if i == 9 then (1, 5)
    else if i == 10 then (2, 6)
    else (3, 7)
  }

  /** `cellFaceProcDir`. */
  function CellFaceDir(i: int): int {
    if i < 4 then 2 else if i < 8 then 1 else 0
  }

  /** `cellEdgeProcChildIndex`: the four children around an inner edge,
      in the order (LT, RT, LB, RB). */
  function CellEdgeChildren(i: int): (int, int, int, int) {
    if i == 0 then (2, 6, 0, 4)
    else if i == 1 then (3, 7, 1, 5)
    else if i == 2 then (2, 3, 0, 1)
    else if i == 3 then (6, 7, 4, 5)
    else if i == 4 then (3, 7, 2, 6)
    else (1, 5, 0, 4)
  }

  /** `cellEdgeProcDir`. */
  function CellEdgeDir(i: int): int {
    if i < 2 then 2 else if i < 4 then 0 else 1
  }

  /** `x/y/zFaceFaceProcChildIndex`: the four child pairs that share the
      four quarters of a face; the first pick names node 0 (low side), the
      second node 1. */
  function FaceFace(dir: int, i: int): (Pick, Pick) {
    if dir == 0 then
      if i == 0 then (Pick(6, 0), Pick(2, 1))
      else if i == 1 then (Pick(7, 0), Pick(3, 1))
      else if i == 2 then (Pick(4, 0), Pick(0, 1))
      else (Pick(5, 0), Pick(1, 1))
    else if dir == 1 then
      if i == 0 then (Pick(2, 0), Pick(0, 1))
      else if i == 1 then (Pick(6, 0), Pick(4, 1))
      else if i == 2 then (Pick(3, 0), Pick(1, 1))
      else (Pick(7, 0), Pick(5, 1))
    else
      if i == 0 then (Pick(3, 0), Pick(2, 1))
      else if i == 1 then (Pick(7, 0), Pick(6, 1))
      else if i == 2 then (Pick(1, 0), Pick(0, 1))
      else (Pick(5, 0), Pick(4, 1))
  }

  /** `x/y/zFaceEdgeProcChildIndex`: the four quadruples around the four
      edges that cross a face. */
  function FaceEdge(dir: int, i: int): (Pick, Pick, Pick, Pick) {
    if dir == 0 then
      if i == 0 then (Pick(7, 0), Pick(3, 1), Pick(6, 0), Pick(2, 1))
      else if i == 1 then (Pick(6, 0), Pick(2, 1), Pick(4, 0), Pick(0, 1))
      else if i == 2 then (Pick(5, 0), Pick(1, 1), Pick(4, 0), Pick(0, 1))
      else (Pick(7, 0), Pick(3, 1), Pick(5, 0), Pick(1, 1))
    else if dir == 1 then
      if i == 0 then (Pick(1, 1), Pick(5, 1), Pick(3, 0), Pick(7, 0))
      else if i == 1 then (Pick(0, 1), Pick(1, 1), Pick(2, 0), Pick(3, 0))
      else if i == 2 then (Pick(0, 1), Pick(4, 1), Pick(2, 0), Pick(6, 0))
      else (Pick(4, 1), Pick(5, 1), Pick(6, 0), Pick(7, 0))
    else
      if i == 0 then (Pick(2, 1), Pick(6, 1), Pick(3, 0), Pick(7, 0))
      else if i == 1 then (Pick(3, 0), Pick(2, 1), Pick(1, 0), Pick(0, 1))
      else if i == 2 then (Pick(0, 1), Pick(4, 1), Pick(1, 0), Pick(5, 0))
      else (Pick(7, 0), Pick(6, 1), Pick(5, 0), Pick(4, 1))
  }

  /** `x/y/zFaceEdgeProcDir`. */
  function FaceEdgeDir(dir: int, i: int): int {
    if dir == 0 then
      if i == 0 then 1
      else if i == 1 then 2
      else if i == 2 then 1
      else 2
    else if dir == 1 then
      if i == 0 then 2
      else if i == 1 then 0
      else if i == 2 then 2
      else 0
    else
      if i == 0 then 1
      else if i == 1 then 0
      else if i == 2 then 1
      else 0
  }

  /** `x/y/zEdgeEdgeProcChildIndex`: the two quadruples around the two
      halves of an edge. */
  function EdgeEdge(dir: int, i: int): (Pick, Pick, Pick, Pick) {
    if dir == 0 then
      if i == 0 then (Pick(1, 0), Pick(0, 1), Pick(3, 2), Pick(2, 3))
      else (Pick(5, 0), Pick(4, 1), Pick(7, 2), Pick(6, 3))
    else if dir == 1 then
      if i == 0 then (Pick(6, 0), Pick(2, 1), Pick(7, 2), Pick(3, 3))
      else (Pick(4, 0), Pick(0, 1), Pick(5, 2), Pick(1, 3))
    else
      if i == 0 then (Pick(4, 0), Pick(0, 1), Pick(6, 2), Pick(2, 3))
      else (Pick(5, 0), Pick(1, 1), Pick(7, 2), Pick(3, 3))
  }

  // ---------------------------------------------------------------- layout

  /* The layout lemmas place the cells a step receives on a small grid
     (children of the given nodes, or the given nodes themselves) and
     number each grid point (x, y, z), 0 <= x, y, z < 4, as 16x + 4y + z.
     On that grid a unit step along an axis adds the axis' stride. */

  /** Axes as numbers: x 0, y 1, z 2 (any other character counts as z, as
      the engine's `else` branches do). */
  function AxisOf(c: char): (a: int)
    ensures IsAxis(a)
    ensures c == 'x' <==> a == 0
  {
    if c == 'x' then 0 else if c == 'y' then 1 else 2
  }

  /** The grid number of a point with coordinates below 4. */
  function Pack(v: Vec3): int {
    16 * v.x + 4 * v.y + v.z
  }

  /** A unit step along axis `a` on the grid. */
  function Stride(a: int): int {
    if a == 0 then 16 else if a == 1 then 4 else 1
  }

  /** The horizontal axis of the view an edge step along `a` uses ("from
      right, above, back" in the engine's words): L to R. */
  function HAxis(a: int): int {
    if a == 0 then 2 else 0
  }

  /** The vertical axis of that view: B to T. */
  function VAxis(a: int): int {
    if a == 1 then 2 else 1
  }

  /** The grid number of child `c`'s octant (x4 + y2 + z). */
  function CellAt(c: int): int {
    if c == 0 then 0 else if c == 1 then 1 else if c == 2 then 4 else if c == 3 then 5
    else if c == 4 then 16 else if c == 5 then 17 else if c == 6 then 20 else 21
  }

  /** It is the octant's point. */
  lemma CellAtOctant(c: int)
    requires 0 <= c < 8
    ensures CellAt(c) == Pack(Octant(c))
  {
    OctantDivMod(c);
    assert CellAt(c) == 16 * (c / 4) + 4 * ((c % 4) / 2) + c % 2;
  }

  /** Where node `k` (0 LT, 1 RT, 2 LB, 3 RB) of an edge step along axis
      `a` sits, in units of one node. */
  function Quadrant(k: int, a: int): int {
    (if k == 1 || k == 3 then Stride(HAxis(a)) else 0) + (if k == 0 || k == 1 then Stride(VAxis(a)) else 0)
  }

  /** Four cells of equal size meet along one line parallel to axis `a`,
      in the order LT, RT, LB, RB: left to right is a step along the view's
      horizontal axis, bottom to top one along its vertical axis. */
  predicate AroundEdge(p1: int, p2: int, p3: int, p4: int, a: int) {
    p2 == p1 + Stride(HAxis(a)) && p1 == p3 + Stride(VAxis(a)) && p2 == p4 + Stride(VAxis(a))
  }

  /** A pick names one of the first `nodes` given nodes and one of its
      eight children. */
  predicate PickOk(p: Pick, nodes: int) {
    0 <= p.node < nodes && 0 <= p.child < 8
  }

  /** A picked child of a face step across axis `a`, on the grid of
      children: the second node lies two children further along `a`. */
  function FacePos(p: Pick, a: int): int {
    if p.node == 0 then CellAt(p.child) else CellAt(p.child) + 2 * Stride(a)
  }

  /** A picked child of an edge step along axis `a`, on the grid of
      children. */
  function EdgePos(p: Pick, a: int): int {
    CellAt(p.child) + 2 * Quadrant(p.node, a)
  }

  /** The four nodes of an edge step are laid out around their edge. */
  lemma QuadrantsAroundEdge(a: int)
    requires IsAxis(a)
    ensures AroundEdge(Quadrant(0, a), Quadrant(1, a), Quadrant(2, a), Quadrant(3, a), a)
  {
  }

  /** The inner face a child pair shares, recovered from the pair: the
      difference of the two indices gives the axis (z 1, y 2, x 4) and
      the lower index the face.  It inverts `CellFaceChildren`. */
  function CellFaceIndex(p: (int, int)): int {
    var d := p.1 - p.0;
    if d == 1 then p.0 / 2
    else if d == 2 then (if p.0 == 0 then 4 else if p.0 == 4 then 5 else if p.0 == 1 then 6 else 7)
    else 8 + p.0
  }

  /** Each listed child pair shares a face along its direction, and the
      pair determines its row of the table. */
  lemma CellFaceLayout(i: int)
    requires 0 <= i < 12
    ensures CellAt(CellFaceChildren(i).1) == CellAt(CellFaceChildren(i).0) + Stride(CellFaceDir(i))
    ensures CellFaceIndex(CellFaceChildren(i)) == i
  {
  }

  /** So the twelve pairs are twelve different faces. */
  lemma CellFacesDistinct(i: int, j: int)
    requires 0 <= i < 12 && 0 <= j < 12 && i != j
    ensures CellFaceChildren(i) != CellFaceChildren(j)
  {
    CellFaceLayout(i);
    CellFaceLayout(j);
  }

  /** Each listed quadruple surrounds an inner edge of the node in LT, RT,
      LB, RB order, with LB in the low corner of the view; the two
      quadruples of an axis take its two halves. */
  lemma CellEdgeLayout(i: int)
    requires 0 <= i < 6
    ensures var q := CellEdgeChildren(i);
      AroundEdge(CellAt(q.0), CellAt(q.1), CellAt(q.2), CellAt(q.3), CellEdgeDir(i))
    ensures var p := CellAt(CellEdgeChildren(i).2);
      p == 0 || p == Stride(CellEdgeDir(i))
    ensures (i == 0 || i == 2 || i == 4) ==>
      CellEdgeDir(i) == CellEdgeDir(i + 1) &&
      CellAt(CellEdgeChildren(i).2) + CellAt(CellEdgeChildren(i + 1).2) == Stride(CellEdgeDir(i))
  {
  }

  /** Each listed pair of a face step shares one quarter of the face: the
      first child from the low node, the second from the high node. */
  lemma FaceFaceLayout(dir: int, i: int)
    requires IsAxis(dir) && 0 <= i < 4
    ensures FaceFace(dir, i).0.node == 0 && FaceFace(dir, i).1.node == 1
    ensures PickOk(FaceFace(dir, i).0, 2) && PickOk(FaceFace(dir, i).1, 2)
    ensures FacePos(FaceFace(dir, i).1, dir) == FacePos(FaceFace(dir, i).0, dir) + Stride(dir)
  {
  }

  /** Each listed quadruple of a face step surrounds one of the four edges
      that cross the face, in LT, RT, LB, RB order, along an axis other
      than the face's. */
  lemma FaceEdgeLayout(dir: int, i: int)
    requires IsAxis(dir) && 0 <= i < 4
    ensures IsAxis(FaceEdgeDir(dir, i)) && FaceEdgeDir(dir, i) != dir
    ensures var q := FaceEdge(dir, i);
      PickOk(q.0, 2) && PickOk(q.1, 2) && PickOk(q.2, 2) && PickOk(q.3, 2) &&
      AroundEdge(FacePos(q.0, dir), FacePos(q.1, dir), FacePos(q.2, dir), FacePos(q.3, dir), FaceEdgeDir(dir, i))
  {
  }

  /** Each listed quadruple of an edge step surrounds one half of the same
      edge: node k gives the child nearest the edge, the LB child touches
      the line where the parents meet (two children across and up), and
      the two quadruples take the two halves. */
  lemma EdgeEdgeLayout(dir: int, i: int)
    requires IsAxis(dir) && 0 <= i < 2
    ensures var q := EdgeEdge(dir, i);
      q.0.node == 0 && q.1.node == 1 && q.2.node == 2 && q.3.node == 3 &&
      PickOk(q.0, 4) && PickOk(q.1, 4) && PickOk(q.2, 4) && PickOk(q.3, 4) &&
      AroundEdge(EdgePos(q.0, dir), EdgePos(q.1, dir), EdgePos(q.2, dir), EdgePos(q.3, dir), dir)
    ensures var p := EdgePos(EdgeEdge(dir, i).2, dir) - Stride(HAxis(dir)) - Stride(VAxis(dir));
      p == 0 || p == Stride(dir)
    ensures EdgePos(EdgeEdge(dir, 0).2, dir) + EdgePos(EdgeEdge(dir, 1).2, dir) ==
      2 * (Stride(HAxis(dir)) + Stride(VAxis(dir))) + Stride(dir)
  {
  }

  /** The two corners an edge step reads from node `k` to find the sign of
      the edge (`GetEdgeSign`): for LT (0, 0, 1) / (1, 0, 1) along x, and so
      on through the engine's table. */
  function EdgeCorners(k: int, dir: int): (r: (Vec3, Vec3))
  {
    if k == 3 then
      (if dir == 0 then (Vec3(0, 1, 0), Vec3(1, 1, 0))
       else if dir == 1 then (Vec3(0, 0, 1), Vec3(0, 1, 1))
       else (Vec3(0, 1, 0), Vec3(0, 1, 1)))
    else if k == 0 then
      (if dir == 0 then (Vec3(0, 0, 1), Vec3(1, 0, 1))
       else if dir == 1 then (Vec3(1, 0, 0), Vec3(1, 1, 0))
       else (Vec3(1, 0, 0), Vec3(1, 0, 1)))
    else if k == 1 then
      (if dir == 0 then (Vec3(0, 0, 0), Vec3(1, 0, 0))
       else if dir == 1 then (Vec3(0, 0, 0), Vec3(0, 1, 0))
       else (Vec3(0, 0, 0), Vec3(0, 0, 1)))
    else
      (if dir == 0 then (Vec3(0, 1, 1), Vec3(1, 1, 1))
       else if dir == 1 then (Vec3(1, 0, 1), Vec3(1, 1, 1))
       else (Vec3(1, 1, 0), Vec3(1, 1, 1)))
  }

  /** Whichever node is read, its two corners are the two ends of the edge
      the four nodes share: the first corner lies where the quadrants meet
      (one node across and up from LB), and the second is one step further
      along the edge. */
  lemma EdgeCornersOnEdge(k: int, dir: int)
    requires IsAxis(dir) && 0 <= k < 4
    ensures 0 <= OctantIndex(EdgeCorners(k, dir).0) < 8 && 0 <= OctantIndex(EdgeCorners(k, dir).1) < 8
    ensures Quadrant(k, dir) + Pack(EdgeCorners(k, dir).0) == Stride(HAxis(dir)) + Stride(VAxis(dir))
    ensures Pack(EdgeCorners(k, dir).1) == Pack(EdgeCorners(k, dir).0) + Stride(dir)
  {
  }
}
