/** The dual-contouring traversal of `OctreeEdgeIterator`: `CellProc`,
    `FaceProc` and `EdgeProc` walk an octree (or the seam between two or
    four of them) and stop at edges shared by four leaves.

    The engine calls `CreateQuad` at each such edge as it goes.  Here the
    walk returns the list of edges it stops at, in the engine's order, and
    the contouring module folds `CreateQuad` over that list; the output is
    the same because the walk itself reads nothing `CreateQuad` writes.

    Proved here: every walk terminates; every quad it returns is over
    leaves of the trees it was given, along a table axis; four leaves give
    exactly their one quad; a cell step reaches each inner edge, a face
    step each crossing edge and an edge step each half edge whose four
    nearest cells are leaves; and a node split once walks to exactly its
    six inner edges in table order. */
module Traversal {
  import opened Lattice
  import opened SpatialOctree
  import opened ContourTables

  /** An edge step's four leaves, named by their bounds, in the order LT,
      RT, LB, RB seen from the right, above and back, with the edge's axis
      character. */
  datatype Quad = Quad(b1: Box, b2: Box, b3: Box, b4: Box, dir: char)

  /** The axis characters the tables know. */
  predicate IsDir(c: char) {
    c == 'x' || c == 'y' || c == 'z'
  }

  /** The axis character of a table's axis number. */
  function AxisChar(a: int): (c: char)
    requires IsAxis(a)
    ensures IsDir(c) && AxisOf(c) == a
  {
    if a == 0 then 'x' else if a == 1 then 'y' else 'z'
  }

  // ---------------------------------------------------------------- height

  /** The number of levels below a node: 0 for a leaf. */
  function Height(n: Node): nat
    decreases n, |n.children| + 1
  {
    if IsLeaf(n) then 0 else 1 + MaxHeight(n, |n.children|)
  }

  /** The greatest height among the first `k` children. */
  function MaxHeight(n: Node, k: nat): nat
    requires k <= |n.children|
    decreases n, k
  {
    if k == 0 then 0
    else
      var h := Height(n.children[k - 1]);
      var m := MaxHeight(n, k - 1);
      if h > m then h else m
  }

  lemma {:induction false} MaxHeightBound(n: Node, k: nat, i: int)
    requires k <= |n.children| && 0 <= i < k
    ensures Height(n.children[i]) <= MaxHeight(n, k)
    decreases k
  {
    if i < k - 1 {
      MaxHeightBound(n, k - 1, i);
    }
  }

  /** A child returned by `FindChild` is at most as high as its parent, and
      strictly lower unless the parent is a leaf (and the child the parent). */
  lemma FindChildLower(n: Node, i: int)
    requires WF(n) && 0 <= i < 8
    ensures Height(FindChild(n, i)) <= Height(n)
    ensures !IsLeaf(n) ==> Height(FindChild(n, i)) < Height(n)
    ensures Leaves(FindChild(n, i)) <= Leaves(n)
  {
    if !IsLeaf(n) {
      MaxHeightBound(n, |n.children|, i);
      var c := n.children[i];
      forall b | b in Leaves(c) ensures b in Leaves(n) {
        assert 0 <= i < |n.children| && b in Leaves(n.children[i]);
      }
    }
  }

  /** Several nodes step down together: each one that is not a leaf gives a
      child, each leaf gives itself, and as long as one of them was not a
      leaf every result lies below the highest of them. */
  lemma PickLower(n: Node, c: int, m: nat)
    requires WF(n) && 0 <= c < 8 && Height(n) <= m && m > 0
    ensures Height(FindChild(n, c)) < m
    ensures Leaves(FindChild(n, c)) <= Leaves(n)
  {
    FindChildLower(n, c);
  }

  function Max2(a: nat, b: nat): (r: nat)
    ensures r >= a && r >= b && (r == a || r == b)
  {
    if a > b then a else b
  }

  lemma Max4Below(a: nat, b: nat, c: nat, d: nat, m: nat)
    requires a < m && b < m && c < m && d < m
    ensures Max4(a, b, c, d) < m
  {
  }

  function Max4(a: nat, b: nat, c: nat, d: nat): (r: nat)
    ensures r >= a && r >= b && r >= c && r >= d
    ensures r == a || r == b || r == c || r == d
  {
    Max2(Max2(a, b), Max2(c, d))
  }

  // ---------------------------------------------------------------- what a walk returns

  /** Every leaf of a quad is a leaf of one of the given trees. */
  predicate QuadFrom(q: Quad, leaves: set<Box>) {
    q.b1 in leaves && q.b2 in leaves && q.b3 in leaves && q.b4 in leaves
  }

  /** What a walk returns: quads over the given leaves, each along a table
      axis. */
  predicate Walked(r: seq<Quad>, leaves: set<Box>) {
    forall k | 0 <= k < |r| :: QuadFrom(r[k], leaves) && IsDir(r[k].dir)
  }

  /** The quads of a sub-walk over fewer leaves, followed by more quads. */
  lemma Join(a: seq<Quad>, b: seq<Quad>, sub: set<Box>, all: set<Box>)
    requires Walked(a, sub) && sub <= all && Walked(b, all)
    ensures Walked(a + b, all)
  {
    forall k | 0 <= k < |a + b| ensures QuadFrom((a + b)[k], all) && IsDir((a + b)[k].dir) {
      if k >= |a| {
        assert (a + b)[k] == b[k - |a|];
      }
    }
  }

  // ---------------------------------------------------------------- CellProc

  /** `CellProc`: inside a node that is not a leaf, first each child's own
      cell step, then the twelve inner faces, then the six inner edges. */
  function CellProc(n: Node): (r: seq<Quad>)
    requires WF(n)
    ensures IsLeaf(n) ==> r == []
    ensures Walked(r, Leaves(n))
    decreases Height(n), 3, 0
  {
    if IsLeaf(n) then []
    else
      var a, b, c := CellChildren(n, 0), CellFaces(n, 0), CellEdges(n, 0);
      Join(b, c, Leaves(n), Leaves(n));
      Join(a, b + c, Leaves(n), Leaves(n));
      a + (b + c)
  }

  /** `n.FindChild(c)` inside a split node: one level lower, over fewer leaves. */
  function InnerChild(n: Node, c: int): (k: Node)
    requires WF(n) && !IsLeaf(n) && 0 <= c < 8
    ensures k == FindChild(n, c)
    ensures WF(k) && Height(k) < Height(n) && Leaves(k) <= Leaves(n)
  {
    FindChildLower(n, c);
    FindChild(n, c)
  }

  function CellChildren(n: Node, i: int): (r: seq<Quad>)
    requires WF(n) && !IsLeaf(n) && 0 <= i <= 8
    ensures Walked(r, Leaves(n))
    decreases Height(n), 2, 8 - i
  {
    if i == 8 then []
    else
      var c := InnerChild(n, i);
      var a := CellProc(c);
      var b := CellChildren(n, i + 1);
      Join(a, b, Leaves(c), Leaves(n));
      a + b
  }

  function CellFaces(n: Node, i: int): (r: seq<Quad>)
    requires WF(n) && !IsLeaf(n) && 0 <= i <= 12
    ensures Walked(r, Leaves(n))
    decreases Height(n), 2, 12 - i
  {
    if i == 12 then []
    else
      var a := FaceWalk(n, i);
      var b := CellFaces(n, i + 1);
      Join(a, b, Leaves(n), Leaves(n));
      a + b
  }

  /** The face step across inner face `i`; nothing when the node's children
      are all leaves. */
  function FaceWalk(n: Node, i: int): (r: seq<Quad>)
    requires WF(n) && !IsLeaf(n) && 0 <= i < 12
    ensures Walked(r, Leaves(n))
    ensures ChildrenLeaves(n) ==> r == []
    decreases Height(n), 1
  {
    var p := CellFaceChildren(i);
    assert 0 <= p.0 < 8 && 0 <= p.1 < 8;
    var c1, c2 := InnerChild(n, p.0), InnerChild(n, p.1);
    var a := FaceProc(c1, c2, AxisChar(CellFaceDir(i)));
    Join(a, [], Leaves(c1) + Leaves(c2), Leaves(n));
    a
  }

  function CellEdges(n: Node, i: int): (r: seq<Quad>)
    requires WF(n) && !IsLeaf(n) && 0 <= i <= 6
    ensures Walked(r, Leaves(n))
    decreases Height(n), 2, 6 - i
  {
    if i == 6 then []
    else
      var a := EdgeWalk(n, i);
      var b := CellEdges(n, i + 1);
      Join(a, b, Leaves(n), Leaves(n));
      a + b
  }

  /** Rows of the inner-edge table name four children along a table axis. */
  lemma CellEdgeRow(j: int)
    requires 0 <= j < 6
    ensures var q := CellEdgeChildren(j);
      0 <= q.0 < 8 && 0 <= q.1 < 8 && 0 <= q.2 < 8 && 0 <= q.3 < 8 && IsAxis(CellEdgeDir(j))
  {
  }

  /** Every child of a split node is a leaf. */
  predicate ChildrenLeaves(n: Node) {
    forall t | 0 <= t < |n.children| :: IsLeaf(n.children[t])
  }

  /** A node split once: its eight children are leaves. */
  predicate SplitOnce(n: Node) {
    WF(n) && !IsLeaf(n) && ChildrenLeaves(n)
  }

  /** The four cells around inner edge `j` of a split node are leaves. */
  predicate InnerEdgeLeaves(n: Node, j: int)
    requires WF(n) && !IsLeaf(n) && 0 <= j < 6
  {
    CellEdgeRow(j);
    var q := CellEdgeChildren(j);
    AllLeaves(n.children[q.0], n.children[q.1], n.children[q.2], n.children[q.3])
  }

  /** The quad of inner edge `j` of a box split once: its four child bounds
      around the edge, LT, RT, LB, RB. */
  function InnerQuad(b: Box, j: int): Quad
    requires 0 <= j < 6
  {
    CellEdgeRow(j);
    var q := CellEdgeChildren(j);
    Quad(ChildBound(b, q.0), ChildBound(b, q.1), ChildBound(b, q.2), ChildBound(b, q.3), AxisChar(CellEdgeDir(j)))
  }

  /** The edge step along inner edge `j`: exactly that edge's quad when its
      four cells are leaves. */
  function EdgeWalk(n: Node, j: int): (r: seq<Quad>)
    requires WF(n) && !IsLeaf(n) && 0 <= j < 6
    ensures Walked(r, Leaves(n))
    ensures InnerEdgeLeaves(n, j) ==> r == [InnerQuad(n.bound, j)]
    decreases Height(n), 1
  {
    CellEdgeRow(j);
    var q := CellEdgeChildren(j);
    var c1, c2 := InnerChild(n, q.0), InnerChild(n, q.1);
    var c3, c4 := InnerChild(n, q.2), InnerChild(n, q.3);
    var a := EdgeProc(c1, c2, c3, c4, AxisChar(CellEdgeDir(j)));
    Join(a, [], Leaves(c1) + Leaves(c2) + Leaves(c3) + Leaves(c4), Leaves(n));
    a
  }

  // ---------------------------------------------------------------- FaceProc

  /** The node a pick names among the two of a face step. */
  function FaceNode(p: Pick, n1: Node, n2: Node): Node {
    if p.node == 0 then n1 else n2
  }

  /** `d.GetNode(p.y).FindChild(p.x)` in a face step below height `m`. */
  function FaceChild(p: Pick, n1: Node, n2: Node, m: nat): (c: Node)
    requires WF(n1) && WF(n2) && PickOk(p, 2) && Height(n1) <= m && Height(n2) <= m && m > 0
    ensures c == FindChild(FaceNode(p, n1, n2), p.child)
    ensures WF(c) && Height(c) < m && Leaves(c) <= Leaves(n1) + Leaves(n2)
  {
    PickLower(FaceNode(p, n1, n2), p.child, m);
    FindChild(FaceNode(p, n1, n2), p.child)
  }

  /** `FaceProc`: two nodes sharing a face (`n1` on the low side along
      `dir`); unless both are leaves, the four face steps between their
      children, then the four edge steps across the face.  The engine has
      no tables for any other axis character. */
  function FaceProc(n1: Node, n2: Node, dir: char): (r: seq<Quad>)
    requires WF(n1) && WF(n2)
    requires !(IsLeaf(n1) && IsLeaf(n2)) ==> IsDir(dir)
    ensures IsLeaf(n1) && IsLeaf(n2) ==> r == []
    ensures Walked(r, Leaves(n1) + Leaves(n2))
    decreases Max2(Height(n1), Height(n2)), 3, 0
  {
    if IsLeaf(n1) && IsLeaf(n2) then []
    else
      var a, b := FaceFaces(n1, n2, dir, 0), FaceEdges(n1, n2, dir, 0);
      Join(a, b, Leaves(n1) + Leaves(n2), Leaves(n1) + Leaves(n2));
      a + b
  }

  function FaceFaces(n1: Node, n2: Node, dir: char, i: int): (r: seq<Quad>)
    requires WF(n1) && WF(n2) && !(IsLeaf(n1) && IsLeaf(n2)) && IsDir(dir) && 0 <= i <= 4
    ensures Walked(r, Leaves(n1) + Leaves(n2))
    decreases Max2(Height(n1), Height(n2)), 2, 4 - i
  {
    if i == 4 then []
    else
      var m := Max2(Height(n1), Height(n2));
      var t := FaceFace(AxisOf(dir), i);
      FaceFaceLayout(AxisOf(dir), i);
      var c1, c2 := FaceChild(t.0, n1, n2, m), FaceChild(t.1, n1, n2, m);
      var a := FaceProc(c1, c2, dir);
      var b := FaceFaces(n1, n2, dir, i + 1);
      Join(a, b, Leaves(c1) + Leaves(c2), Leaves(n1) + Leaves(n2));
      a + b
  }

  /** The edge steps across the face of a face step, from crossing edge
      `i` on. */
  function FaceEdges(n1: Node, n2: Node, dir: char, i: int): (r: seq<Quad>)
    requires FaceStepOn(n1, n2, dir) && 0 <= i <= 4
    ensures Walked(r, Leaves(n1) + Leaves(n2))
    decreases Max2(Height(n1), Height(n2)), 2, 4 - i
  {
    if i == 4 then []
    else
      var a := CrossWalk(n1, n2, dir, i);
      var b := FaceEdges(n1, n2, dir, i + 1);
      Join(a, b, Leaves(n1) + Leaves(n2), Leaves(n1) + Leaves(n2));
      a + b
  }

  /** The arguments of a face step that goes down a level. */
  predicate FaceStepOn(n1: Node, n2: Node, dir: char) {
    WF(n1) && WF(n2) && !(IsLeaf(n1) && IsLeaf(n2)) && IsDir(dir)
  }

  /** The four children of a face step around crossing edge `i`. */
  function CrossChildren(n1: Node, n2: Node, dir: char, i: int): (c: (Node, Node, Node, Node))
    requires FaceStepOn(n1, n2, dir) && 0 <= i < 4
    ensures WF(c.0) && WF(c.1) && WF(c.2) && WF(c.3)
    ensures Max4(Height(c.0), Height(c.1), Height(c.2), Height(c.3)) < Max2(Height(n1), Height(n2))
    ensures Leaves(c.0) + Leaves(c.1) + Leaves(c.2) + Leaves(c.3) <= Leaves(n1) + Leaves(n2)
  {
    var m := Max2(Height(n1), Height(n2));
    var q := FaceEdge(AxisOf(dir), i);
    FaceEdgeLayout(AxisOf(dir), i);
    var c1, c2 := FaceChild(q.0, n1, n2, m), FaceChild(q.1, n1, n2, m);
    var c3, c4 := FaceChild(q.2, n1, n2, m), FaceChild(q.3, n1, n2, m);
    assert Max4(Height(c1), Height(c2), Height(c3), Height(c4)) < m;
    (c1, c2, c3, c4)
  }

  /** The four children around crossing edge `i` of a face step are leaves. */
  predicate CrossLeaves(n1: Node, n2: Node, dir: char, i: int)
    requires FaceStepOn(n1, n2, dir) && 0 <= i < 4
  {
    var c := CrossChildren(n1, n2, dir, i);
    AllLeaves(c.0, c.1, c.2, c.3)
  }

  /** The quad of crossing edge `i` of a face step. */
  function CrossQuad(n1: Node, n2: Node, dir: char, i: int): Quad
    requires FaceStepOn(n1, n2, dir) && 0 <= i < 4
  {
    var c := CrossChildren(n1, n2, dir, i);
    Quad(c.0.bound, c.1.bound, c.2.bound, c.3.bound, AxisChar(FaceEdgeDir(AxisOf(dir), i)))
  }

  /** The edge step across crossing edge `i` of a face: the quad of the four
      children around it when they are leaves. */
  function CrossWalk(n1: Node, n2: Node, dir: char, i: int): (r: seq<Quad>)
    requires FaceStepOn(n1, n2, dir) && 0 <= i < 4
    ensures Walked(r, Leaves(n1) + Leaves(n2))
    ensures CrossLeaves(n1, n2, dir, i) ==> r == [CrossQuad(n1, n2, dir, i)]
    decreases Max2(Height(n1), Height(n2)), 1
  {
    var c := CrossChildren(n1, n2, dir, i);
    FaceEdgeLayout(AxisOf(dir), i);
    var a := EdgeProc(c.0, c.1, c.2, c.3, AxisChar(FaceEdgeDir(AxisOf(dir), i)));
    Join(a, [], Leaves(c.0) + Leaves(c.1) + Leaves(c.2) + Leaves(c.3), Leaves(n1) + Leaves(n2));
    a
  }

  // ---------------------------------------------------------------- EdgeProc

  /** The node a pick names among the four of an edge step. */
  function EdgeNode(p: Pick, n1: Node, n2: Node, n3: Node, n4: Node): Node {
    if p.node == 0 then n1 else if p.node == 1 then n2 else if p.node == 2 then n3 else n4
  }

  /** `d.GetNode(p.y).FindChild(p.x)` in an edge step below height `m`. */
  function EdgeChild(p: Pick, n1: Node, n2: Node, n3: Node, n4: Node, m: nat): (c: Node)
    requires WF(n1) && WF(n2) && WF(n3) && WF(n4) && PickOk(p, 4) && m > 0
    requires Height(n1) <= m && Height(n2) <= m && Height(n3) <= m && Height(n4) <= m
    ensures c == FindChild(EdgeNode(p, n1, n2, n3, n4), p.child)
    ensures WF(c) && Height(c) < m && Leaves(c) <= Leaves(n1) + Leaves(n2) + Leaves(n3) + Leaves(n4)
  {
    PickLower(EdgeNode(p, n1, n2, n3, n4), p.child, m);
    FindChild(EdgeNode(p, n1, n2, n3, n4), p.child)
  }

  /** All four nodes of an edge step are leaves. */
  predicate AllLeaves(n1: Node, n2: Node, n3: Node, n4: Node) {
    IsLeaf(n1) && IsLeaf(n2) && IsLeaf(n3) && IsLeaf(n4)
  }

  /** `EdgeProc`: four nodes around an edge.  Four leaves make one quad;
      otherwise the two halves of the edge are visited among the children. */
  function EdgeProc(n1: Node, n2: Node, n3: Node, n4: Node, dir: char): (r: seq<Quad>)
    requires WF(n1) && WF(n2) && WF(n3) && WF(n4)
    requires !AllLeaves(n1, n2, n3, n4) ==> IsDir(dir)
    ensures AllLeaves(n1, n2, n3, n4) ==> r == [Quad(n1.bound, n2.bound, n3.bound, n4.bound, dir)]
    ensures IsDir(dir) ==> Walked(r, Leaves(n1) + Leaves(n2) + Leaves(n3) + Leaves(n4))
    decreases Max4(Height(n1), Height(n2), Height(n3), Height(n4)), 3, 0
  {
    if AllLeaves(n1, n2, n3, n4) then [Quad(n1.bound, n2.bound, n3.bound, n4.bound, dir)]
    else EdgeHalves(n1, n2, n3, n4, dir, 0)
  }

  /** The facts an edge step needs: every pick names one of four nodes, and
      some node is split so the common height bound is positive. */
  lemma EdgeStepOk(n1: Node, n2: Node, n3: Node, n4: Node, dir: int, i: int)
    requires IsAxis(dir) && 0 <= i < 2 && !AllLeaves(n1, n2, n3, n4)
    ensures PickOk(EdgeEdge(dir, i).0, 4) && PickOk(EdgeEdge(dir, i).1, 4)
    ensures PickOk(EdgeEdge(dir, i).2, 4) && PickOk(EdgeEdge(dir, i).3, 4)
    ensures Max4(Height(n1), Height(n2), Height(n3), Height(n4)) > 0
  {
    EdgeEdgeLayout(dir, i);
  }

  function EdgeHalves(n1: Node, n2: Node, n3: Node, n4: Node, dir: char, i: int): (r: seq<Quad>)
    requires WF(n1) && WF(n2) && WF(n3) && WF(n4) && !AllLeaves(n1, n2, n3, n4) && IsDir(dir) && 0 <= i <= 2
    ensures Walked(r, Leaves(n1) + Leaves(n2) + Leaves(n3) + Leaves(n4))
    decreases Max4(Height(n1), Height(n2), Height(n3), Height(n4)), 2, 2 - i
  {
    if i == 2 then []
    else
      var all := Leaves(n1) + Leaves(n2) + Leaves(n3) + Leaves(n4);
      var a := HalfWalk(n1, n2, n3, n4, dir, i);
      var b := EdgeHalves(n1, n2, n3, n4, dir, i + 1);
      Join(a, b, all, all);
      a + b
  }

  /** The arguments of an edge step that goes down a level. */
  predicate EdgeStepOn(n1: Node, n2: Node, n3: Node, n4: Node, dir: char) {
    WF(n1) && WF(n2) && WF(n3) && WF(n4) && !AllLeaves(n1, n2, n3, n4) && IsDir(dir)
  }

  /** Pick `k` of a table row of four. */
  function PickOf(q: (Pick, Pick, Pick, Pick), k: int): Pick {
    if k == 0 then q.0 else if k == 1 then q.1 else if k == 2 then q.2 else q.3
  }

  /** The child of an edge step that node `k` gives around half `i`. */
  function HalfChild(n1: Node, n2: Node, n3: Node, n4: Node, dir: char, i: int, k: int): (c: Node)
    requires EdgeStepOn(n1, n2, n3, n4, dir) && 0 <= i < 2 && 0 <= k < 4
    ensures WF(c) && Height(c) < Max4(Height(n1), Height(n2), Height(n3), Height(n4))
    ensures Leaves(c) <= Leaves(n1) + Leaves(n2) + Leaves(n3) + Leaves(n4)
  {
    EdgeStepOk(n1, n2, n3, n4, AxisOf(dir), i);
    EdgeChild(PickOf(EdgeEdge(AxisOf(dir), i), k), n1, n2, n3, n4, Max4(Height(n1), Height(n2), Height(n3), Height(n4)))
  }

  /** The four children of an edge step around half `i` of its edge. */
  function HalfChildren(n1: Node, n2: Node, n3: Node, n4: Node, dir: char, i: int): (c: (Node, Node, Node, Node))
    requires EdgeStepOn(n1, n2, n3, n4, dir) && 0 <= i < 2
    ensures WF(c.0) && WF(c.1) && WF(c.2) && WF(c.3)
    ensures Max4(Height(c.0), Height(c.1), Height(c.2), Height(c.3)) < Max4(Height(n1), Height(n2), Height(n3), Height(n4))
    ensures Leaves(c.0) + Leaves(c.1) + Leaves(c.2) + Leaves(c.3) <= Leaves(n1) + Leaves(n2) + Leaves(n3) + Leaves(n4)
  {
    var c0, c1 := HalfChild(n1, n2, n3, n4, dir, i, 0), HalfChild(n1, n2, n3, n4, dir, i, 1);
    var c2, c3 := HalfChild(n1, n2, n3, n4, dir, i, 2), HalfChild(n1, n2, n3, n4, dir, i, 3);
    Max4Below(Height(c0), Height(c1), Height(c2), Height(c3), Max4(Height(n1), Height(n2), Height(n3), Height(n4)));
    (c0, c1, c2, c3)
  }

  /** The four children around half `i` of an edge step are leaves. */
  predicate HalfLeaves(n1: Node, n2: Node, n3: Node, n4: Node, dir: char, i: int)
    requires EdgeStepOn(n1, n2, n3, n4, dir) && 0 <= i < 2
  {
    var c := HalfChildren(n1, n2, n3, n4, dir, i);
    AllLeaves(c.0, c.1, c.2, c.3)
  }

  /** The quad of half `i` of the edge of an edge step. */
  function HalfQuad(n1: Node, n2: Node, n3: Node, n4: Node, dir: char, i: int): Quad
    requires EdgeStepOn(n1, n2, n3, n4, dir) && 0 <= i < 2
  {
    var c := HalfChildren(n1, n2, n3, n4, dir, i);
    Quad(c.0.bound, c.1.bound, c.2.bound, c.3.bound, dir)
  }

  /** The edge step along half `i` of the edge: the quad of the four
      children around it when they are leaves. */
  function HalfWalk(n1: Node, n2: Node, n3: Node, n4: Node, dir: char, i: int): (r: seq<Quad>)
    requires EdgeStepOn(n1, n2, n3, n4, dir) && 0 <= i < 2
    ensures Walked(r, Leaves(n1) + Leaves(n2) + Leaves(n3) + Leaves(n4))
    ensures HalfLeaves(n1, n2, n3, n4, dir, i) ==> r == [HalfQuad(n1, n2, n3, n4, dir, i)]
    decreases Max4(Height(n1), Height(n2), Height(n3), Height(n4)), 1
  {
    var c := HalfChildren(n1, n2, n3, n4, dir, i);
    var a := EdgeProc(c.0, c.1, c.2, c.3, dir);
    Join(a, [], Leaves(c.0) + Leaves(c.1) + Leaves(c.2) + Leaves(c.3), Leaves(n1) + Leaves(n2) + Leaves(n3) + Leaves(n4));
    a
  }

  // ---------------------------------------------------------------- what a walk reaches

  /** The edge steps of a node from `i` on reach inner edge `j` when its four
      cells are leaves. */
  lemma {:induction false} CellEdgesReach(n: Node, i: int, j: int)
    requires WF(n) && !IsLeaf(n) && 0 <= i <= j < 6 && InnerEdgeLeaves(n, j)
    decreases j - i
    ensures InnerQuad(n.bound, j) in CellEdges(n, i)
  {
    var rest := CellEdges(n, i + 1);
    assert CellEdges(n, i) == EdgeWalk(n, i) + rest;
    if i < j {
      CellEdgesReach(n, i + 1, j);
    }
  }

  /** A cell step reaches each of the six inner edges of a split node whose
      four cells around the edge are leaves: the quad of their bounds is
      returned. */
  lemma CellProcReachesEdge(n: Node, j: int)
    requires WF(n) && !IsLeaf(n) && 0 <= j < 6 && InnerEdgeLeaves(n, j)
    ensures InnerQuad(n.bound, j) in CellProc(n)
  {
    CellEdgesReach(n, 0, j);
    var a, b, c := CellChildren(n, 0), CellFaces(n, 0), CellEdges(n, 0);
    assert CellProc(n) == a + (b + c);
  }

  /** The quads of inner edges `i` to 5 of a box split once, in table
      order. */
  function InnerQuads(b: Box, i: int): (r: seq<Quad>)
    requires 0 <= i <= 6
    decreases 6 - i
    ensures |r| == 6 - i
  {
    if i == 6 then [] else [InnerQuad(b, i)] + InnerQuads(b, i + 1)
  }

  /** A node split once into eight leaves walks to exactly its six inner
      edges, in table order. */
  lemma CellProcOneLevel(n: Node)
    requires WF(n) && !IsLeaf(n) && ChildrenLeaves(n)
    ensures CellProc(n) == InnerQuads(n.bound, 0)
  {
    ChildrenWalkNothing(n, 0);
    FacesWalkNothing(n, 0);
    EdgesWalkInner(n, 0);
    assert CellProc(n) == [] + ([] + CellEdges(n, 0));
  }

  lemma {:induction false} ChildrenWalkNothing(n: Node, i: int)
    requires WF(n) && !IsLeaf(n) && 0 <= i <= 8 && ChildrenLeaves(n)
    decreases 8 - i
    ensures CellChildren(n, i) == []
  {
    if i < 8 {
      ChildrenWalkNothing(n, i + 1);
      assert IsLeaf(InnerChild(n, i));
    }
  }

  lemma {:induction false} FacesWalkNothing(n: Node, i: int)
    requires WF(n) && !IsLeaf(n) && 0 <= i <= 12 && ChildrenLeaves(n)
    decreases 12 - i
    ensures CellFaces(n, i) == []
  {
    if i < 12 {
      FacesWalkNothing(n, i + 1);
      assert CellFaces(n, i) == FaceWalk(n, i) + CellFaces(n, i + 1);
    }
  }

  lemma {:induction false} EdgesWalkInner(n: Node, i: int)
    requires SplitOnce(n) && 0 <= i <= 6
    decreases 6 - i
    ensures CellEdges(n, i) == InnerQuads(n.bound, i)
  {
    if i < 6 {
      EdgesWalkInner(n, i + 1);
      EdgesStep(n, i);
      assert InnerQuads(n.bound, i) == [InnerQuad(n.bound, i)] + InnerQuads(n.bound, i + 1);
    }
  }

  /** In a node split once into leaves every inner edge has leaves around it. */
  lemma SplitOnceEdge(n: Node, j: int)
    requires WF(n) && !IsLeaf(n) && ChildrenLeaves(n) && 0 <= j < 6
    ensures InnerEdgeLeaves(n, j)
  {
    CellEdgeRow(j);
    var q := CellEdgeChildren(j);
    assert IsLeaf(n.children[q.0]) && IsLeaf(n.children[q.1]) && IsLeaf(n.children[q.2]) && IsLeaf(n.children[q.3]);
  }

  /** One inner edge of a node split once into leaves: its quad, then the
      rest. */
  lemma EdgesStep(n: Node, i: int)
    requires SplitOnce(n) && 0 <= i < 6
    ensures CellEdges(n, i) == [InnerQuad(n.bound, i)] + CellEdges(n, i + 1)
  {
    SplitOnceEdge(n, i);
  }

  /** An edge step that is not over four leaves reaches each half of its
      edge whose four nearest children are leaves. */
  lemma EdgeProcReachesHalf(n1: Node, n2: Node, n3: Node, n4: Node, dir: char, i: int)
    requires EdgeStepOn(n1, n2, n3, n4, dir) && 0 <= i < 2
    requires HalfLeaves(n1, n2, n3, n4, dir, i)
    ensures HalfQuad(n1, n2, n3, n4, dir, i) in EdgeProc(n1, n2, n3, n4, dir)
  {
    EdgeProcHalves(n1, n2, n3, n4, dir);
    HalfWalkReach(n1, n2, n3, n4, dir, i);
  }

  /** An edge step that goes down a level is its two halves. */
  lemma EdgeProcHalves(n1: Node, n2: Node, n3: Node, n4: Node, dir: char)
    requires EdgeStepOn(n1, n2, n3, n4, dir)
    ensures EdgeProc(n1, n2, n3, n4, dir) == HalfWalk(n1, n2, n3, n4, dir, 0) + HalfWalk(n1, n2, n3, n4, dir, 1)
  {
    var a1 := HalfWalk(n1, n2, n3, n4, dir, 1);
    EdgeHalvesStep(n1, n2, n3, n4, dir, 0);
    EdgeHalvesStep(n1, n2, n3, n4, dir, 1);
    assert a1 + [] == a1;
    assert EdgeProc(n1, n2, n3, n4, dir) == EdgeHalves(n1, n2, n3, n4, dir, 0);
  }

  lemma EdgeHalvesStep(n1: Node, n2: Node, n3: Node, n4: Node, dir: char, i: int)
    requires EdgeStepOn(n1, n2, n3, n4, dir) && 0 <= i < 2
    ensures EdgeHalves(n1, n2, n3, n4, dir, i) == HalfWalk(n1, n2, n3, n4, dir, i) + EdgeHalves(n1, n2, n3, n4, dir, i + 1)
    ensures EdgeHalves(n1, n2, n3, n4, dir, 2) == []
  {
  }

  lemma HalfWalkReach(n1: Node, n2: Node, n3: Node, n4: Node, dir: char, i: int)
    requires EdgeStepOn(n1, n2, n3, n4, dir) && 0 <= i < 2 && HalfLeaves(n1, n2, n3, n4, dir, i)
    ensures HalfWalk(n1, n2, n3, n4, dir, i) == [HalfQuad(n1, n2, n3, n4, dir, i)]
  {
  }

  /** A face step that is not over two leaves reaches each of the four edges
      crossing its face whose four children are leaves. */
  lemma FaceProcReachesCrossing(n1: Node, n2: Node, dir: char, i: int)
    requires FaceStepOn(n1, n2, dir) && 0 <= i < 4
    requires CrossLeaves(n1, n2, dir, i)
    ensures CrossQuad(n1, n2, dir, i) in FaceProc(n1, n2, dir)
  {
    FaceEdgesReach(n1, n2, dir, 0, i);
    assert FaceProc(n1, n2, dir) == FaceFaces(n1, n2, dir, 0) + FaceEdges(n1, n2, dir, 0);
  }

  lemma {:induction false} FaceEdgesReach(n1: Node, n2: Node, dir: char, i: int, j: int)
    requires FaceStepOn(n1, n2, dir) && 0 <= i <= j < 4
    requires CrossLeaves(n1, n2, dir, j)
    decreases j - i
    ensures CrossQuad(n1, n2, dir, j) in FaceEdges(n1, n2, dir, i)
  {
    if i < j {
      FaceEdgesReach(n1, n2, dir, i + 1, j);
      FaceEdgesKeep(n1, n2, dir, i, j);
    } else {
      FaceEdgesHere(n1, n2, dir, i);
    }
  }

  /** Crossing edge `i` with leaves around it is the first quad from `i` on. */
  lemma FaceEdgesHere(n1: Node, n2: Node, dir: char, i: int)
    requires FaceStepOn(n1, n2, dir) && 0 <= i < 4 && CrossLeaves(n1, n2, dir, i)
    ensures CrossQuad(n1, n2, dir, i) in FaceEdges(n1, n2, dir, i)
  {
    assert FaceEdges(n1, n2, dir, i) == CrossWalk(n1, n2, dir, i) + FaceEdges(n1, n2, dir, i + 1);
  }

  /** A quad reached from crossing edge `i + 1` on is reached from `i` on. */
  lemma FaceEdgesKeep(n1: Node, n2: Node, dir: char, i: int, j: int)
    requires FaceStepOn(n1, n2, dir) && 0 <= i < j < 4 && CrossLeaves(n1, n2, dir, j)
    requires CrossQuad(n1, n2, dir, j) in FaceEdges(n1, n2, dir, i + 1)
    ensures CrossQuad(n1, n2, dir, j) in FaceEdges(n1, n2, dir, i)
  {
    assert FaceEdges(n1, n2, dir, i) == CrossWalk(n1, n2, dir, i) + FaceEdges(n1, n2, dir, i + 1);
  }
}
