/** Rotations and the insertion fix-up of the red-black tree engine. */
module RBTreeBalance {
  import opened RBTreeShape

  /** `TurnLeft(node)`: the right child (the pivot) takes the node's place under
      the same parent link, the node becomes the pivot's left child and adopts
      the pivot's former left subtree. Colours stay with their nodes. */
  function TurnLeft<V>(t: Tree<V>): (r: Tree<V>)
    requires t.Node? && t.right.Node?
    ensures Elements(r) == Elements(t)
    ensures r.Node? && r.key == t.right.key && r.color == t.right.color
    ensures r.left.Node? && r.left.key == t.key && r.left.color == t.color
    ensures r.left.left == t.left && r.right == t.right.right && r.left.right == t.right.left
  {
    var pivot := t.right;
    Node(pivot.color, Node(t.color, t.left, t.key, t.val, pivot.left), pivot.key, pivot.val, pivot.right)
  }

  /** `TurnRight(node)`: the mirror image of `TurnLeft`. */
  function TurnRight<V>(t: Tree<V>): (r: Tree<V>)
    requires t.Node? && t.left.Node?
    ensures Elements(r) == Elements(t)
    ensures r.Node? && r.key == t.left.key && r.color == t.left.color
    ensures r.right.Node? && r.right.key == t.key && r.right.color == t.color
    ensures r.right.right == t.right && r.left == t.left.left && r.right.left == t.left.right
  {
    var pivot := t.left;
    Node(pivot.color, pivot.left, pivot.key, pivot.val, Node(t.color, pivot.right, t.key, t.val, t.right))
  }

  /** Rotating at a position changes the whole tree's contents not at all: only the
      link from the former parent (or the root link) is repointed. */
  lemma TurnLeftAt<V>(t: Tree<V>, p: Path<V>)
    requires t.Node? && t.right.Node?
    ensures Elements(Plug(TurnLeft(t), p)) == Elements(Plug(t, p))
  {
    PlugSameElements(TurnLeft(t), t, p);
  }

  lemma TurnRightAt<V>(t: Tree<V>, p: Path<V>)
    requires t.Node? && t.left.Node?
    ensures Elements(Plug(TurnRight(t), p)) == Elements(Plug(t, p))
  {
    PlugSameElements(TurnRight(t), t, p);
  }

  /** The subtree on the other side of the parent: the sibling of a position. */
  function Sibling<V>(p: Path<V>): Tree<V>
    requires p != Top
  {
    if p.LeftOf? then p.right else p.left
  }

  /** Below a red parent there is a black grandparent, and both the sibling and
      the uncle have the black height of the position. */
  lemma RedParent<V>(p: Path<V>, n: nat)
    requires FitsBelow(p, n)
    ensures p != Top && p.color == Red ==>
              IsRB(Sibling(p), n) && ColorOf(Sibling(p)) == Black &&
              p.up != Top && p.up.color == Black &&
              IsRB(Sibling(p.up), n) && FitsBelow(p.up.up, n + 1)
  {
    if p != Top && p.color == Red {
      var up := p.up;
      assert Fits(up, n, Red);
      assert FitsBelow(up, n);
      match up
      case LeftOf(_, _, _, _, upup) => assert Fits(upup, n + 1, Black);
      case RightOf(_, _, _, _, upup) => assert Fits(upup, n + 1, Black);
    }
  }

  /** A red node `t` under a red parent whose sibling (the uncle) is red. */
  ghost predicate RedUncle<V>(t: Tree<V>, p: Path<V>, n: nat) {
    t.Node? && t.color == Red && IsRB(t, n) && FitsBelow(p, n) &&
    p != Top && p.color == Red && p.up != Top && ColorOf(Sibling(p.up)) == Red
  }

  /** Red uncle: parent and uncle become black and the grandparent red; the result
      is the grandparent's subtree, now red, where the repair continues. */
  function Recolored<V>(t: Tree<V>, p: Path<V>, ghost n: nat): (g: Tree<V>)
    requires RedUncle(t, p, n)
    ensures g.Node? && g.color == Red && IsRB(g, n + 1) && BlackHeight(g) == n + 1
    ensures FitsBelow(p.up.up, n + 1)
    ensures Elements(g) == Elements(Climb(Climb(t, p), p.up))
  {
    RedParent(p, n);
    var u := Sibling(p.up);
    IsRBHeight(u, n);
    IsRBHeight(Sibling(p), n);
    IsRBHeight(t, n);
    var parent := Paint(Climb(t, p), Black);
    assert IsRB(parent, n + 1) && BlackHeight(parent) == n + 1;
    if p.up.LeftOf? then
      Node(Red, parent, p.up.key, p.up.val, Paint(u, Black))
    else
      Node(Red, Paint(u, Black), p.up.key, p.up.val, parent)
  }

  /** A red node `t` under a red parent whose uncle is black (possibly the sentinel). */
  ghost predicate BlackUncle<V>(t: Tree<V>, p: Path<V>, n: nat) {
    t.Node? && t.color == Red && IsRB(t, n) && FitsBelow(p, n) &&
    p != Top && p.color == Red && p.up != Top && ColorOf(Sibling(p.up)) == Black
  }

  /** Black uncle: one rotation at the grandparent when node, parent and
      grandparent are in a line, two when they form a triangle; the new top of
      the grandparent's subtree is black, the grandparent red. */
  function Rotated<V>(t: Tree<V>, p: Path<V>, ghost n: nat): (r: Tree<V>)
    requires BlackUncle(t, p, n)
    ensures RedBlack(r)
    ensures Elements(r) == Elements(Plug(t, p))
  {
    RedParent(p, n);
    var g := Climb(Climb(t, p), p.up);
    var top := RotatedTop(t, p, n);
    PlugSameElements(top, g, p.up.up);
    PlugFits(top, p.up.up, n + 1);
    Plug(top, p.up.up)
  }

  /** The grandparent's subtree after the rotations of the black-uncle case. */
  function RotatedTop<V>(t: Tree<V>, p: Path<V>, ghost n: nat): (r: Tree<V>)
    requires BlackUncle(t, p, n)
    ensures IsRB(r, n + 1) && ColorOf(r) == Black
    ensures Elements(r) == Elements(Climb(Climb(t, p), p.up))
  {
    RedParent(p, n);
    if p.up.LeftOf? then RotatedUnderLeft(t, p, n) else RotatedUnderRight(t, p, n)
  }

  /** The parent is the grandparent's left child. */
  function RotatedUnderLeft<V>(t: Tree<V>, p: Path<V>, ghost n: nat): (r: Tree<V>)
    requires BlackUncle(t, p, n) && p.up.LeftOf?
    ensures IsRB(r, n + 1) && ColorOf(r) == Black
    ensures Elements(r) == Elements(Climb(Climb(t, p), p.up))
  {
    RedParent(p, n);
    var s, u := Sibling(p), Sibling(p.up);
    if p.LeftOf? then
      // node, parent and grandparent in a line: turn the grandparent right
      TurnRight(Node(Red, Node(Black, t, p.key, p.val, s), p.up.key, p.up.val, u))
    else
      // triangle: turn the parent left, so the node becomes the parent's parent
      // and is painted black, then turn the grandparent right
      var q := TurnLeft(Node(Red, s, p.key, p.val, t));
      TurnRight(Node(Red, Paint(q, Black), p.up.key, p.up.val, u))
  }

  /** The parent is the grandparent's right child: the mirror image. */
  function RotatedUnderRight<V>(t: Tree<V>, p: Path<V>, ghost n: nat): (r: Tree<V>)
    requires BlackUncle(t, p, n) && p.up.RightOf?
    ensures IsRB(r, n + 1) && ColorOf(r) == Black
    ensures Elements(r) == Elements(Climb(Climb(t, p), p.up))
  {
    RedParent(p, n);
    var s, u := Sibling(p), Sibling(p.up);
    if p.RightOf? then
      TurnLeft(Node(Red, u, p.up.key, p.up.val, Node(Black, s, p.key, p.val, t)))
    else
      var q := TurnRight(Node(Red, t, p.key, p.val, s));
      TurnLeft(Node(Red, u, p.up.key, p.up.val, Paint(q, Black)))
  }

  /** `FixInsert(node)`: `t` is the subtree at the freshly linked (or freshly
      reddened) red node and `p` its parent chain. The only possible violation is
      a red parent of the red node; the result is the repaired whole tree. */
  function FixInsert<V>(t: Tree<V>, p: Path<V>): (r: Tree<V>)
    requires t.Node? && t.color == Red && IsRB(t, BlackHeight(t)) && FitsBelow(p, BlackHeight(t))
    ensures RedBlack(r)
    ensures Elements(r) == Elements(Plug(t, p))
    decreases p
  {
    var n := BlackHeight(t);
    RedParent(p, n);
    if p == Top then
      // no parent: the node is the root and is painted black
      Paint(t, Black)
    else if p.color == Black then
      // black parent: nothing to repair
      PlugFits(t, p, n);
      Plug(t, p)
    else if ColorOf(Sibling(p.up)) == Red then
      var g := Recolored(t, p, n);
      PlugSameElements(g, Climb(Climb(t, p), p.up), p.up.up);
      FixInsert(g, p.up.up)
    else
      Rotated(t, p, n)
  }
}
