/** Deletion in the red-black tree engine: the splice done by `Delete` with
    `Transplant` and the successor, and the `FixDelete` loop that restores the
    black heights.

    `FixDelete` reaches the parent of the node it repairs through `node->parent`
    even when that node is the sentinel; `Transplant` stores that parent in the
    sentinel beforehand. Here the node's parent chain is carried along with it,
    which is what that scratch write provides. */
module RBTreeDeletion {
  import opened RBTreeShape
  import opened RBTreeBalance
  import opened RBTreeSearch

  /** The node being repaired lacks one black: a black node of black height n
      where n + 1 is expected, or a red node that fits once painted black. */
  ghost predicate Deficient<V>(x: Tree<V>, n: nat) {
    if ColorOf(x) == Red then IsRB(Paint(x, Black), n + 1) else IsRB(x, n)
  }

  /** What the parent link of the repaired node promises when it is a left child. */
  lemma LeftParent<V>(p: Path<V>, n: nat)
    requires p.LeftOf? && FitsBelow(p, n + 1)
    ensures p.right.Node? && IsRB(p.right, n + 1)
    ensures p.color == Red ==> ColorOf(p.right) == Black
    ensures Fits(p.up, n + 1 + Weight(p.color), p.color)
  {
  }

  lemma RightParent<V>(p: Path<V>, n: nat)
    requires p.RightOf? && FitsBelow(p, n + 1)
    ensures p.left.Node? && IsRB(p.left, n + 1)
    ensures p.color == Red ==> ColorOf(p.left) == Black
    ensures Fits(p.up, n + 1 + Weight(p.color), p.color)
  {
  }

  /** Case 1 with the node on the left: the sibling is red, so it is painted black,
      the parent red, and the parent is turned left. The node keeps its place
      under the (now red) parent and its new sibling is black. */
  function RedSiblingLeft<V>(x: Tree<V>, p: Path<V>, ghost n: nat): (q: Path<V>)
    requires p.LeftOf? && FitsBelow(p, n + 1) && ColorOf(p.right) == Red
    ensures q.LeftOf? && q.color == Red && ColorOf(q.right) == Black
    ensures FitsBelow(q, n + 1) && Depth(q) == Depth(p) + 1
    ensures Elements(Plug(x, q)) == Elements(Plug(x, p))
  {
    LeftParent(p, n);
    var w := p.right;
    var turned := TurnLeft(Node(Red, x, p.key, p.val, Paint(w, Black)));
    var up := LeftOf(Black, w.key, w.val, w.right, p.up);
    var q := LeftOf(Red, p.key, p.val, w.left, up);
    assert p.color == Black && IsRB(w.left, n + 1) && IsRB(w.right, n + 1);
    assert FitsBelow(up, n + 1);
    assert Fits(up, n + 1, Red);
    assert Plug(x, q) == Plug(turned, p.up);
    PlugSameElements(turned, Node(p.color, x, p.key, p.val, w), p.up);
    q
  }

  function RedSiblingRight<V>(x: Tree<V>, p: Path<V>, ghost n: nat): (q: Path<V>)
    requires p.RightOf? && FitsBelow(p, n + 1) && ColorOf(p.left) == Red
    ensures q.RightOf? && q.color == Red && ColorOf(q.left) == Black
    ensures FitsBelow(q, n + 1) && Depth(q) == Depth(p) + 1
    ensures Elements(Plug(x, q)) == Elements(Plug(x, p))
  {
    RightParent(p, n);
    var w := p.left;
    var turned := TurnRight(Node(Red, Paint(w, Black), p.key, p.val, x));
    var up := RightOf(Black, w.left, w.key, w.val, p.up);
    var q := RightOf(Red, w.right, p.key, p.val, up);
    assert p.color == Black && IsRB(w.left, n + 1) && IsRB(w.right, n + 1);
    assert FitsBelow(up, n + 1);
    assert Fits(up, n + 1, Red);
    assert Plug(x, q) == Plug(turned, p.up);
    PlugSameElements(turned, Node(p.color, w, p.key, p.val, x), p.up);
    q
  }

  /** Case 3 with the node on the left: only the sibling's near (left) child is
      red; it is painted black, the sibling red, and the sibling turned right, so
      the new sibling has a red far child. */
  function NearRedLeft<V>(w: Tree<V>, ghost n: nat): (r: Tree<V>)
    requires w.Node? && w.color == Black && IsRB(w, n + 1)
    requires ColorOf(w.left) == Red && ColorOf(w.right) == Black
    ensures r.Node? && ColorOf(r.right) == Red && IsRB(r.right, n) && IsRB(r.left, n)
    ensures Elements(r) == Elements(w)
  {
    var wl := w.left;
    assert IsRB(wl, n) && IsRB(wl.left, n) && IsRB(wl.right, n) && ColorOf(wl.right) == Black;
    TurnRight(Node(Red, Paint(wl, Black), w.key, w.val, w.right))
  }

  function NearRedRight<V>(w: Tree<V>, ghost n: nat): (r: Tree<V>)
    requires w.Node? && w.color == Black && IsRB(w, n + 1)
    requires ColorOf(w.right) == Red && ColorOf(w.left) == Black
    ensures r.Node? && ColorOf(r.left) == Red && IsRB(r.left, n) && IsRB(r.right, n)
    ensures Elements(r) == Elements(w)
  {
    var wr := w.right;
    assert IsRB(wr, n) && IsRB(wr.left, n) && IsRB(wr.right, n) && ColorOf(wr.left) == Black;
    TurnLeft(Node(Red, w.left, w.key, w.val, Paint(wr, Black)))
  }

  /** Cases 3 and 4 with the node on the left: the black sibling has a red child.
      If its far (right) child is black, the near child is painted black, the
      sibling red and the sibling turned right (case 3). Then the sibling takes
      the parent's colour, the parent and the far child turn black and the
      parent is turned left (case 4). The repair is complete: the whole tree. */
  function FarRedLeft<V>(x: Tree<V>, p: Path<V>, ghost n: nat): (r: Tree<V>)
    requires p.LeftOf? && ColorOf(x) == Black && IsRB(x, n) && FitsBelow(p, n + 1)
    requires ColorOf(p.right) == Black
    requires ColorOf(p.right.left) == Red || ColorOf(p.right.right) == Red
    ensures RedBlack(r)
    ensures Elements(r) == Elements(Plug(x, p))
  {
    LeftParent(p, n);
    var top := FarRedTopLeft(x, p, n);
    PlugFits(top, p.up, n + 1 + Weight(p.color));
    PlugSameElements(top, Node(p.color, x, p.key, p.val, p.right), p.up);
    Plug(top, p.up)
  }

  /** The parent's subtree after cases 3 and 4, node on the left. */
  function FarRedTopLeft<V>(x: Tree<V>, p: Path<V>, ghost n: nat): (top: Tree<V>)
    requires p.LeftOf? && ColorOf(x) == Black && IsRB(x, n) && FitsBelow(p, n + 1)
    requires ColorOf(p.right) == Black
    requires ColorOf(p.right.left) == Red || ColorOf(p.right.right) == Red
    ensures IsRB(top, n + 1 + Weight(p.color)) && ColorOf(top) == p.color
    ensures Elements(top) == Elements(Node(p.color, x, p.key, p.val, p.right))
  {
    LeftParent(p, n);
    var w0 := p.right;
    var w := if ColorOf(w0.right) == Black then NearRedLeft(w0, n) else w0;
    assert IsRB(w.left, n) && IsRB(w.right, n) && ColorOf(w.right) == Red;
    var near, far := Node(Black, x, p.key, p.val, w.left), Paint(w.right, Black);
    assert IsRB(far, n + 1) && IsRB(near, n + 1);
    assert Elements(Node(p.color, w.left, w.key, w.val, far)) == Elements(w);
    var t := Node(Black, x, p.key, p.val, Node(p.color, w.left, w.key, w.val, far));
    assert Elements(t) == Elements(Node(p.color, x, p.key, p.val, p.right));
    var top := TurnLeft(t);
    assert top == Node(p.color, near, w.key, w.val, far);
    top
  }

  function FarRedRight<V>(x: Tree<V>, p: Path<V>, ghost n: nat): (r: Tree<V>)
    requires p.RightOf? && ColorOf(x) == Black && IsRB(x, n) && FitsBelow(p, n + 1)
    requires ColorOf(p.left) == Black
    requires ColorOf(p.left.left) == Red || ColorOf(p.left.right) == Red
    ensures RedBlack(r)
    ensures Elements(r) == Elements(Plug(x, p))
  {
    RightParent(p, n);
    var top := FarRedTopRight(x, p, n);
    PlugFits(top, p.up, n + 1 + Weight(p.color));
    PlugSameElements(top, Node(p.color, p.left, p.key, p.val, x), p.up);
    Plug(top, p.up)
  }

  function FarRedTopRight<V>(x: Tree<V>, p: Path<V>, ghost n: nat): (top: Tree<V>)
    requires p.RightOf? && ColorOf(x) == Black && IsRB(x, n) && FitsBelow(p, n + 1)
    requires ColorOf(p.left) == Black
    requires ColorOf(p.left.left) == Red || ColorOf(p.left.right) == Red
    ensures IsRB(top, n + 1 + Weight(p.color)) && ColorOf(top) == p.color
    ensures Elements(top) == Elements(Node(p.color, p.left, p.key, p.val, x))
  {
    RightParent(p, n);
    var w0 := p.left;
    var w := if ColorOf(w0.left) == Black then NearRedRight(w0, n) else w0;
    assert IsRB(w.left, n) && IsRB(w.right, n) && ColorOf(w.left) == Red;
    var far, near := Paint(w.left, Black), Node(Black, w.right, p.key, p.val, x);
    assert IsRB(far, n + 1) && IsRB(near, n + 1);
    assert Elements(Node(p.color, far, w.key, w.val, w.right)) == Elements(w);
    var t := Node(Black, Node(p.color, far, w.key, w.val, w.right), p.key, p.val, x);
    assert Elements(t) == Elements(Node(p.color, p.left, p.key, p.val, x));
    var top := TurnRight(t);
    assert top == Node(p.color, far, w.key, w.val, near);
    top
  }

  /** One pass of the `FixDelete` loop for a node that is its parent's left child. */
  method FixDeleteLeft<V>(x: Tree<V>, p: Path<V>, ghost n: nat) returns (x': Tree<V>, p': Path<V>, ghost n': nat)
    requires p.LeftOf? && ColorOf(x) == Black && IsRB(x, n) && FitsBelow(p, n + 1)
    ensures Deficient(x', n') && FitsBelow(p', n' + 1)
    ensures Elements(Plug(x', p')) == Elements(Plug(x, p))
    ensures Depth(p') + Weight(ColorOf(x')) < Depth(p) + 1
  {
    var q := p;
    if ColorOf(q.right) == Red {
      q := RedSiblingLeft(x, q, n);
    }
    LeftParent(q, n);
    var w := q.right;
    if ColorOf(w.left) == Black && ColorOf(w.right) == Black {
      // case 2: the sibling turns red and the parent carries the missing black
      x', p' := Node(q.color, x, q.key, q.val, Paint(w, Red)), q.up;
      n' := n + Weight(q.color);
      PlugSameElements(x', Node(q.color, x, q.key, q.val, w), q.up);
    } else {
      x', p' := FarRedLeft(x, q, n), Top;
      n' := BlackHeight(x');
    }
  }

  /** One pass of the `FixDelete` loop for a node that is its parent's right child. */
  method FixDeleteRight<V>(x: Tree<V>, p: Path<V>, ghost n: nat) returns (x': Tree<V>, p': Path<V>, ghost n': nat)
    requires p.RightOf? && ColorOf(x) == Black && IsRB(x, n) && FitsBelow(p, n + 1)
    ensures Deficient(x', n') && FitsBelow(p', n' + 1)
    ensures Elements(Plug(x', p')) == Elements(Plug(x, p))
    ensures Depth(p') + Weight(ColorOf(x')) < Depth(p) + 1
  {
    var q := p;
    if ColorOf(q.left) == Red {
      q := RedSiblingRight(x, q, n);
    }
    RightParent(q, n);
    var w := q.left;
    if ColorOf(w.right) == Black && ColorOf(w.left) == Black {
      x', p' := Node(q.color, Paint(w, Red), q.key, q.val, x), q.up;
      n' := n + Weight(q.color);
      PlugSameElements(x', Node(q.color, w, q.key, q.val, x), q.up);
    } else {
      x', p' := FarRedRight(x, q, n), Top;
      n' := BlackHeight(x');
    }
  }

  /** `FixDelete(node)`: while the node is a black non-root, repair around it;
      finally paint it black. `x` at `p` lacks one black (or is red). */
  method FixDelete<V>(x: Tree<V>, p: Path<V>, ghost n: nat) returns (r: Tree<V>)
    requires Deficient(x, n) && FitsBelow(p, n + 1)
    ensures RedBlack(r)
    ensures Elements(r) == Elements(Plug(x, p))
  {
    var node, path := x, p;
    ghost var h := n;
    while path != Top && ColorOf(node) == Black
      invariant Deficient(node, h) && FitsBelow(path, h + 1)
      invariant Elements(Plug(node, path)) == Elements(Plug(x, p))
      decreases Depth(path) + Weight(ColorOf(node))
    {
      if path.LeftOf? {
        node, path, h := FixDeleteLeft(node, path, h);
      } else {
        node, path, h := FixDeleteRight(node, path, h);
      }
    }
    r := Plug(Paint(node, Black), path);
    if ColorOf(node) == Red {
      PlugFits(Paint(node, Black), path, h + 1);
    } else {
      IsRBHeight(node, h);
    }
    PlugSameElements(Paint(node, Black), node, path);
  }

  /** Splicing out a node with at most one real child: the child takes its place
      (`Transplant`). When the node was black the child lacks one black; when it
      was red nothing is lost, and its child can only be the sentinel. */
  lemma SpliceOut<V>(m: Tree<V>, p: Path<V>, p': Path<V>)
    requires RedBlack(Plug(m, p)) && m.Node? && (m.left.Nil? || m.right.Nil?) && SameShape(p, p')
    ensures var c := if m.left.Nil? then m.right else m.left;
            (m.color == Black ==> Deficient(c, 0) && FitsBelow(p', 1)) &&
            (m.color == Red ==> c.Nil? && RedBlack(Plug(c, p')))
  {
    UnplugFits(m, p);
    var h := BlackHeight(m);
    SameShapeFits(p, p', h, m.color);
    var c := if m.left.Nil? then m.right else m.left;
    assert IsRB(c, h - Weight(m.color)) && h - Weight(m.color) == 0;
    if m.color == Red {
      PlugFits(c, p', 0);
    }
  }

  /** Removing the pair of a key from an ascending sequence keeps it ascending
      and removes exactly that key from the map it denotes. */
  lemma DropPair<V>(a: seq<(int, V)>, k: int, v: V, b: seq<(int, V)>)
    requires Ascending(a + [(k, v)] + b)
    ensures Ascending(a + b)
    ensures MapOf(a + b) == MapOf(a + [(k, v)] + b) - {k}
  {
    AscendingSplit(a, k, v, b);
    var s := a + b;
    forall i, j | 0 <= i < j < |s| ensures s[i].0 < s[j].0 {
      if j < |a| {
        assert s[i] == a[i] && s[j] == a[j];
      } else if i < |a| {
        assert s[i] == a[i] && s[j] == b[j - |a|];
        assert a[i].0 < k < b[j - |a|].0;
      } else {
        assert s[i] == b[i - |a|] && s[j] == b[j - |a|];
      }
    }
    MapOfBelow(a, k);
    MapOfAbove(b, k);
    MapOfRemove(a, k, v, b);
  }

  /** Contents around a node with a sentinel child, before and after the other
      child takes its place. */
  lemma OneChildElements<V>(z: Tree<V>, p: Path<V>)
    requires z.Node? && (z.left.Nil? || z.right.Nil?)
    ensures Elements(Plug(z, p)) ==
            (Before(p) + Elements(z.left)) + [(z.key, z.val)] + (Elements(z.right) + After(p))
    ensures Elements(Plug(if z.left.Nil? then z.right else z.left, p)) ==
            (Before(p) + Elements(z.left)) + (Elements(z.right) + After(p))
  {
    var c := if z.left.Nil? then z.right else z.left;
    PlugElements(z, p);
    PlugElements(c, p);
    var B, L, R, A := Before(p), Elements(z.left), Elements(z.right), After(p);
    calc {
      Elements(Plug(z, p));
      B + (L + [(z.key, z.val)] + R) + A;
      (B + L) + [(z.key, z.val)] + (R + A);
    }
    if z.left.Nil? {
      calc {
        Elements(Plug(c, p));
        B + R + A;
        (B + L) + (R + A);
      }
    } else {
      calc {
        Elements(Plug(c, p));
        B + L + A;
        (B + L) + (R + A);
      }
    }
  }

  /** Contents before and after the successor `y` (found at `q` below the right
      child of `z`) is unlinked and moved into the place of `z`. */
  lemma SuccessorElements<V>(z: Tree<V>, p: Path<V>, y: Tree<V>, q: Path<V>)
    requires z.Node? && y.Node? && y.left.Nil? && Plug(y, q) == z.right && LeftSpine(q)
    ensures Elements(Plug(z, p)) ==
            (Before(p) + Elements(z.left)) + [(z.key, z.val)] +
            ([(y.key, y.val)] + Elements(y.right) + After(q) + After(p))
    ensures Elements(Plug(y.right, Extend(q, RightOf(z.color, z.left, y.key, y.val, p)))) ==
            (Before(p) + Elements(z.left)) +
            ([(y.key, y.val)] + Elements(y.right) + After(q) + After(p))
  {
    SuccessorBefore(z, p, y, q);
    SuccessorAfter(z, p, y, q);
  }

  lemma SuccessorBefore<V>(z: Tree<V>, p: Path<V>, y: Tree<V>, q: Path<V>)
    requires z.Node? && y.Node? && y.left.Nil? && Plug(y, q) == z.right && LeftSpine(q)
    ensures Elements(Plug(z, p)) ==
            (Before(p) + Elements(z.left)) + [(z.key, z.val)] +
            ([(y.key, y.val)] + Elements(y.right) + After(q) + After(p))
  {
    var X := [(y.key, y.val)] + Elements(y.right) + After(q);
    SuccessorSubtree(y, q);
    PlugElements(z, p);
    assert Elements(z) == Elements(z.left) + [(z.key, z.val)] + X;
    Regroup4(Before(p), Elements(z.left), [(z.key, z.val)], X, After(p));
  }

  /** The subtree holding the successor at the head of its left spine. */
  lemma SuccessorSubtree<V>(y: Tree<V>, q: Path<V>)
    requires y.Node? && y.left.Nil? && LeftSpine(q)
    ensures Elements(Plug(y, q)) == [(y.key, y.val)] + Elements(y.right) + After(q)
  {
    PlugElements(y, q);
    LeftSpineBefore(q);
    assert Elements(y) == [] + [(y.key, y.val)] + Elements(y.right);
  }

  lemma Regroup4<T>(b: seq<T>, l: seq<T>, k: seq<T>, x: seq<T>, a: seq<T>)
    ensures b + (l + k + x) + a == (b + l) + k + (x + a)
  {
  }

  lemma SuccessorAfter<V>(z: Tree<V>, p: Path<V>, y: Tree<V>, q: Path<V>)
    requires z.Node? && y.Node? && LeftSpine(q)
    ensures Elements(Plug(y.right, Extend(q, RightOf(z.color, z.left, y.key, y.val, p)))) ==
            (Before(p) + Elements(z.left)) +
            ([(y.key, y.val)] + Elements(y.right) + After(q) + After(p))
  {
    var B, L, A := Before(p), Elements(z.left), After(p);
    var ykv, YR, AQ := [(y.key, y.val)], Elements(y.right), After(q);
    var up := RightOf(z.color, z.left, y.key, y.val, p);
    LeftSpineBefore(q);
    PlugElements(y.right, Extend(q, up));
    ExtendElements(q, up);
    assert Before(Extend(q, up)) == (B + L) + ykv by {
      assert Before(up) == B + L + ykv;
      assert Before(up) + [] == Before(up);
    }
    assert After(Extend(q, up)) == AQ + A;
    Regroup5(B + L, ykv, YR, AQ, A);
  }

  lemma Regroup5<T>(a: seq<T>, b: seq<T>, c: seq<T>, d: seq<T>, e: seq<T>)
    ensures (a + b) + c + (d + e) == a + (b + c + d + e)
  {
  }

  /** The node-unlinking half of `Delete(key)` on the tree `root` holding `key`:
      find its node; if a child is the sentinel, the other child takes its place;
      otherwise its successor (the minimum of its right subtree) is unlinked,
      replaced by its own right child, and takes the deleted node's place,
      children and colour. Returns the node `x` that moved up with its parent
      chain, and whether the colour that left the tree was black. */
  method Unlink<V>(root: Tree<V>, key: int) returns (x: Tree<V>, xp: Path<V>, removedBlack: bool,
                                                     ghost a: seq<(int, V)>, ghost v: V, ghost b: seq<(int, V)>)
    requires RedBlack(root) && Ascending(Elements(root)) && key in MapOf(Elements(root))
    ensures Elements(root) == a + [(key, v)] + b
    ensures Elements(Plug(x, xp)) == a + b
    ensures removedBlack ==> Deficient(x, 0) && FitsBelow(xp, 1)
    ensures !removedBlack ==> RedBlack(Plug(x, xp))
  {
    var z, p0 := FindNode(root, key);
    var originalColor := z.color;
    ghost var m, mp;
    v := z.val;
    if z.left.Nil? {
      x, xp := z.right, p0;
      m, mp := z, p0;
      SameShapeRefl(p0);
      OneChildElements(z, p0);
      a, b := Before(p0) + Elements(z.left), Elements(z.right) + After(p0);
    } else if z.right.Nil? {
      x, xp := z.left, p0;
      m, mp := z, p0;
      SameShapeRefl(p0);
      OneChildElements(z, p0);
      a, b := Before(p0) + Elements(z.left), Elements(z.right) + After(p0);
    } else {
      var y, q := Minimum(z.right);
      originalColor := y.color;
      x := y.right;
      if q != Top {
        // the successor is deeper: its right child takes its place, and it adopts
        // the deleted node's right subtree
        xp := Extend(q, RightOf(z.color, z.left, y.key, y.val, p0));
      } else {
        // the successor is the deleted node's right child: x stays below it
        xp := RightOf(z.color, z.left, y.key, y.val, p0);
      }
      m, mp := y, Extend(q, RightOf(z.color, z.left, z.key, z.val, p0));
      PlugExtend(y, q, RightOf(z.color, z.left, z.key, z.val, p0));
      SameShapeRefl(p0);
      SameShapeExtend(q, RightOf(z.color, z.left, z.key, z.val, p0), RightOf(z.color, z.left, y.key, y.val, p0));
      SuccessorElements(z, p0, y, q);
      a, b := Before(p0) + Elements(z.left), [(y.key, y.val)] + Elements(y.right) + After(q) + After(p0);
    }
    SpliceOut(m, mp, xp);
    removedBlack := originalColor == Black;
  }

  /** `Delete(key)` on the tree `root` holding `key`: unlink its pair, then, when
      the colour removed from the tree is black, `FixDelete` repairs from the
      node that moved up. The pair of the key leaves the in-order sequence and
      the others keep their order and payloads. */
  method Remove<V>(root: Tree<V>, key: int) returns (r: Tree<V>)
    requires RedBlack(root) && Ascending(Elements(root)) && key in MapOf(Elements(root))
    ensures RedBlack(r) && Ascending(Elements(r))
    ensures MapOf(Elements(r)) == MapOf(Elements(root)) - {key}
    ensures |Elements(r)| == |Elements(root)| - 1
    ensures exists i :: 0 <= i < |Elements(root)| && Elements(root)[i].0 == key &&
                        Elements(r) == Elements(root)[..i] + Elements(root)[i + 1..]
  {
    var x, xp, removedBlack, a, v, b := Unlink(root, key);
    if removedBlack {
      r := FixDelete(x, xp, 0);
    } else {
      r := Plug(x, xp);
    }
    DropPair(a, key, v, b);
    MapOfSize(Elements(root));
    MapOfSize(Elements(r));
    DropAt(a, (key, v), b);
  }

  lemma DropAt<T>(a: seq<T>, x: T, b: seq<T>)
    ensures var s := a + [x] + b; s[|a|] == x && s[..|a|] + s[|a| + 1..] == a + b
  {
    var s := a + [x] + b;
    assert s[..|a|] == a;
    assert s[|a| + 1..] == b;
  }
}
