/** The in-order iterator of the red-black tree. An iterator designates a node
    (a position: the subtree there and its parent chain) and carries an `end`
    flag; past-the-end is the maximum node with the flag raised, not the
    sentinel. Only an empty tree gives an iterator on the sentinel. */
module RBTreeIterator {
  import opened RBTreeShape
  import opened RBTreeSearch

  datatype Cursor<V> = Cursor(node: Tree<V>, path: Path<V>, atEnd: bool)

  /** The iterator constructor: the `end` flag is lowered exactly when the start
      node is a real node. */
  function MakeCursor<V>(start: Tree<V>, path: Path<V>): (c: Cursor<V>)
    ensures c.node == start && c.path == path
    ensures c.atEnd <==> start.Nil?
  {
    Cursor(start, path, start.Nil?)
  }

  /** A cursor into `t`: a real node, or past-the-end parked on the maximum, or
      the sentinel of an empty tree. */
  ghost predicate ValidIn<V>(t: Tree<V>, c: Cursor<V>) {
    Plug(c.node, c.path) == t &&
    (!c.atEnd ==> c.node.Node?) &&
    (c.atEnd ==> (c.node.Nil? && c.path == Top) ||
                 (c.node.Node? && c.node.right.Nil? && RightSpine(c.path)))
  }

  /** The in-order position a cursor stands for; past-the-end is one past the last. */
  ghost function Index<V>(c: Cursor<V>): nat {
    if c.atEnd then |Elements(Plug(c.node, c.path))|
    else if c.node.Nil? then |Before(c.path)|
    else |Before(c.path)| + |Elements(c.node.left)|
  }

  /** A cursor not at the end designates the element at its index. */
  lemma CursorElement<V>(t: Tree<V>, c: Cursor<V>)
    requires ValidIn(t, c)
    ensures Index(c) <= |Elements(t)|
    ensures !c.atEnd ==> Index(c) < |Elements(t)| && Elements(t)[Index(c)] == (c.node.key, c.node.val)
    ensures c.atEnd && c.node.Node? ==> 0 < |Elements(t)| && Elements(t)[|Elements(t)| - 1] == (c.node.key, c.node.val)
  {
    if !c.atEnd {
      NodeElement(t, c);
    } else if c.node.Node? {
      LastElement(t, c);
    }
  }

  /** The node under a cursor holds the element just after everything before
      it and its left subtree. */
  lemma NodeElement<V>(t: Tree<V>, c: Cursor<V>)
    requires ValidIn(t, c) && !c.atEnd
    ensures Index(c) < |Elements(t)| && Elements(t)[Index(c)] == (c.node.key, c.node.val)
  {
    var s, x, rest := Before(c.path) + Elements(c.node.left), (c.node.key, c.node.val), Elements(c.node.right) + After(c.path);
    assert Index(c) == |s|;
    PlugElements(c.node, c.path);
    assert Elements(c.node) == Elements(c.node.left) + [x] + Elements(c.node.right);
    assert Elements(t) == s + [x] + rest;
  }

  /** A past-the-end cursor kept on the maximum: that node holds the last
      element. */
  lemma LastElement<V>(t: Tree<V>, c: Cursor<V>)
    requires ValidIn(t, c) && c.atEnd && c.node.Node?
    ensures 0 < |Elements(t)| && Elements(t)[|Elements(t)| - 1] == (c.node.key, c.node.val)
  {
    PlugElements(c.node, c.path);
    RightSpineAfter(c.path);
    assert Elements(t) == Before(c.path) + Elements(c.node.left) + [(c.node.key, c.node.val)];
  }

  /** The cursor on the maximum of a whole tree (`Maximum(root)`), flagged as asked. */
  method MaxCursor<V>(t: Tree<V>, atEnd: bool) returns (r: Cursor<V>)
    requires atEnd || t.Node?
    ensures ValidIn(t, r) && r.atEnd == atEnd
    ensures !atEnd ==> Index(r) == |Elements(t)| - 1
  {
    var m, q := Maximum(t);
    r := Cursor(m, q, atEnd);
    if !atEnd {
      PlugElements(m, q);
      RightSpineAfter(q);
      assert Elements(t) == Before(q) + Elements(m.left) + [(m.key, m.val)];
    }
  }

  /** Walk up from any position to the root. */
  method ClimbToRoot<V>(node: Tree<V>, path: Path<V>) returns (root: Tree<V>)
    ensures root == Plug(node, path)
    ensures node.Node? ==> root.Node?
  {
    var n, p := node, path;
    while p != Top
      invariant Plug(n, p) == Plug(node, path)
      invariant node.Node? ==> n.Node?
      decreases p
    {
      n, p := Climb(n, p), p.up;
    }
    root := n;
  }

  /** `operator++`. On the sentinel nothing moves. Past-the-end climbs to the
      root and back down to the maximum, staying past-the-end. Without a right
      subtree, climb while coming from a right child: reaching the root that way
      means the node was the last, so park on the maximum and raise the flag;
      otherwise stop at that parent. With a right subtree, go to its minimum. */
  method Next<V>(ghost t: Tree<V>, c: Cursor<V>) returns (r: Cursor<V>)
    requires ValidIn(t, c)
    ensures ValidIn(t, r)
    ensures Index(r) == if c.atEnd then Index(c) else Index(c) + 1
    ensures r.atEnd <==> Index(r) == |Elements(t)|
  {
    CursorElement(t, c);
    if c.node.Nil? {
      return c;
    }
    if c.atEnd {
      var root := ClimbToRoot(c.node, c.path);
      r := MaxCursor(root, true);
      return;
    }
    var node, path := c.node, c.path;
    if node.right.Nil? {
      ghost var i := Index(c);
      while path.RightOf?
        invariant Plug(node, path) == t && node.Node?
        invariant |Before(path)| + |Elements(node)| == i + 1
        decreases path
      {
        node, path := Climb(node, path), path.up;
      }
      if path == Top {
        r := MaxCursor(node, true);
      } else {
        node, path := Climb(node, path), path.up;
        r := Cursor(node, path, false);
        CursorElement(t, r);
      }
    } else {
      var up := RightOf(node.color, node.left, node.key, node.val, path);
      var m, q := Minimum(node.right);
      PlugExtend(m, q, up);
      ExtendElements(q, up);
      LeftSpineBefore(q);
      r := Cursor(m, Extend(q, up), false);
      CursorElement(t, r);
    }
  }

  /** `operator--`. On the sentinel nothing moves. Past-the-end lands on the
      maximum with the flag lowered. Without a left subtree, climb while coming
      from a left child: reaching the root that way means the node was the first,
      and the iterator then parks on the maximum with the flag raised (it wraps
      to past-the-end); otherwise stop at that parent. With a left subtree, go to
      its maximum. */
  method Prev<V>(ghost t: Tree<V>, c: Cursor<V>) returns (r: Cursor<V>)
    requires ValidIn(t, c)
    ensures ValidIn(t, r)
    ensures t.Nil? ==> r == c
    ensures t.Node? && c.atEnd ==> !r.atEnd && Index(r) == |Elements(t)| - 1
    ensures !c.atEnd && Index(c) == 0 ==> r.atEnd
    ensures !c.atEnd && Index(c) > 0 ==> !r.atEnd && Index(r) == Index(c) - 1
  {
    CursorElement(t, c);
    if c.node.Nil? {
      return c;
    }
    if c.atEnd {
      var root := ClimbToRoot(c.node, c.path);
      r := MaxCursor(root, false);
      return;
    }
    var node, path := c.node, c.path;
    if node.left.Nil? {
      ghost var i := Index(c);
      while path.LeftOf?
        invariant Plug(node, path) == t && node.Node?
        invariant |Before(path)| == i
        decreases path
      {
        node, path := Climb(node, path), path.up;
      }
      if path == Top {
        r := MaxCursor(node, true);
      } else {
        node, path := Climb(node, path), path.up;
        r := Cursor(node, path, false);
      }
    } else {
      var up := LeftOf(node.color, node.key, node.val, node.right, path);
      var m, q := Maximum(node.left);
      PlugExtend(m, q, up);
      ExtendElements(q, up);
      PlugElements(m, q);
      RightSpineAfter(q);
      r := Cursor(m, Extend(q, up), false);
      assert Elements(node.left) == Before(q) + Elements(m.left) + [(m.key, m.val)];
    }
  }

  /** `begin()`: an iterator on the minimum; past-the-end only for an empty tree. */
  method Begin<V>(t: Tree<V>) returns (r: Cursor<V>)
    ensures ValidIn(t, r) && Index(r) == 0
    ensures r.atEnd <==> t.Nil?
  {
    var m, q := Minimum(t);
    r := MakeCursor(m, q);
    if m.Node? {
      PlugElements(m, q);
      LeftSpineBefore(q);
    }
  }

  /** `end()`: one step forward from an iterator on the maximum. */
  method End<V>(t: Tree<V>) returns (r: Cursor<V>)
    ensures ValidIn(t, r) && r.atEnd && Index(r) == |Elements(t)|
  {
    var m, q := Maximum(t);
    var c := MakeCursor(m, q);
    if m.Node? {
      PlugElements(m, q);
      RightSpineAfter(q);
      assert Elements(t) == Before(q) + Elements(m.left) + [(m.key, m.val)];
    }
    r := Next(t, c);
  }

  /** The keys at and after a cursor: the part of a traversal still ahead. */
  ghost function KeysFrom<V>(t: Tree<V>, c: Cursor<V>): set<int> {
    if c.atEnd || c.node.Nil? then {} else set k | k in MapOf(Elements(t)) && k >= c.node.key
  }

  /** At the start of a walk every key is ahead. */
  lemma BeginKeysFrom<V>(t: Tree<V>, it: Cursor<V>)
    requires Ascending(Elements(t)) && ValidIn(t, it) && Index(it) == 0
    ensures KeysFrom(t, it) == MapOf(Elements(t)).Keys
  {
    if !it.atEnd {
      CursorElement(t, it);
      forall k | k in MapOf(Elements(t)) ensures k >= it.node.key {
        MapOfKeys(Elements(t), k);
        var j :| 0 <= j < |Elements(t)| && Elements(t)[j].0 == k;
        assert j == 0 || Elements(t)[0].0 < Elements(t)[j].0;
      }
    }
  }

  /** An element's key is ahead of a cursor exactly when the element is at or
      after the cursor's index. */
  lemma KeysFromIndex<V>(t: Tree<V>, c: Cursor<V>, j: int)
    requires Ascending(Elements(t)) && ValidIn(t, c) && 0 <= j < |Elements(t)|
    ensures Elements(t)[j].0 in KeysFrom(t, c) <==> !c.atEnd && j >= Index(c)
  {
    var s := Elements(t);
    CursorElement(t, c);
    MapOfAt(s, j);
    if !c.atEnd {
      assert s[Index(c)].0 == c.node.key;
      assert j < Index(c) ==> s[j].0 < s[Index(c)].0;
      assert j > Index(c) ==> s[Index(c)].0 < s[j].0;
    }
  }

  /** One step forward leaves behind exactly the key it stood on. */
  lemma NextKeysFrom<V>(t: Tree<V>, c: Cursor<V>, r: Cursor<V>)
    requires Ascending(Elements(t)) && ValidIn(t, c) && ValidIn(t, r) && !c.atEnd
    requires Index(r) == Index(c) + 1 && (r.atEnd <==> Index(r) == |Elements(t)|)
    ensures c.node.key in KeysFrom(t, c)
    ensures KeysFrom(t, r) == KeysFrom(t, c) - {c.node.key}
  {
    var s, i := Elements(t), Index(c);
    CursorElement(t, c);
    KeysFromIndex(t, c, i);
    forall k | k in KeysFrom(t, r) || k in KeysFrom(t, c)
      ensures k in KeysFrom(t, r) <==> k in KeysFrom(t, c) && k != c.node.key
    {
      MapOfKeys(s, k);
      var j :| 0 <= j < |s| && s[j].0 == k;
      KeysFromIndex(t, c, j);
      KeysFromIndex(t, r, j);
      assert j != i ==> s[j].0 != s[i].0;
    }
  }

  /** A cursor on the same key in a tree that lost only a smaller key sees the
      same keys ahead. */
  lemma KeysFromAfterLoss<V>(t: Tree<V>, c: Cursor<V>, t': Tree<V>, c': Cursor<V>, gone: int)
    requires MapOf(Elements(t')).Keys == MapOf(Elements(t)).Keys - {gone}
    requires c.atEnd == c'.atEnd && (!c.atEnd ==> c.node.Node? && c'.node.Node? && c'.node.key == c.node.key && gone < c.node.key)
    ensures KeysFrom(t', c') == KeysFrom(t, c)
  {
  }

  /** `operator==`: the same node with the same flag, or both past-the-end. */
  predicate Equal<V(==)>(a: Cursor<V>, b: Cursor<V>) {
    (a.node == b.node && a.path == b.path && a.atEnd == b.atEnd) || (a.atEnd == b.atEnd && a.atEnd)
  }

  /** Equal iterators of one tree stand for the same position, and any two
      past-the-end iterators are equal. */
  lemma EqualIndex<V>(t: Tree<V>, a: Cursor<V>, b: Cursor<V>)
    requires ValidIn(t, a) && ValidIn(t, b)
    ensures Equal(a, b) ==> Index(a) == Index(b) && a.atEnd == b.atEnd
    ensures a.atEnd && b.atEnd ==> Equal(a, b)
    ensures Equal(a, a)
  {
  }

  /** `operator!=` as written: only the `end` flags are compared. */
  predicate NotEqualAsWritten<V(==)>(a: Cursor<V>, b: Cursor<V>) {
    (!(a.node == b.node && a.path == b.path) && a.atEnd != b.atEnd) || a.atEnd != b.atEnd
  }

  /** `operator!=` as evidently intended: the negation of `operator==`. */
  predicate NotEqual<V(==)>(a: Cursor<V>, b: Cursor<V>) {
    !Equal(a, b)
  }

  /** The written inequality agrees with the intended one whenever one side is
      past-the-end, which is how loops `it != end()` use it; it never claims
      inequality wrongly. */
  lemma NotEqualAgreesAtEnd<V>(t: Tree<V>, a: Cursor<V>, b: Cursor<V>)
    requires ValidIn(t, a) && ValidIn(t, b)
    ensures NotEqualAsWritten(a, b) ==> NotEqual(a, b)
    ensures a.atEnd || b.atEnd ==> (NotEqualAsWritten(a, b) <==> NotEqual(a, b))
  {
  }

  /** Two iterators on the two different nodes of a two-node tree are neither
      equal nor, as written, unequal. */
  lemma NotEqualCounterexample()
    ensures var t := Node(Black, Nil, 1, 10, Node(Red, Nil, 2, 20, Nil));
            var a := Cursor(t, Top, false);
            var b := Cursor(t.right, RightOf(Black, Nil, 1, 10, Top), false);
            ValidIn(t, a) && ValidIn(t, b) && Index(a) == 0 && Index(b) == 1 &&
            !Equal(a, b) && !NotEqualAsWritten(a, b) && NotEqual(a, b)
  {
  }
}
