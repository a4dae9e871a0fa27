/** The descent loops of the red-black tree engine: `FindNode`, `InsertNode`,
    `Minimum` and `Maximum`. A descent keeps the parent chain it has walked. */
module RBTreeSearch {
  import opened RBTreeShape

  /** Outcome of `InsertNode`: the place where the new node is linked, or the
      `logic_error` raised when the key is already there. */
  datatype Placement<V> = Hole(path: Path<V>) | KeyExists

  /** Keys strictly ordered around a position whose hole is searched for `key`. */
  ghost predicate Brackets<V>(p: Path<V>, key: int) {
    AllBelow(Before(p), key) && AllAbove(After(p), key)
  }

  /** With every key before the hole below `key` and every key after it above,
      `key` is in the tree exactly when it is in the subtree at the hole. */
  lemma BracketsMap<V>(t: Tree<V>, p: Path<V>, key: int)
    requires Brackets(p, key)
    ensures key in MapOf(Elements(Plug(t, p))) <==> key in MapOf(Elements(t))
    ensures key in MapOf(Elements(t)) ==> MapOf(Elements(Plug(t, p)))[key] == MapOf(Elements(t))[key]
  {
    PlugElements(t, p);
    MapOfConcat(Before(p) + Elements(t), After(p));
    MapOfConcat(Before(p), Elements(t));
    MapOfBelow(Before(p), key);
    MapOfAbove(After(p), key);
  }

  /** Stepping down from a node towards `key` keeps the brackets. */
  lemma BracketsStep<V>(t: Tree<V>, p: Path<V>, key: int)
    requires t.Node? && Brackets(p, key) && Ascending(Elements(Plug(t, p)))
    ensures key < t.key ==> Brackets(LeftOf(t.color, t.key, t.val, t.right, p), key)
    ensures t.key < key ==> Brackets(RightOf(t.color, t.left, t.key, t.val, p), key)
  {
    PlugElements(t, p);
    AscendingMiddle(Before(p), Elements(t), After(p));
    AscendingTree(t);
    if key < t.key {
      AboveJoin([(t.key, t.val)] + Elements(t.right), After(p), key);
    }
    if t.key < key {
      BelowJoin(Before(p), Elements(t.left) + [(t.key, t.val)], key);
    }
  }

  lemma AboveJoin<V>(a: seq<(int, V)>, b: seq<(int, V)>, key: int)
    requires AllAbove(a, key) && AllAbove(b, key)
    ensures AllAbove(a + b, key)
  {
    forall i | 0 <= i < |a + b| ensures key < (a + b)[i].0 {
      if i < |a| { assert (a + b)[i] == a[i]; } else { assert (a + b)[i] == b[i - |a|]; }
    }
  }

  lemma BelowJoin<V>(a: seq<(int, V)>, b: seq<(int, V)>, key: int)
    requires AllBelow(a, key) && AllBelow(b, key)
    ensures AllBelow(a + b, key)
  {
    forall i | 0 <= i < |a + b| ensures (a + b)[i].0 < key {
      if i < |a| { assert (a + b)[i] == a[i]; } else { assert (a + b)[i] == b[i - |a|]; }
    }
  }

  /** `FindNode(key)`: descend from the root, left when the key is smaller, right
      when it is greater; stop on the key or on the sentinel. */
  method FindNode<V>(root: Tree<V>, key: int) returns (node: Tree<V>, path: Path<V>)
    requires Ascending(Elements(root))
    ensures Plug(node, path) == root
    ensures node.Nil? <==> key !in MapOf(Elements(root))
    ensures node.Node? ==> node.key == key && MapOf(Elements(root))[key] == node.val
    ensures node.Nil? ==> Brackets(path, key)
  {
    node, path := root, Top;
    while node.Node? && node.key != key
      invariant Plug(node, path) == root
      invariant Brackets(path, key)
      decreases node
    {
      BracketsStep(node, path, key);
      if key < node.key {
        node, path := node.left, LeftOf(node.color, node.key, node.val, node.right, path);
      } else {
        node, path := node.right, RightOf(node.color, node.left, node.key, node.val, path);
      }
    }
    BracketsMap(node, path, key);
    if node.Node? {
      PlugElements(node, path);
      AscendingMiddle(Before(path), Elements(node), After(path));
      AscendingTree(node);
      MapOfAbove(Elements(node.right), key);
      MapOfNode(Elements(node.left), key, node.val, Elements(node.right));
    }
  }

  /** `InsertNode(key, value)`: descend as `FindNode` does; on meeting the key
      raise `logic_error` before any link is touched, otherwise report the empty
      link (left or right of the last node visited, or the root link of an
      empty tree) where the new node goes. */
  method InsertNode<V>(root: Tree<V>, key: int) returns (res: Placement<V>)
    requires Ascending(Elements(root))
    ensures res.KeyExists? <==> key in MapOf(Elements(root))
    ensures res.Hole? ==> Plug(Nil, res.path) == root && Brackets(res.path, key)
  {
    var node, path := FindNode(root, key);
    if node.Nil? {
      res := Hole(path);
    } else {
      res := KeyExists;
    }
  }

  /** Linking a new node at a bracketed hole inserts its pair in key order: the
      contents stay ascending and the map gains exactly that key. */
  lemma LinkAtHole<V>(root: Tree<V>, p: Path<V>, key: int, val: V, c: Color)
    requires Plug(Nil, p) == root && Brackets(p, key) && Ascending(Elements(root))
    ensures Elements(Plug(Node(c, Nil, key, val, Nil), p)) == Before(p) + [(key, val)] + After(p)
    ensures Elements(root) == Before(p) + After(p)
    ensures Ascending(Elements(Plug(Node(c, Nil, key, val, Nil), p)))
    ensures MapOf(Elements(Plug(Node(c, Nil, key, val, Nil), p))) == MapOf(Elements(root))[key := val]
  {
    var t := Node(c, Nil, key, val, Nil);
    var b, a := Before(p), After(p);
    PlugElements(t, p);
    PlugElements(Nil, p);
    assert Elements(t) == [(key, val)];
    assert Elements(root) == b + a;
    AscendingHalves(b, a);
    AscendingJoin(b, key, val, a);
    MapOfAbove(a, key);
    MapOfNode(b, key, val, a);
  }

  /** `Minimum(node)`: follow left links to the end. Also returns the chain of
      left links walked inside `t`. */
  method Minimum<V>(t: Tree<V>) returns (m: Tree<V>, q: Path<V>)
    ensures Plug(m, q) == t && LeftSpine(q)
    ensures t.Nil? ==> m.Nil? && q == Top
    ensures t.Node? ==> m.Node? && m.left.Nil? && Elements(t)[0] == (m.key, m.val)
  {
    m, q := t, Top;
    if m.Nil? {
      return;
    }
    while m.left.Node?
      invariant m.Node? && Plug(m, q) == t && LeftSpine(q)
      decreases m
    {
      m, q := m.left, LeftOf(m.color, m.key, m.val, m.right, q);
    }
    PlugElements(m, q);
    LeftSpineBefore(q);
  }

  /** `Maximum(node)`: follow right links to the end. */
  method Maximum<V>(t: Tree<V>) returns (m: Tree<V>, q: Path<V>)
    ensures Plug(m, q) == t && RightSpine(q)
    ensures t.Nil? ==> m.Nil? && q == Top
    ensures t.Node? ==> m.Node? && m.right.Nil? && Elements(t)[|Elements(t)| - 1] == (m.key, m.val)
  {
    m, q := t, Top;
    if m.Nil? {
      return;
    }
    while m.right.Node?
      invariant m.Node? && Plug(m, q) == t && RightSpine(q)
      decreases m
    {
      m, q := m.right, RightOf(m.color, m.left, m.key, m.val, q);
    }
    PlugElements(m, q);
    RightSpineAfter(q);
  }
}
