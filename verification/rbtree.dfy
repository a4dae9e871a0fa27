/** The red-black tree object: a root link, the tree's own black sentinel (the
    model's `Nil`) and a node counter. Every public operation keeps the tree
    red-black, its keys strictly ascending in order and the counter equal to the
    number of nodes. */
module RedBlackTree {
  import opened Outcome
  import opened RBTreeShape
  import opened RBTreeBalance
  import opened RBTreeSearch
  import opened RBTreeDeletion
  import opened RBTreeIterator

  /** `CopyTree`: a node-by-node copy with the same colours and pairs; a source
      sentinel becomes this tree's sentinel. */
  function CopyTree<V>(t: Tree<V>): (r: Tree<V>)
    ensures r == t
  {
    match t
    case Nil => Nil
    case Node(c, l, k, v, rt) => Node(c, CopyTree(l), k, v, CopyTree(rt))
  }

  /** Changing the payload of one node keeps the tree red-black and its keys in
      order, and changes exactly that pair of the in-order sequence. */
  lemma ReplacePayload<V>(t: Tree<V>, p: Path<V>, v: V)
    requires t.Node? && RedBlack(Plug(t, p)) && Ascending(Elements(Plug(t, p)))
    ensures RedBlack(Plug(t.(val := v), p))
    ensures var i := |Before(p)| + |Elements(t.left)|;
            i < |Elements(Plug(t, p))| && Elements(Plug(t, p))[i].0 == t.key &&
            Elements(Plug(t.(val := v), p)) == Elements(Plug(t, p))[i := (t.key, v)]
    ensures Ascending(Elements(Plug(t.(val := v), p)))
    ensures MapOf(Elements(Plug(t.(val := v), p))) == MapOf(Elements(Plug(t, p)))[t.key := v]
  {
    var t' := t.(val := v);
    UnplugFits(t, p);
    assert IsRB(t', BlackHeight(t));
    PlugFits(t', p, BlackHeight(t));
    var a, b := Before(p) + Elements(t.left), Elements(t.right) + After(p);
    PayloadElements(t, p, v);
    ReplacePair(a, t.key, t.val, v, b);
  }

  lemma PayloadElements<V>(t: Tree<V>, p: Path<V>, v: V)
    requires t.Node?
    ensures Elements(Plug(t, p)) == (Before(p) + Elements(t.left)) + [(t.key, t.val)] + (Elements(t.right) + After(p))
    ensures Elements(Plug(t.(val := v), p)) == (Before(p) + Elements(t.left)) + [(t.key, v)] + (Elements(t.right) + After(p))
  {
    NodeElements(t, p);
    NodeElements(t.(val := v), p);
  }

  lemma NodeElements<V>(t: Tree<V>, p: Path<V>)
    requires t.Node?
    ensures Elements(Plug(t, p)) == (Before(p) + Elements(t.left)) + [(t.key, t.val)] + (Elements(t.right) + After(p))
  {
    PlugElements(t, p);
    Regroup4(Before(p), Elements(t.left), [(t.key, t.val)], Elements(t.right), After(p));
  }

  /** The same, on the in-order sequence. */
  lemma ReplacePair<V>(a: seq<(int, V)>, k: int, v0: V, v: V, b: seq<(int, V)>)
    requires Ascending(a + [(k, v0)] + b)
    ensures |a| < |a + [(k, v0)] + b| && (a + [(k, v0)] + b)[|a|].0 == k
    ensures (a + [(k, v0)] + b)[|a| := (k, v)] == a + [(k, v)] + b
    ensures Ascending(a + [(k, v)] + b)
    ensures MapOf(a + [(k, v)] + b) == MapOf(a + [(k, v0)] + b)[k := v]
  {
    assert (a + [(k, v0)] + b)[|a| := (k, v)] == a + [(k, v)] + b;
    AscendingSplit(a, k, v0, b);
    AscendingJoin(a, k, v, b);
    MapOfAbove(b, k);
    MapOfNode(a, k, v0, b);
    MapOfNode(a, k, v, b);
  }

  class RBTree<V> {
    var root: Tree<V>
    var size: nat

    ghost predicate Valid()
      reads this
    {
      RedBlack(root) && Ascending(Elements(root)) && size == |Elements(root)|
    }

    /** The key-to-payload map the tree stands for. */
    ghost function Contents(): map<int, V>
      reads this
    {
      MapOf(Elements(root))
    }

    /** An empty tree: the root link is the black sentinel. */
    constructor()
      ensures Valid() && root == Nil && size == 0 && Contents() == map[]
    {
      root := Nil;
      size := 0;
    }

    /** The copy constructor: the same in-order pairs, colours and size. */
    constructor Copy(other: RBTree<V>)
      requires other.Valid()
      ensures Valid() && root == other.root && size == other.size
      ensures Contents() == other.Contents()
    {
      root := CopyTree(other.root);
      size := other.size;
    }

    /** The node count equals the number of keys the tree maps. */
    lemma SizeIsKeyCount()
      requires Valid()
      ensures size == |Contents()|
      ensures size == 0 <==> root.Nil?
    {
      MapOfSize(Elements(root));
      if root.Node? {
        assert |Elements(root)| >= 1;
      }
    }

    /** `Insert(key, value)`: an absent key is linked as a red leaf at the place
        the descent ends and the invariants are repaired; the counter grows by
        one and the returned iterator designates the new pair. A present key
        raises `logic_error` and nothing changes. */
    method Insert(key: int, val: V) returns (res: Result<Cursor<V>>)
      requires Valid()
      modifies this
      ensures Valid()
      ensures key in old(Contents()) ==> res == Fail(LogicError) && root == old(root) && size == old(size)
      ensures key !in old(Contents()) ==>
                res.Ok? && Contents() == old(Contents())[key := val] && size == old(size) + 1 &&
                ValidIn(root, res.value) && !res.value.atEnd &&
                res.value.node.key == key && res.value.node.val == val
      ensures key !in old(Contents()) ==>
                exists i :: 0 <= i <= |old(Elements(root))| &&
                            Elements(root) == old(Elements(root))[..i] + [(key, val)] + old(Elements(root))[i..]
    {
      var place := InsertNode(root, key);
      if place.KeyExists? {
        return Fail(LogicError);
      }
      var path := place.path;
      LinkAtHole(root, path, key, val, Red);
      UnplugFits(Nil, path);
      var leaf := Node(Red, Nil, key, val, Nil);
      root := FixInsert(leaf, path);
      size := size + 1;
      ghost var old_ := Elements(Plug(Nil, path));
      assert old_[..|Before(path)|] == Before(path) && old_[|Before(path)|..] == After(path);
      var node, p := FindNode(root, key);
      res := Ok(MakeCursor(node, p));
    }

    /** `Delete(key)` for a present key: the node is spliced out (directly when it
        has at most one child, otherwise replaced by its in-order successor),
        the repair runs when a black node left its place, and the counter drops
        by one. Every other key keeps its payload. */
    method Delete(key: int)
      requires Valid() && key in Contents()
      modifies this
      ensures Valid()
      ensures Contents() == old(Contents()) - {key}
      ensures size == old(size) - 1
      ensures exists i :: 0 <= i < |old(Elements(root))| && old(Elements(root))[i].0 == key &&
                          Elements(root) == old(Elements(root))[..i] + old(Elements(root))[i + 1..]
    {
      root := Remove(root, key);
      size := size - 1;
    }

    /** A write through a node pointer (`iterator->data.second = val`) on the
        node holding `key`: the links and colours stay, only that pair's
        payload changes. */
    method Assign(key: int, val: V)
      requires Valid() && key in Contents()
      modifies this
      ensures Valid() && size == old(size)
      ensures Contents() == old(Contents())[key := val]
      ensures exists i :: 0 <= i < |old(Elements(root))| && old(Elements(root))[i].0 == key &&
                          Elements(root) == old(Elements(root))[i := (key, val)]
    {
      var node, path := FindNode(root, key);
      ReplacePayload(node, path, val);
      root := Plug(node.(val := val), path);
    }

    /** `at(key)`: the payload of the key, or null when the key is absent. */
    method At(key: int) returns (r: Option<V>)
      requires Valid()
      ensures key in Contents() ==> r == Some(Contents()[key])
      ensures key !in Contents() ==> r == None
    {
      var node, path := FindNode(root, key);
      if node.Node? {
        r := Some(node.val);
      } else {
        r := None;
      }
    }

    /** `find(key)`: an iterator on the node holding the key, else `end()`. */
    method Find(key: int) returns (r: Cursor<V>)
      requires Valid()
      ensures ValidIn(root, r)
      ensures key in Contents() ==> !r.atEnd && r.node.key == key && r.node.val == Contents()[key]
      ensures key !in Contents() ==> r.atEnd && Index(r) == |Elements(root)|
    {
      var node, path := FindNode(root, key);
      if node.Node? {
        r := MakeCursor(node, path);
      } else {
        r := RBTreeIterator.End(root);
      }
    }

    /** `clear()`: the root link becomes the sentinel and the counter zero. */
    method Clear()
      modifies this
      ensures Valid() && root == Nil && size == 0 && Contents() == map[]
    {
      root := Nil;
      size := 0;
    }

    method Begin() returns (r: Cursor<V>)
      ensures ValidIn(root, r) && Index(r) == 0
      ensures r.atEnd <==> root.Nil?
    {
      r := RBTreeIterator.Begin(root);
    }

    method End() returns (r: Cursor<V>)
      ensures ValidIn(root, r) && r.atEnd && Index(r) == |Elements(root)|
    {
      r := RBTreeIterator.End(root);
    }

    /** `empty()`: the root link is the sentinel, that is, no key is mapped. */
    method Empty() returns (e: bool)
      requires Valid()
      ensures e <==> Contents() == map[]
      ensures e <==> size == 0
    {
      SizeIsKeyCount();
      e := root.Nil?;
    }
  }
}
