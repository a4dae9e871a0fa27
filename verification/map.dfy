/** `map`: a key-to-value dictionary over one red-black tree whose payloads are
    the mapped values. Its iterators are the tree's iterators. */
module MapContainer {
  import opened Outcome
  import opened RBTreeShape
  import opened RBTreeIterator
  import opened RedBlackTree

  /** No key occurs twice. */
  ghost predicate DistinctKeys<V>(items: seq<(int, V)>) {
    forall i, j :: 0 <= i < j < |items| ==> items[i].0 != items[j].0
  }

  /** The map after merging `other` into `m`: every key of either, with the value
      `m` has when it has the key. */
  ghost function Merged<V>(m: map<int, V>, other: map<int, V>): (r: map<int, V>)
    ensures r.Keys == m.Keys + other.Keys
  {
    map k | k in m.Keys + other.Keys :: if k in m then m[k] else other[k]
  }

  /** One more pair of the other map, whose key was not yet seen, taken in the
      way `merge` takes it: added unless this map already has the key. */
  lemma MergedStep<V>(m: map<int, V>, other: map<int, V>, k: int, v: V)
    requires k !in other
    ensures k in Merged(m, other) <==> k in m
    ensures Merged(m, other[k := v]) ==
            if k in Merged(m, other) then Merged(m, other) else Merged(m, other)[k := v]
  {
  }

  /** A prefix one pair longer denotes the map with that pair added. */
  lemma MapOfPrefix<V>(s: seq<(int, V)>, i: nat)
    requires i < |s|
    ensures MapOf(s[..i + 1]) == MapOf(s[..i])[s[i].0 := s[i].1]
  {
    assert s[..i + 1][..i] == s[..i];
  }

  /** In an ascending sequence, a key is not among the pairs before its own. */
  lemma AscendingFresh<V>(s: seq<(int, V)>, i: nat)
    requires Ascending(s) && i < |s|
    ensures s[i].0 !in MapOf(s[..i])
  {
    forall j | 0 <= j < i ensures s[..i][j].0 != s[i].0 {
      assert s[..i][j] == s[j];
    }
    MapOfAbsent(s[..i], s[i].0);
  }

  class Map<V(==)> {
    var tree: RBTree<V>

    ghost predicate Valid()
      reads this, tree
    {
      tree.Valid()
    }

    ghost function Contents(): map<int, V>
      reads this, tree
    {
      tree.Contents()
    }

    constructor()
      ensures Valid() && Contents() == map[] && fresh(tree)
    {
      tree := new RBTree();
    }

    /** `at(key)`: the mapped value; `out_of_range` for an absent key. */
    method At(key: int) returns (r: Result<V>)
      requires Valid()
      ensures key in Contents() ==> r == Ok(Contents()[key])
      ensures key !in Contents() ==> r == Fail(OutOfRange)
    {
      var p := tree.At(key);
      if p.None? {
        return Fail(OutOfRange);
      }
      r := Ok(p.value);
    }

    /** `operator[](key)`: an absent key is first inserted with the
        default-constructed value `zero`; the value mapped to the key is
        returned. */
    method Subscript(key: int, zero: V) returns (r: V)
      requires Valid()
      modifies tree
      ensures Valid()
      ensures key in old(Contents()) ==>
                Contents() == old(Contents()) && tree.size == old(tree.size) && r == old(Contents())[key]
      ensures key !in old(Contents()) ==>
                Contents() == old(Contents())[key := zero] && tree.size == old(tree.size) + 1 && r == zero
    {
      var p := tree.At(key);
      if p.None? {
        var _ := tree.Insert(key, zero);
      }
      var q := tree.At(key);
      r := q.value;
    }

    method Begin() returns (r: Cursor<V>)
      ensures ValidIn(tree.root, r) && Index(r) == 0
      ensures r.atEnd <==> tree.root.Nil?
    {
      r := tree.Begin();
    }

    method End() returns (r: Cursor<V>)
      ensures ValidIn(tree.root, r) && r.atEnd && Index(r) == |Elements(tree.root)|
    {
      r := tree.End();
    }

    /** `empty()` holds exactly when no key is mapped. */
    method Empty() returns (e: bool)
      requires Valid()
      ensures e <==> Contents() == map[]
    {
      e := tree.Empty();
    }

    /** `size()`: the number of mapped keys. */
    method Size() returns (n: nat)
      requires Valid()
      ensures n == |Contents()|
    {
      tree.SizeIsKeyCount();
      n := tree.size;
    }

    method Clear()
      modifies tree
      ensures Valid() && Contents() == map[]
    {
      tree.Clear();
    }

    /** `insert(value)` and `insert(key, obj)`: a new key is added and the
        iterator on it returned with `true`; an existing key leaves the map as it
        is and `end()` is returned with `false`. */
    method Insert(key: int, val: V) returns (it: Cursor<V>, inserted: bool)
      requires Valid()
      modifies tree
      ensures Valid() && ValidIn(tree.root, it)
      ensures inserted <==> key !in old(Contents())
      ensures inserted ==> Contents() == old(Contents())[key := val] && tree.size == old(tree.size) + 1 &&
                           !it.atEnd && it.node.key == key
      ensures !inserted ==> Contents() == old(Contents()) && tree.size == old(tree.size) && it.atEnd
    {
      var res := tree.Insert(key, val);
      if res.Ok? {
        return res.value, true;
      }
      it := tree.End();
      inserted := false;
    }

    /** `erase(pos)`: nothing for `end()` (the `!=` test compares only the end
        flags); otherwise the key under the iterator is deleted. */
    method Erase(pos: Cursor<V>)
      requires Valid() && ValidIn(tree.root, pos)
      modifies tree
      ensures Valid()
      ensures pos.atEnd ==> Contents() == old(Contents()) && tree.size == old(tree.size)
      ensures !pos.atEnd ==> pos.node.key in old(Contents()) &&
                             Contents() == old(Contents()) - {pos.node.key} && tree.size == old(tree.size) - 1
    {
      var stop := tree.End();
      if NotEqualAsWritten(pos, stop) {
        CursorElement(tree.root, pos);
        MapOfPresent(Elements(tree.root), Index(pos));
        tree.Delete(pos.node.key);
      }
    }

    /** `insert_or_assign(key, obj)`: an existing key is erased first, then the
        pair inserted; the result is always `true` with an iterator on the key. */
    method InsertOrAssign(key: int, val: V) returns (it: Cursor<V>, inserted: bool)
      requires Valid()
      modifies tree
      ensures Valid() && inserted
      ensures Contents() == old(Contents())[key := val]
      ensures tree.size == if key in old(Contents()) then old(tree.size) else old(tree.size) + 1
      ensures ValidIn(tree.root, it) && !it.atEnd && it.node.key == key && it.node.val == val
    {
      var smpl := tree.Find(key);
      var stop := tree.End();
      if NotEqualAsWritten(smpl, stop) {
        Erase(smpl);
      }
      var _ := tree.Insert(key, val);
      it := tree.Find(key);
      inserted := true;
    }

    /** `swap(other)`: the two maps exchange their trees. */
    method Swap(other: Map<V>)
      modifies this, other
      ensures tree == old(other.tree) && other.tree == old(tree)
    {
      var t := tree;
      tree := other.tree;
      other.tree := t;
    }

    /** `merge(other)`: every pair of `other` whose key is absent here is
        inserted; keys present here keep their values, and `other` loses
        nothing. Merging a map into itself does nothing. */
    method Merge(other: Map<V>)
      requires Valid() && other.Valid()
      modifies tree
      ensures Valid()
      ensures other.tree == tree || Contents() == Merged(old(Contents()), other.Contents())
      ensures other.tree == tree ==> Contents() == old(Contents())
      ensures other.tree.root == old(other.tree.root)
    {
      if tree == other.tree {
        return;
      }
      ghost var m0 := Contents();
      ghost var o := Elements(other.tree.root);
      var it := other.tree.Begin();
      var stop := other.tree.End();
      CursorElement(other.tree.root, it);
      while NotEqualAsWritten(it, stop)
        invariant Valid() && ValidIn(other.tree.root, it)
        invariant o == Elements(other.tree.root) && Index(it) <= |o|
        invariant Contents() == Merged(m0, MapOf(o[..Index(it)]))
        decreases |o| - Index(it)
      {
        CursorElement(other.tree.root, it);
        var key, val := it.node.key, it.node.val;
        MapOfPrefix(o, Index(it));
        AscendingFresh(o, Index(it));
        MergedStep(m0, MapOf(o[..Index(it)]), key, val);
        var _ := tree.Insert(key, val);
        it := Next(other.tree.root, it);
      }
      CursorElement(other.tree.root, it);
      assert o[..Index(it)] == o;
    }

    /** `contains(key)`: `find(key)` differs from `end()`. */
    method Contains(key: int) returns (b: bool)
      requires Valid()
      ensures b <==> key in Contents()
    {
      var f := tree.Find(key);
      var stop := tree.End();
      b := !Equal(f, stop);
    }
  }

  /** The initializer-list constructor: the pairs are inserted in order; a
      repeated key makes the tree's `logic_error` escape the constructor. */
  method FromList<V(==)>(items: seq<(int, V)>) returns (r: Result<Map<V>>)
    ensures r.Ok? <==> DistinctKeys(items)
    ensures r.Fail? ==> r.error == LogicError
    ensures r.Ok? ==> fresh(r.value) && fresh(r.value.tree) && r.value.Valid() && r.value.Contents() == MapOf(items)
  {
    var m := new Map();
    var i := 0;
    while i < |items|
      invariant 0 <= i <= |items|
      invariant fresh(m) && fresh(m.tree) && m.Valid()
      invariant DistinctKeys(items[..i])
      invariant m.Contents() == MapOf(items[..i])
    {
      var key := items[i].0;
      if key in m.Contents() {
        MapOfKeys(items[..i], key);
      }
      var res := m.tree.Insert(key, items[i].1);
      if res.Fail? {
        var j :| 0 <= j < i && items[..i][j].0 == key;
        assert items[j].0 == items[i].0;
        return Fail(LogicError);
      }
      MapOfPrefix(items, i);
      forall j | 0 <= j < i ensures items[j].0 != key {
        MapOfPresent(items[..i], j);
        assert items[..i][j] == items[j];
      }
      assert items[..i + 1][..i] == items[..i];
      i := i + 1;
    }
    assert items[..i] == items;
    r := Ok(m);
  }
}
