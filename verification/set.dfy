/** `set`: a set of keys over one red-black tree whose payloads are all `true`.
    Its iterators are the tree's iterators. */
module SetContainer {
  import opened Outcome
  import opened RBTreeShape
  import opened RBTreeIterator
  import opened RedBlackTree

  /** No item occurs twice. */
  ghost predicate Distinct(items: seq<int>) {
    forall i, j :: 0 <= i < j < |items| ==> items[i] != items[j]
  }

  /** The key sets during `merge`: the keys of the other set still ahead of
      the walk are untouched, those behind it are here, and those behind it
      stayed in the other set exactly when this set had them at the start
      (`s0` and `o0` are the two sets' keys at the start). */
  ghost predicate MergeSets(keys: set<int>, others: set<int>, ahead: set<int>, s0: set<int>, o0: set<int>) {
    ahead <= o0 && keys == s0 + (o0 - ahead) && others == ahead + ((o0 - ahead) * s0)
  }

  /** The bookkeeping of one `merge` step on the key sets: `value` is the next
      key ahead; it is inserted here, and deleted from the other set when the
      insertion succeeded. */
  lemma MergeKeysStep(s0: set<int>, o0: set<int>, ahead: set<int>, value: int,
                      keys: set<int>, others: set<int>, inserted: bool,
                      keys': set<int>, others': set<int>, ahead': set<int>)
    requires value in ahead && MergeSets(keys, others, ahead, s0, o0)
    requires inserted <==> value !in keys
    requires keys' == keys + {value} && ahead' == ahead - {value}
    requires others' == if inserted then others - {value} else others
    ensures MergeSets(keys', others', ahead', s0, o0)
  {
  }

  /** At the start of `merge` every key of the other set is ahead. */
  lemma MergeSetsStart(s0: set<int>, o0: set<int>)
    ensures MergeSets(s0, o0, o0, s0, o0)
  {
    assert s0 + (o0 - o0) == s0 && o0 + ((o0 - o0) * s0) == o0;
  }

  /** At the end of `merge` this set holds the union and the other set the
      keys that were in both. */
  lemma MergeSetsEnd(keys: set<int>, others: set<int>, s0: set<int>, o0: set<int>)
    requires MergeSets(keys, others, {}, s0, o0)
    ensures keys == s0 + o0 && others == o0 * s0
  {
    assert s0 + (o0 - {}) == s0 + o0 && {} + ((o0 - {}) * s0) == o0 * s0;
  }

  /** Dropping a member makes a set one smaller. */
  lemma DropOne(s: set<int>, x: int)
    requires x in s
    ensures |s - {x}| == |s| - 1
  {
    assert s == (s - {x}) + {x};
  }

  class Set {
    var tree: RBTree<bool>

    ghost predicate Valid()
      reads this, tree
    {
      tree.Valid()
    }

    ghost function Keys(): set<int>
      reads this, tree
    {
      tree.Contents().Keys
    }

    constructor()
      ensures Valid() && Keys() == {} && fresh(tree)
    {
      tree := new RBTree();
    }

    method Begin() returns (r: Cursor<bool>)
      ensures ValidIn(tree.root, r) && Index(r) == 0
      ensures r.atEnd <==> tree.root.Nil?
    {
      r := tree.Begin();
    }

    method End() returns (r: Cursor<bool>)
      ensures ValidIn(tree.root, r) && r.atEnd && Index(r) == |Elements(tree.root)|
    {
      r := tree.End();
    }

    /** `empty()`: the root link is the sentinel, that is, the set has no key. */
    method Empty() returns (e: bool)
      requires Valid()
      ensures e <==> Keys() == {}
      ensures e <==> tree.root.Nil?
    {
      e := tree.Empty();
      tree.SizeIsKeyCount();
    }

    /** `size()`: the tree's node counter, which is the number of keys. */
    method Size() returns (n: nat)
      requires Valid()
      ensures n == |Keys()| && n == tree.size
    {
      tree.SizeIsKeyCount();
      n := tree.size;
    }

    method Clear()
      modifies tree
      ensures Valid() && Keys() == {}
    {
      tree.Clear();
    }

    /** `insert(value)`: a new key is added and the iterator on it returned with
        `true`; a present key leaves the set as it is and `end()` is returned
        with `false`. */
    method Insert(value: int) returns (it: Cursor<bool>, inserted: bool)
      requires Valid()
      modifies tree
      ensures Valid() && ValidIn(tree.root, it)
      ensures inserted <==> value !in old(Keys())
      ensures Keys() == old(Keys()) + {value}
      ensures tree.size == if inserted then old(tree.size) + 1 else old(tree.size)
      ensures inserted ==> !it.atEnd && it.node.key == value
      ensures !inserted ==> it.atEnd
    {
      var res := tree.Insert(value, true);
      if res.Ok? {
        return res.value, true;
      }
      it := tree.End();
      inserted := false;
    }

    /** `erase(pos)`: nothing for `end()` (the `!=` test compares only the end
        flags); otherwise exactly the key under the iterator is removed. */
    method Erase(pos: Cursor<bool>)
      requires Valid() && ValidIn(tree.root, pos)
      modifies tree
      ensures Valid()
      ensures pos.atEnd ==> Keys() == old(Keys())
      ensures !pos.atEnd ==> pos.node.key in old(Keys()) && Keys() == old(Keys()) - {pos.node.key}
    {
      var stop := tree.End();
      if NotEqualAsWritten(pos, stop) {
        CursorElement(tree.root, pos);
        MapOfPresent(Elements(tree.root), Index(pos));
        tree.Delete(pos.node.key);
      }
    }

    /** `swap(other)`: the two sets exchange their trees. */
    method Swap(other: Set)
      modifies this, other
      ensures tree == old(other.tree) && other.tree == old(tree)
    {
      var t := tree;
      tree := other.tree;
      other.tree := t;
    }

    /** `merge(other)`: walk `other` in order; each key that this set lacks is
        inserted here and deleted from `other`, while keys present in both stay
        in `other`. The walk goes on from the next node, which the deletion
        leaves in place. Merging a set into itself does nothing. */
    method Merge(other: Set)
      requires Valid() && other.Valid()
      modifies tree, other.tree
      ensures Valid() && other.Valid()
      ensures other.tree != tree ==> Keys() == old(Keys()) + old(other.Keys())
      ensures other.tree != tree ==> other.Keys() == old(other.Keys()) * old(Keys())
      ensures other.tree == tree ==> Keys() == old(Keys())
    {
      if tree == other.tree {
        return;
      }
      ghost var s0, o0 := Keys(), other.Keys();
      var it := other.Begin();
      var stop := other.End();
      BeginKeysFrom(other.tree.root, it);
      MergeSetsStart(s0, o0);
      while NotEqualAsWritten(it, stop)
        invariant Merging(other, it, s0, o0)
        decreases |KeysFrom(other.tree.root, it)|
      {
        it := MergeStep(other, it, s0, o0);
      }
      assert it.atEnd && KeysFrom(other.tree.root, it) == {};
      MergeSetsEnd(Keys(), other.Keys(), s0, o0);
    }

    /** The state of `merge` before each step: the keys of `other` still ahead
        of the walk are untouched, those behind it are here, and those behind
        it stayed in `other` exactly when this set had them at the start. */
    ghost predicate Merging(other: Set, it: Cursor<bool>, s0: set<int>, o0: set<int>)
      reads this, tree, other, other.tree
    {
      tree != other.tree && Valid() && other.Valid() && ValidIn(other.tree.root, it) &&
      MergeSets(Keys(), other.Keys(), KeysFrom(other.tree.root, it), s0, o0)
    }

    /** One step of `merge`: `value = *iter++`, then insert here and, when that
        succeeded, delete from `other`. */
    method MergeStep(other: Set, it: Cursor<bool>, ghost s0: set<int>, ghost o0: set<int>) returns (it': Cursor<bool>)
      requires Merging(other, it, s0, o0) && !it.atEnd
      modifies tree, other.tree
      ensures Merging(other, it', s0, o0)
      ensures |KeysFrom(other.tree.root, it')| < |KeysFrom(old(other.tree.root), it)|
    {
      ghost var ahead := KeysFrom(other.tree.root, it);
      ghost var keys, others := Keys(), other.Keys();
      var value := it.node.key;
      var next := Next(other.tree.root, it);
      NextKeysFrom(other.tree.root, it, next);
      var _, inserted := Insert(value);
      if inserted {
        it' := other.DeleteBefore(value, next);
      } else {
        it' := next;
      }
      assert Keys() == keys + {value};
      assert other.Keys() == if inserted then others - {value} else others;
      assert KeysFrom(other.tree.root, it') == ahead - {value};
      MergeKeysStep(s0, o0, ahead, value, keys, others, inserted, Keys(), other.Keys(), KeysFrom(other.tree.root, it'));
      DropOne(ahead, value);
    }

    /** Deleting a key that a cursor has already passed: the cursor is found
        again on the same node, and the keys ahead of it are the same. */
    method DeleteBefore(value: int, next: Cursor<bool>) returns (it: Cursor<bool>)
      requires Valid() && ValidIn(tree.root, next) && value in Keys()
      requires !next.atEnd ==> value < next.node.key
      modifies tree
      ensures Valid() && ValidIn(tree.root, it)
      ensures Keys() == old(Keys()) - {value}
      ensures KeysFrom(tree.root, it) == KeysFrom(old(tree.root), next)
    {
      ghost var before := tree.root;
      if !next.atEnd {
        CursorElement(before, next);
        MapOfPresent(Elements(before), Index(next));
      }
      tree.Delete(value);
      if next.atEnd {
        it := tree.End();
      } else {
        it := tree.Find(next.node.key);
      }
      KeysFromAfterLoss(before, next, tree.root, it, value);
    }

    /** `find(key)`: an iterator on the key, else `end()`. */
    method Find(key: int) returns (r: Cursor<bool>)
      requires Valid()
      ensures ValidIn(tree.root, r)
      ensures key in Keys() ==> !r.atEnd && r.node.key == key
      ensures key !in Keys() ==> r.atEnd
    {
      r := tree.Find(key);
    }

    /** `contains(key)`: the tree's `at(key)` is not null. */
    method Contains(key: int) returns (b: bool)
      requires Valid()
      ensures b <==> key in Keys()
    {
      var p := tree.At(key);
      b := p.Some?;
    }
  }

  /** The initializer-list constructor: the items are inserted in order with
      the tree's unguarded `Insert`, so a repeated item lets `logic_error`
      escape the constructor. */
  method FromList(items: seq<int>) returns (r: Result<Set>)
    ensures r.Ok? <==> Distinct(items)
    ensures r.Fail? ==> r.error == LogicError
    ensures r.Ok? ==> fresh(r.value) && fresh(r.value.tree) && r.value.Valid() &&
                      r.value.Keys() == set i | 0 <= i < |items| :: items[i]
  {
    var s := new Set();
    var i := 0;
    while i < |items|
      invariant 0 <= i <= |items|
      invariant fresh(s) && fresh(s.tree) && s.Valid()
      invariant Distinct(items[..i])
      invariant s.Keys() == set j | 0 <= j < i :: items[j]
    {
      var res := s.tree.Insert(items[i], true);
      if res.Fail? {
        var j :| 0 <= j < i && items[j] == items[i];
        return Fail(LogicError);
      }
      i := i + 1;
    }
    r := Ok(s);
  }
}
