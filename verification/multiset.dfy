/** `multiset`: one red-black tree node per distinct key, whose payload is the
    number of occurrences of that key, and a counter of all occurrences. Its
    iterator walks every occurrence (see `MultisetCounts`). */
module MultisetContainer {
  import opened RBTreeShape
  import opened RBTreeIterator
  import opened RedBlackTree
  import opened MultisetCounts

  /** How many of `c` occurrences of a key the written `merge` leaves behind in
      the multiset it merges from. */
  function Left(c: nat): nat {
    if c == 0 then 0 else (c - 1) / 2
  }

  /** The counts after the written `merge`: of each key, `Left` of the other
      side's occurrences stay there and the rest moved here. */
  ghost predicate MergedAsWritten(s0: map<int, nat>, o0: map<int, nat>, s1: map<int, nat>, o1: map<int, nat>) {
    forall k :: Count(o1, k) == Left(Count(o0, k)) && Count(s1, k) + Count(o1, k) == Count(s0, k) + Count(o0, k)
  }

  /** The counts after merging as a multiset merge should: every occurrence of
      the other side moved here. */
  ghost predicate MergedAll(s0: map<int, nat>, o0: map<int, nat>, s1: map<int, nat>, o1: map<int, nat>) {
    forall k :: Count(o1, k) == 0 && Count(s1, k) == Count(s0, k) + Count(o0, k)
  }

  /** Three occurrences of one key in the other multiset: the written `merge`
      moves two and leaves one behind. */
  lemma MergeAsWrittenCounterexample(s1: map<int, nat>, o1: map<int, nat>)
    requires MergedAsWritten(map[], map[3 := 3], s1, o1)
    ensures Count(o1, 3) == 1 && Count(s1, 3) == 2
    ensures !MergedAll(map[], map[3 := 3], s1, o1)
  {
    assert Count(o1, 3) == Left(Count(map[3 := 3], 3));
    assert Count(s1, 3) + Count(o1, 3) == Count(map[], 3) + Count(map[3 := 3], 3);
  }

  /** The written `merge` is right exactly on inputs where no key occurs more
      than twice on the other side. */
  lemma MergeAsWrittenAgrees(s0: map<int, nat>, o0: map<int, nat>, s1: map<int, nat>, o1: map<int, nat>)
    requires MergedAsWritten(s0, o0, s1, o1)
    ensures MergedAll(s0, o0, s1, o1) <==> forall k :: Count(o0, k) <= 2
  {
    if forall k :: Count(o0, k) <= 2 {
      forall k ensures Count(o1, k) == 0 && Count(s1, k) == Count(s0, k) + Count(o0, k) {
        assert Count(o1, k) == Left(Count(o0, k));
      }
    }
    if MergedAll(s0, o0, s1, o1) {
      forall k ensures Count(o0, k) <= 2 {
        assert Count(o1, k) == 0 && Count(o1, k) == Left(Count(o0, k));
      }
    }
  }

  /** What the other side holds of key `k` while the written `merge` walks it
      with iterator `it`: keys behind the walk are reduced to `Left`, the key
      under it has lost one occurrence per index step, keys ahead are intact. */
  ghost function Expected(o0: map<int, nat>, it: MCursor, k: int): int {
    if it.base.atEnd || it.base.node.Nil? || k < it.base.node.key then Left(Count(o0, k))
    else if k == it.base.node.key then Count(o0, k) - it.index
    else Count(o0, k)
  }

  /** A step of the written `merge` that stays on its node: the index moves on
      and one more occurrence of that key has left. */
  lemma StayExpected(o0: map<int, nat>, before: map<int, nat>, after: map<int, nat>, it: MCursor, it': MCursor)
    requires !it.base.atEnd && it.base.node.Node? && !it'.base.atEnd && it'.base.node.Node?
    requires it'.base.node.key == it.base.node.key && it'.index == it.index + 1
    requires forall k :: Count(before, k) == Expected(o0, it, k)
    requires forall k :: Count(after, k) == Count(before, k) - (if k == it.base.node.key then 1 else 0)
    ensures forall k :: Count(after, k) == Expected(o0, it', k)
  {
    forall k ensures Count(after, k) == Expected(o0, it', k) {
      assert Count(before, k) == Expected(o0, it, k);
    }
  }

  /** A step of the written `merge` that leaves its node for the next key, or
      for the end: the key left behind keeps `Left` of its occurrences, and no
      key lies between the two nodes. */
  lemma MoveExpected(o0: map<int, nat>, before: map<int, nat>, after: map<int, nat>, it: MCursor, it': MCursor)
    requires !it.base.atEnd && it.base.node.Node? && it'.index == 0
    requires !it'.base.atEnd ==> it'.base.node.Node? && it'.base.node.key > it.base.node.key
    requires forall k :: k in before && k > it.base.node.key ==> !it'.base.atEnd && k >= it'.base.node.key
    requires forall k :: Count(before, k) == Expected(o0, it, k)
    requires forall k :: Count(after, k) == Count(before, k) - (if k == it.base.node.key then 1 else 0)
    requires 1 <= Count(before, it.base.node.key)
    requires 2 * it.index <= Count(o0, it.base.node.key) <= 2 * it.index + 1
    ensures forall k :: Count(after, k) == Expected(o0, it', k)
  {
    var key := it.base.node.key;
    forall k ensures Count(after, k) == Expected(o0, it', k) {
      assert Count(before, k) == Expected(o0, it, k);
      if k > key && (it'.base.atEnd || k < it'.base.node.key) {
        assert k !in before;
      }
    }
  }

  /** For counts `{5: 1}` the key 3 is absent, where the written bounds give
      `end()` with no key ahead, yet the key 5 lies above it and should be
      ahead of both bounds. */
  lemma BoundsAsWrittenCounterexample(counts: map<int, nat>)
    requires counts == map[5 := 1]
    ensures 3 !in counts
    ensures (set k | k in counts && k >= 3) == (set k | k in counts && k > 3) == {5} != {}
  {
    assert 5 in set k | k in counts && k >= 3;
    assert 5 in set k | k in counts && k > 3;
  }

  /** `next` is what `operator++` makes of `c` in tree `t`. */
  ghost predicate Stepped(t: Tree<nat>, c: MCursor, next: MCursor) {
    ValidIn(t, c.base) && ValidIn(t, next.base) && !c.base.atEnd && c.base.node.Node? &&
    (c.index + 1 < c.base.node.val ==> next == MCursor(c.base, c.index + 1)) &&
    (c.index + 1 >= c.base.node.val ==>
       next.index == 0 && Index(next.base) == Index(c.base) + 1 && (next.base.atEnd <==> Index(next.base) == |Elements(t)|))
  }

  class Multiset {
    var tree: RBTree<nat>
    var size: nat

    ghost predicate Valid()
      reads this, tree
    {
      tree.Valid() && Positive(Elements(tree.root)) && size == Total(Elements(tree.root))
    }

    /** The occurrence count of every stored key. */
    ghost function Counts(): map<int, nat>
      reads this, tree
    {
      tree.Contents()
    }

    constructor()
      ensures Valid() && Counts() == map[] && size == 0 && fresh(tree)
    {
      tree := new RBTree();
      size := 0;
    }

    /** The copy constructor: a copy of the tree and the same counter. */
    constructor Copy(other: Multiset)
      requires other.Valid()
      ensures Valid() && Counts() == other.Counts() && size == other.size && fresh(tree)
    {
      tree := new RBTree.Copy(other.tree);
      size := other.size;
    }

    /** The initializer-list constructor: every item is inserted, so the
        multiset holds each item as often as the list does. */
    constructor FromList(items: seq<int>)
      ensures Valid() && fresh(tree) && size == |items|
      ensures forall k :: Count(Counts(), k) == multiset(items)[k]
    {
      tree := new RBTree();
      size := 0;
      new;
      var i := 0;
      while i < |items|
        invariant 0 <= i <= |items|
        invariant fresh(tree) && Valid() && size == i
        invariant forall k :: Count(Counts(), k) == multiset(items[..i])[k]
      {
        ghost var m := Counts();
        var _, _ := Insert(items[i]);
        CountsAppend(m, Counts(), items[..i], items[i]);
        assert items[..i + 1] == items[..i] + [items[i]];
        i := i + 1;
      }
      assert items[..i] == items;
    }

    /** `begin()`: the first occurrence of the smallest key. */
    method Begin() returns (r: MCursor)
      requires Valid()
      ensures ValidIn(tree.root, r.base) && Index(r.base) == 0 && r.index == 0
      ensures r.base.atEnd <==> Counts() == map[]
      ensures Flat(tree.root, r) == 0
    {
      var b := tree.Begin();
      r := MCursor(b, 0);
      tree.SizeIsKeyCount();
      assert Elements(tree.root)[..0] == [];
    }

    /** `end()`: past the last occurrence. */
    method End() returns (r: MCursor)
      requires Valid()
      ensures ValidIn(tree.root, r.base) && r.base.atEnd && r.index == 0
      ensures Flat(tree.root, r) == size
    {
      var b := tree.End();
      r := MCursor(b, 0);
    }

    /** `empty()`: the tree has no node, that is, no occurrence is counted. */
    method Empty() returns (e: bool)
      requires Valid()
      ensures e <==> Counts() == map[]
      ensures e <==> size == 0
    {
      e := tree.Empty();
      tree.SizeIsKeyCount();
      TotalZero(Elements(tree.root));
    }

    /** `size()`: the occurrence counter, the sum of the stored counts. */
    method Size() returns (n: nat)
      requires Valid()
      ensures n == Total(Elements(tree.root))
      ensures n == 0 <==> Counts() == map[]
    {
      n := size;
      tree.SizeIsKeyCount();
      TotalZero(Elements(tree.root));
    }

    method Clear()
      modifies this, tree
      ensures Valid() && tree == old(tree) && Counts() == map[] && size == 0
    {
      tree.Clear();
      size := 0;
    }

    /** `insert(value)`: a present key has its count raised through the node,
        an absent one is inserted with count one; the counter grows by one,
        the result is always `true` and the iterator is on the key with its
        index equal to the new count. */
    method Insert(value: int) returns (place: MCursor, inserted: bool)
      requires Valid()
      modifies this, tree
      ensures Valid() && tree == old(tree) && inserted
      ensures forall k :: Count(Counts(), k) == Count(old(Counts()), k) + (if k == value then 1 else 0)
      ensures size == old(size) + 1
      ensures ValidIn(tree.root, place.base) && !place.base.atEnd && place.base.node.key == value
      ensures place.index == Count(Counts(), value)
    {
      ghost var e, m := Elements(tree.root), Counts();
      var iter := tree.Find(value);
      var stop := tree.End();
      if NotEqualAsWritten(iter, stop) {
        var count := iter.node.val + 1;
        tree.Assign(value, count);
        ghost var i :| 0 <= i < |e| && e[i].0 == value && Elements(tree.root) == e[i := (value, count)];
        MapOfAt<nat>(e, i);
        UpdateKeepsCounts(e, Elements(tree.root), i, count);
        CountsRaised(m, value, count);
        iter := tree.Find(value);
      } else {
        var res := tree.Insert(value, 1);
        ghost var i :| 0 <= i <= |e| && Elements(tree.root) == e[..i] + [(value, 1)] + e[i..];
        InsertKeepsCounts(e, Elements(tree.root), i, (value, 1));
        CountsAdded(m, value);
        iter := res.value;
      }
      place := MCursor(iter, iter.node.val);
      size := size + 1;
      inserted := true;
    }

    /** `erase(pos)`: nothing for `end()` (the `!=` test compares only the end
        flags); otherwise one occurrence of the key under the iterator goes,
        whatever its index: the count drops, and the node is deleted when it
        was the last one. */
    method Erase(pos: MCursor)
      requires Valid() && ValidIn(tree.root, pos.base)
      modifies this, tree
      ensures Valid() && tree == old(tree)
      ensures pos.base.atEnd ==> Counts() == old(Counts()) && size == old(size)
      ensures !pos.base.atEnd ==>
                Count(old(Counts()), pos.base.node.key) >= 1 && size == old(size) - 1 &&
                forall k :: Count(Counts(), k) == Count(old(Counts()), k) - (if k == pos.base.node.key then 1 else 0)
    {
      var stop := End();
      if MNotEqualAsWritten(pos, stop) {
        CursorElement(tree.root, pos.base);
        MapOfAt<nat>(Elements(tree.root), Index(pos.base));
        Drop(pos.base.node.key, pos.base.node.val);
      }
    }

    /** The removal of one occurrence of a stored key whose count is `val`:
        the count drops by one, and the node is deleted when it held the last
        occurrence. */
    method Drop(key: int, val: nat)
      requires Valid() && key in Counts() && Counts()[key] == val
      modifies this, tree
      ensures Valid() && tree == old(tree) && val >= 1 && size == old(size) - 1
      ensures forall k :: Count(Counts(), k) == Count(old(Counts()), k) - (if k == key then 1 else 0)
    {
      ghost var e, m := Elements(tree.root), Counts();
      PositiveCounts(e, key);
      if val > 1 {
        var count := val - 1;
        tree.Assign(key, count);
        ghost var i :| 0 <= i < |e| && e[i].0 == key && Elements(tree.root) == e[i := (key, count)];
        MapOfAt<nat>(e, i);
        UpdateKeepsCounts(e, Elements(tree.root), i, count);
        CountsLowered(m, key, count);
      } else {
        tree.Delete(key);
        ghost var i :| 0 <= i < |e| && e[i].0 == key && Elements(tree.root) == e[..i] + e[i + 1..];
        MapOfAt<nat>(e, i);
        RemoveKeepsCounts(e, Elements(tree.root), i);
        CountsDropped(m, key);
      }
      size := size - 1;
    }

    /** `swap(other)`: the trees and the counters are exchanged. */
    method Swap(other: Multiset)
      modifies this, other
      ensures tree == old(other.tree) && size == old(other.size)
      ensures other.tree == old(tree) && other.size == old(size)
    {
      var t, n := tree, size;
      tree, size := other.tree, other.size;
      other.tree, other.size := t, n;
    }

    /** `count(key)`: the stored count, zero for an absent key. */
    method CountOf(key: int) returns (n: nat)
      requires Valid()
      ensures n == Count(Counts(), key)
    {
      var p := tree.At(key);
      if p.Some? {
        n := p.value;
      } else {
        n := 0;
      }
    }

    /** `contains(key)`: the key occurs at least once. */
    method Contains(key: int) returns (b: bool)
      requires Valid()
      ensures b <==> Count(Counts(), key) > 0
    {
      var p := tree.At(key);
      b := p.Some?;
      if b {
        PositiveCounts(Elements(tree.root), key);
      }
    }

    /** `find(key)`: the first occurrence of the key, else `end()`. */
    method Find(key: int) returns (r: MCursor)
      requires Valid()
      ensures ValidIn(tree.root, r.base) && r.index == 0
      ensures key in Counts() ==> !r.base.atEnd && r.base.node.key == key
      ensures key !in Counts() ==> r.base.atEnd
    {
      var b := tree.Find(key);
      r := MCursor(b, 0);
    }

    /** `lower_bound(key)` as written: `find(key)`, stepped back unless it
        equals `begin()` or `end()`. With `!=` comparing only end flags the step
        is never taken: a present key gives its first occurrence, from which
        exactly the keys not below it are ahead, and an absent key gives
        `end()`, even when larger keys are stored. */
    method LowerBoundAsWritten(key: int) returns (r: MCursor)
      requires Valid()
      ensures ValidIn(tree.root, r.base) && r.index == 0
      ensures key in Counts() ==> !r.base.atEnd && r.base.node.key == key
      ensures key in Counts() ==> KeysFrom(tree.root, r.base) == set k | k in Counts() && k >= key
      ensures key !in Counts() ==> r.base.atEnd && KeysFrom(tree.root, r.base) == {}
    {
      var iter := Find(key);
      var first := Begin();
      var stop := End();
      if MNotEqualAsWritten(iter, first) && MNotEqualAsWritten(iter, stop) {
        assert false;
      }
      r := iter;
    }

    /** `upper_bound(key)` as written: for a present key the tree iterator
        under `find(key)` steps to the next node, so exactly the keys above
        `key` are ahead; an absent key gives `end()`, even when larger keys are
        stored. */
    method UpperBoundAsWritten(key: int) returns (r: MCursor)
      requires Valid()
      ensures ValidIn(tree.root, r.base) && r.index == 0
      ensures key in Counts() ==> KeysFrom(tree.root, r.base) == set k | k in Counts() && k > key
      ensures key !in Counts() ==> r.base.atEnd && KeysFrom(tree.root, r.base) == {}
    {
      var iter := Find(key);
      var stop := End();
      if MNotEqualAsWritten(iter, stop) {
        CursorElement(tree.root, iter.base);
        var b := Next(tree.root, iter.base);
        NextKeysFrom(tree.root, iter.base, b);
        iter := MCursor(b, iter.index);
      }
      r := iter;
    }

    /** `lower_bound(key)` as a multiset's should behave: the first occurrence
        of the smallest key not below `key`, found by walking from `begin()`;
        exactly the keys not below `key` are ahead of it, and it is `end()`
        only when there is no such key. */
    method LowerBound(key: int) returns (r: MCursor)
      requires Valid()
      ensures ValidIn(tree.root, r.base) && r.index == 0
      ensures KeysFrom(tree.root, r.base) == set k | k in Counts() && k >= key
      ensures key in Counts() ==> !r.base.atEnd && r.base.node.key == key
    {
      r := FirstFrom(key, false);
      if key in Counts() {
        assert key in KeysFrom(tree.root, r.base);
      }
    }

    /** `upper_bound(key)` as a multiset's should behave: exactly the keys
        above `key` are ahead of the result, which is `end()` only when there
        is no such key. */
    method UpperBound(key: int) returns (r: MCursor)
      requires Valid()
      ensures ValidIn(tree.root, r.base) && r.index == 0
      ensures KeysFrom(tree.root, r.base) == set k | k in Counts() && k > key
    {
      r := FirstFrom(key, true);
    }

    /** The walk behind both bounds: from `begin()`, node by node, past every
        key below `key` (and past `key` itself when `strict`). */
    method FirstFrom(key: int, strict: bool) returns (r: MCursor)
      requires Valid()
      ensures ValidIn(tree.root, r.base) && r.index == 0
      ensures KeysFrom(tree.root, r.base) == set k | k in Counts() && (if strict then k > key else k >= key)
      ensures !r.base.atEnd ==> r.base.node.Node? && (if strict then r.base.node.key > key else r.base.node.key >= key)
    {
      var t := tree.root;
      var c := RBTreeIterator.Begin(t);
      BeginKeysFrom(t, c);
      while !c.atEnd && (if strict then c.node.key <= key else c.node.key < key)
        invariant ValidIn(t, c)
        invariant forall k :: k in Counts() && (if strict then k > key else k >= key) ==> k in KeysFrom(t, c)
        decreases |KeysFrom(t, c)|
      {
        CursorElement(t, c);
        var b := Next(t, c);
        NextKeysFrom(t, c, b);
        c := b;
      }
      r := MCursor(c, 0);
    }

    /** `equal_range(key)`: the pair of `lower_bound` and `upper_bound`. */
    method EqualRange(key: int) returns (lo: MCursor, hi: MCursor)
      requires Valid()
      ensures ValidIn(tree.root, lo.base) && ValidIn(tree.root, hi.base)
      ensures key in Counts() ==> !lo.base.atEnd && lo.base.node.key == key
      ensures KeysFrom(tree.root, lo.base) - KeysFrom(tree.root, hi.base) == if key in Counts() then {key} else {}
    {
      lo := LowerBound(key);
      hi := UpperBound(key);
    }

    /** `merge(other)` as it should behave: every occurrence of `other` is moved
        here, one at a time from its first, until `other` is empty. Merging a
        multiset into itself does nothing. */
    method Merge(other: Multiset)
      requires Valid() && other.Valid()
      modifies this, tree, other, other.tree
      ensures tree == old(tree) && other.tree == old(other.tree) && Valid() && other.Valid()
      ensures other.tree != tree ==> MergedAll(old(Counts()), old(other.Counts()), Counts(), other.Counts())
      ensures other.tree != tree ==> size == old(size) + old(other.size) && other.size == 0
      ensures other.tree == tree ==> Counts() == old(Counts()) && size == old(size)
    {
      if tree == other.tree {
        return;
      }
      ghost var s0, o0 := Counts(), other.Counts();
      ghost var n0 := size + other.size;
      var done := other.Empty();
      while !done
        invariant tree == old(tree) && other.tree == old(other.tree) && Valid() && other.Valid()
        invariant done <==> other.Counts() == map[]
        invariant done <==> other.size == 0
        invariant size + other.size == n0
        invariant forall k :: Count(Counts(), k) + Count(other.Counts(), k) == Count(s0, k) + Count(o0, k)
        decreases other.size
      {
        var first := other.Begin();
        var _, _ := Insert(first.base.node.key);
        other.Erase(first);
        done := other.Empty();
      }
    }

    /** `merge(other)` as written: walk `other` with its iterator, and for each
        occurrence passed (`prev = iter++`) insert its key here and erase
        `prev` from `other`. Erasing lowers the count of the node the iterator
        is still on while the iterator's index keeps growing, so only about
        half of each key's occurrences are reached: `Left(c)` of `c` stay. */
    method MergeAsWritten(other: Multiset)
      requires Valid() && other.Valid()
      modifies this, tree, other, other.tree
      ensures tree == old(tree) && other.tree == old(other.tree) && Valid() && other.Valid()
      ensures other.tree != tree ==> MergedAsWritten(old(Counts()), old(other.Counts()), Counts(), other.Counts())
      ensures other.tree == tree ==> Counts() == old(Counts()) && size == old(size)
    {
      if tree == other.tree {
        return;
      }
      ghost var s0, o0 := Counts(), other.Counts();
      var it := other.Begin();
      var stop := other.End();
      BeginKeysFrom(other.tree.root, it.base);
      forall k ensures Count(o0, k) == Expected(o0, it, k) {
        if k in o0 && !it.base.atEnd {
          assert k in KeysFrom(other.tree.root, it.base);
        }
      }
      while MNotEqualAsWritten(it, stop)
        invariant MergingAsWritten(other, it, s0, o0) && stop.base.atEnd
        invariant tree == old(tree) && other.tree == old(other.tree)
        decreases other.size
      {
        it := MergeStepAsWritten(other, it, s0, o0);
        stop := other.End();
      }
      forall k ensures Count(other.Counts(), k) == Left(Count(o0, k)) {
        assert Count(other.Counts(), k) == Expected(o0, it, k);
      }
    }

    /** The state of the written `merge` before each step: no occurrence is
        lost, and `other` holds what `Expected` says for the iterator. */
    ghost predicate MergingAsWritten(other: Multiset, it: MCursor, s0: map<int, nat>, o0: map<int, nat>)
      reads this, tree, other, other.tree
    {
      tree != other.tree && Valid() && other.Valid() && ValidIn(other.tree.root, it.base) &&
      (forall k :: Count(Counts(), k) + Count(other.Counts(), k) == Count(s0, k) + Count(o0, k)) &&
      (forall k :: Count(other.Counts(), k) == Expected(o0, it, k)) &&
      (!it.base.atEnd ==> 2 * it.index <= Count(o0, it.base.node.key))
    }

    /** One step of the written `merge`: `prev = iter++`, `insert(*prev)`,
        `other.erase(prev)`; the iterator then designates the same node, now
        holding a smaller count, or the next node. */
    method MergeStepAsWritten(other: Multiset, it: MCursor, ghost s0: map<int, nat>, ghost o0: map<int, nat>)
      returns (it': MCursor)
      requires MergingAsWritten(other, it, s0, o0) && !it.base.atEnd
      modifies this, tree, other, other.tree
      ensures tree == old(tree) && other.tree == old(other.tree)
      ensures MergingAsWritten(other, it', s0, o0)
      ensures other.size < old(other.size)
    {
      var prev := it;
      var next := MNext(other.tree.root, it);
      var _, inserted := Insert(prev.base.node.key);
      it' := next;
      if inserted {
        it' := other.EraseBehind(prev, next, o0);
      }
    }

    /** The erasing half of a step of the written `merge`, on the multiset
        merged from: `erase(prev)`, after which the advanced iterator `next`
        designates its node again. */
    method EraseBehind(prev: MCursor, next: MCursor, ghost o0: map<int, nat>) returns (r: MCursor)
      requires Valid() && Stepped(tree.root, prev, next)
      requires forall k :: Count(Counts(), k) == Expected(o0, prev, k)
      requires 2 * prev.index <= Count(o0, prev.base.node.key)
      modifies this, tree
      ensures Valid() && tree == old(tree) && size < old(size)
      ensures forall k :: Count(Counts(), k) == Count(old(Counts()), k) - (if k == prev.base.node.key then 1 else 0)
      ensures ValidIn(tree.root, r.base)
      ensures forall k :: Count(Counts(), k) == Expected(o0, r, k)
      ensures !r.base.atEnd ==> 2 * r.index <= Count(o0, r.base.node.key)
    {
      ghost var t := tree.root;
      ghost var before := Counts();
      var key := prev.base.node.key;
      CursorElement(t, prev.base);
      MapOfAt<nat>(Elements(t), Index(prev.base));
      assert Count(before, key) == Expected(o0, prev, key) == Count(o0, key) - prev.index;
      Erase(prev);
      if prev.index + 1 < prev.base.node.val {
        StayExpected(o0, before, Counts(), prev, next);
      } else {
        CursorElement(t, next.base);
        if !next.base.atEnd {
          MapOfAt<nat>(Elements(t), Index(next.base));
        }
        NextKeysFrom(t, prev.base, next.base);
        forall k | k in before && k > key ensures !next.base.atEnd && k >= next.base.node.key {
          assert k in KeysFrom(t, prev.base);
          assert k in KeysFrom(t, next.base);
        }
        if !next.base.atEnd {
          assert next.base.node.key > key;
          assert Count(before, next.base.node.key) >= 1;
        }
        MoveExpected(o0, before, Counts(), prev, next);
      }
      r := Reseat(next);
    }

    /** A cursor kept across a change of counts or the loss of another key: the
        node it designates is found again by its key, with the same index. */
    method Reseat(c: MCursor) returns (r: MCursor)
      requires Valid() && (!c.base.atEnd ==> c.base.node.Node? && c.base.node.key in Counts())
      ensures ValidIn(tree.root, r.base) && r.index == c.index && r.base.atEnd == c.base.atEnd
      ensures !r.base.atEnd ==> r.base.node.Node? && r.base.node.key == c.base.node.key
    {
      var b := tree.End();
      if !c.base.atEnd {
        b := tree.Find(c.base.node.key);
      }
      r := MCursor(b, c.index);
    }
  }
}
