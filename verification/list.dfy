/** `List`: a singly linked list of `int` with links to its front and back
    node and a size counter. The nodes are modelled by the sequence of their
    values from the front; an iterator is the position of its node, with
    `end()` (the null node) at position `|elems|`. The back link is modelled
    by whether it is stale: pointing at a node that is no longer this list's
    last one, which the written `pop_front` and move assignment leave behind
    for an empty list. The front link is null exactly when `elems` is empty,
    and emptiness is decided by it alone. */
module ListContainer {
  import opened SequenceSpec
  import opened ListSpec

  /** The carried element of a bubble pass that has reached the final
      elements is a value from in front of them, so it is not above the first
      of them. */
  lemma CarriedBelowFinal(e: seq<int>, before: seq<int>, k: nat, i: nat)
    requires |e| == |before| && 1 <= k <= |e| && i < |e| - k
    requires multiset(e) == multiset(before) && Final(before, k)
    requires forall m :: |e| - k <= m < |e| ==> e[m] == before[m]
    ensures e[i] <= before[|e| - k]
  {
    var f := |e| - k;
    var x := e[i];
    assert e == e[..f] + e[f..];
    assert before == before[..f] + before[f..];
    assert e[f..] == before[f..];
    assert multiset(e) == multiset(e[..f]) + multiset(e[f..]);
    assert multiset(before) == multiset(before[..f]) + multiset(before[f..]);
    assert multiset(e)[x] == multiset(before)[x];
    assert (multiset(e[..f]) + multiset(e[f..]))[x] == multiset(e[..f])[x] + multiset(e[f..])[x];
    assert (multiset(before[..f]) + multiset(before[f..]))[x] == multiset(before[..f])[x] + multiset(before[f..])[x];
    assert multiset(e[..f])[x] == multiset(before[..f])[x];
    assert x == e[..f][i];
    assert x in multiset(before[..f]);
    var m :| 0 <= m < f && before[..f][m] == x;
    assert before[m] == x;
  }

  /** The state of a bubble pass whose carried element is at `c`: it is the
      largest so far, nothing after it has been touched, the final elements
      stay put, and with no swap yet the pass has found only ordered
      neighbours. */
  ghost predicate Passing(e: seq<int>, before: seq<int>, k: nat, c: nat, swapped: bool) {
    var n := |e|;
    n == |before| && k <= n && c < n && Final(before, k) &&
    multiset(e) == multiset(before) &&
    (forall i :: 0 <= i < c ==> e[i] <= e[c]) &&
    (forall i :: c < i < n ==> e[i] == before[i]) &&
    (c >= n - k ==> forall i :: n - k <= i < n ==> e[i] == before[i]) &&
    (1 <= k < n && c >= n - k ==> forall i :: 0 <= i < n - k ==> e[i] <= e[n - k - 1]) &&
    (1 <= k < n && c >= n - k ==> e[n - k - 1] <= e[n - k]) &&
    (!swapped ==> e == before && NeighboursSorted(before[..c + 1])) &&
    (Sorted(before) ==> !swapped)
  }

  /** A pass starts with the carried element at the front, nothing swapped. */
  lemma PassStart(e: seq<int>, k: nat)
    requires |e| >= 1 && k <= |e| && Final(e, k)
    ensures Passing(e, e, k, 0, false)
  {
    assert e[..1] == [e[0]];
  }

  /** One comparison of `sort()`'s pass that finds the pair out of order:
      swapping it keeps the pass state, with the larger value carried right. */
  lemma PassSwap(e: seq<int>, before: seq<int>, k: nat, c: nat, swapped: bool)
    requires Passing(e, before, k, c, swapped) && c + 1 < |e| && e[c] > e[c + 1]
    ensures Passing(e[c := e[c + 1]][c + 1 := e[c]], before, k, c + 1, true)
  {
    var n := |e|;
    var e' := e[c := e[c + 1]][c + 1 := e[c]];
    SwapPermutes(e, c);
    if 1 <= k && c == n - k - 1 {
      CarriedBelowFinal(e, before, k, c);
    }
    assert c + 1 < n - k;
    forall i | 0 <= i < c + 1 ensures e'[i] <= e'[c + 1] {
      if i < c {
        assert e'[i] == e[i];
      }
    }
    if !swapped {
      assert before[c] > before[c + 1];
    }
    assert !Sorted(before);
    assert multiset(e') == multiset(before);
    assert forall i :: c + 1 < i < n ==> e'[i] == before[i];
    assert |e'| == n;
  }

  /** Swapping two neighbours keeps the values. */
  lemma SwapPermutes(e: seq<int>, c: nat)
    requires c + 1 < |e|
    ensures multiset(e[c := e[c + 1]][c + 1 := e[c]]) == multiset(e)
  {
    assert e == e[..c] + [e[c], e[c + 1]] + e[c + 2..];
    assert e[c := e[c + 1]][c + 1 := e[c]] == e[..c] + [e[c + 1], e[c]] + e[c + 2..];
  }

  /** One comparison of `sort()`'s pass that finds the pair in order: the
      pass state moves on without a change. */
  lemma PassKeep(e: seq<int>, before: seq<int>, k: nat, c: nat, swapped: bool)
    requires Passing(e, before, k, c, swapped) && c + 1 < |e| && e[c] <= e[c + 1]
    ensures Passing(e, before, k, c + 1, swapped)
  {
    if !swapped {
      assert before[..c + 2][..c + 1] == before[..c + 1];
    }
  }

  /** The rest of a bubble pass from position `c`: each out-of-order
      neighbour pair is swapped as the pass moves right. The result is the
      values after the pass and whether it swapped anything. */
  function PassFrom(e: seq<int>, c: nat): (r: (seq<int>, bool))
    requires c < |e|
    ensures |r.0| == |e|
    decreases |e| - c
  {
    if c + 1 == |e| then (e, false)
    else if e[c] > e[c + 1] then (PassFrom(e[c := e[c + 1]][c + 1 := e[c]], c + 1).0, true)
    else PassFrom(e, c + 1)
  }

  /** What a whole pass achieves: `after` is a permutation of `before` with
      one more final value, and the pass swapped exactly when `before` was
      unsorted, leaving it as it was otherwise. */
  ghost predicate PassResult(after: seq<int>, before: seq<int>, k: nat, swapped: bool) {
    |after| == |before| && multiset(after) == multiset(before) &&
    Final(after, if k < |before| then k + 1 else k) &&
    (swapped <==> !Sorted(before)) &&
    (!swapped ==> after == before)
  }

  /** What the rest of a pass achieves from any state of the pass: the
      values are a permutation of the values before the pass, one more of
      them is final, and the pass swapped exactly when they were unsorted. */
  lemma {:induction false} PassOutcome(e: seq<int>, before: seq<int>, k: nat, c: nat, swapped: bool)
    requires c < |e| && Passing(e, before, k, c, swapped)
    ensures PassResult(PassFrom(e, c).0, before, k, swapped || PassFrom(e, c).1)
    decreases |e| - c, 1
  {
    if c + 1 == |e| {
      PassDone(e, before, k, swapped);
      assert PassFrom(e, c) == (e, false);
    } else if e[c] > e[c + 1] {
      PassOutcomeSwap(e, before, k, c, swapped);
    } else {
      PassOutcomeKeep(e, before, k, c, swapped);
    }
  }

  /** The rest of a pass that starts by swapping an out-of-order pair. */
  lemma {:induction false} PassOutcomeSwap(e: seq<int>, before: seq<int>, k: nat, c: nat, swapped: bool)
    requires c + 1 < |e| && Passing(e, before, k, c, swapped) && e[c] > e[c + 1]
    ensures PassResult(PassFrom(e, c).0, before, k, swapped || PassFrom(e, c).1)
    decreases |e| - c, 0
  {
    var e' := e[c := e[c + 1]][c + 1 := e[c]];
    PassSwap(e, before, k, c, swapped);
    PassOutcome(e', before, k, c + 1, true);
    assert PassFrom(e, c) == (PassFrom(e', c + 1).0, true);
  }

  /** The rest of a pass that starts by passing over an ordered pair. */
  lemma {:induction false} PassOutcomeKeep(e: seq<int>, before: seq<int>, k: nat, c: nat, swapped: bool)
    requires c + 1 < |e| && Passing(e, before, k, c, swapped) && e[c] <= e[c + 1]
    ensures PassResult(PassFrom(e, c).0, before, k, swapped || PassFrom(e, c).1)
    decreases |e| - c, 0
  {
    PassKeep(e, before, k, c, swapped);
    PassOutcome(e, before, k, c + 1, swapped);
    assert PassFrom(e, c) == PassFrom(e, c + 1);
  }

  /** The state of `merge()`'s loops: the values pushed onto the new list so
      far, followed by the merge of what is left of both lists, make up the
      whole merge. */
  ghost predicate MergeState(a: seq<int>, b: seq<int>, i: nat, j: nat, merged: seq<int>) {
    i <= |a| && j <= |b| && merged + Merged(a[i..], b[j..]) == Merged(a, b)
  }

  /** One step of `merge()` that pushes this list's next value. */
  lemma TakeLeft(a: seq<int>, b: seq<int>, i: nat, j: nat, merged: seq<int>)
    requires MergeState(a, b, i, j, merged) && i < |a| && (j == |b| || a[i] < b[j])
    ensures MergeState(a, b, i + 1, j, merged + [a[i]])
  {
    MergedUnfold(a, b, i, j);
  }

  /** One step of `merge()` that pushes the other list's next value. */
  lemma TakeRight(a: seq<int>, b: seq<int>, i: nat, j: nat, merged: seq<int>)
    requires MergeState(a, b, i, j, merged) && j < |b| && (i == |a| || a[i] >= b[j])
    ensures MergeState(a, b, i, j + 1, merged + [b[j]])
  {
    MergedUnfold(a, b, i, j);
  }

  /** The loops of `merge()`: while both lists have values the smaller head
      is pushed onto the new list (this list's on a strict `<`), then what is
      left of either list. */
  method MergeValues(a: seq<int>, b: seq<int>) returns (merged: seq<int>)
    ensures merged == Merged(a, b)
  {
    merged := [];
    var i, j := 0, 0;
    while i < |a| && j < |b|
      invariant i <= |a| && j <= |b|
      invariant MergeState(a, b, i, j, merged)
    {
      if a[i] < b[j] {
        TakeLeft(a, b, i, j, merged);
        merged := merged + [a[i]];
        i := i + 1;
      } else {
        TakeRight(a, b, i, j, merged);
        merged := merged + [b[j]];
        j := j + 1;
      }
    }
    while i < |a|
      invariant i <= |a| && j <= |b| && (i == |a| || j == |b|)
      invariant MergeState(a, b, i, j, merged)
    {
      TakeLeft(a, b, i, j, merged);
      merged := merged + [a[i]];
      i := i + 1;
    }
    while j < |b|
      invariant j <= |b| && i == |a|
      invariant MergeState(a, b, i, j, merged)
    {
      TakeRight(a, b, i, j, merged);
      merged := merged + [b[j]];
      j := j + 1;
    }
    assert a[i..] == [] && b[j..] == [];
  }

  /** At the end of the pass one more element is final, and the pass swapped
      something exactly when the list was not sorted. */
  lemma PassDone(e: seq<int>, before: seq<int>, k: nat, swapped: bool)
    requires |e| >= 1 && Passing(e, before, k, |e| - 1, swapped)
    ensures PassResult(e, before, k, swapped)
  {
    if !swapped {
      assert before[..|e|] == before;
      NeighboursSortedIsSorted(before);
    }
  }

  class List {
    var elems: seq<int>
    var size: nat
    var backStale: bool

    /** The size counter is the node count, and only an empty list can have a
        stale back link. */
    ghost predicate Valid()
      reads this
    {
      size == |elems| && (backStale ==> elems == [])
    }

    /** The back link is null for an empty list and on the last node
        otherwise. */
    ghost predicate Linked()
      reads this
    {
      !backStale
    }

    constructor()
      ensures Valid() && Linked() && elems == []
    {
      elems := [];
      size := 0;
      backStale := false;
    }

    /** `List(n)`: `n` default values appended one by one. */
    constructor Sized(n: nat)
      ensures Valid() && Linked() && elems == seq(n, _ => 0)
    {
      elems := [];
      size := 0;
      backStale := false;
      new;
      for i := 0 to n
        invariant Valid() && Linked() && elems == seq(i, _ => 0)
      {
        PushBack(0);
      }
    }

    /** The initializer-list constructor: the items appended in order. */
    constructor FromList(items: seq<int>)
      ensures Valid() && Linked() && elems == items
    {
      elems := [];
      size := 0;
      backStale := false;
      new;
      for i := 0 to |items|
        invariant Valid() && Linked() && elems == items[..i]
      {
        PushBack(items[i]);
      }
      assert items[..|items|] == items;
    }

    /** The copy constructor: the other list's values appended in order. */
    constructor Copy(other: List)
      requires other.Valid()
      ensures Valid() && Linked() && elems == other.elems
    {
      elems := [];
      size := 0;
      backStale := false;
      new;
      var source := 0;
      while source < |other.elems|
        invariant source <= |other.elems|
        invariant Valid() && Linked() && elems == other.elems[..source]
      {
        PushBack(other.elems[source]);
        source := source + 1;
      }
      assert other.elems[..source] == other.elems;
    }

    /** The move constructor: the nodes and both links are taken over and the
        other list is left empty with both links null. */
    constructor Move(other: List)
      requires other.Valid()
      modifies other
      ensures Valid() && elems == old(other.elems) && backStale == old(other.backStale)
      ensures other.Valid() && other.Linked() && other.elems == []
    {
      elems := other.elems;
      size := other.size;
      backStale := other.backStale;
      new;
      other.elems := [];
      other.size := 0;
      other.backStale := false;
    }

    /** Move assignment as written: the other list's front link is nulled
        twice and its back link never, so a non-empty source keeps a back link
        into the nodes this list now owns. */
    method MoveAssignAsWritten(other: List)
      requires Valid() && other.Valid()
      modifies this, other
      ensures other == this ==> elems == old(elems) && backStale == old(backStale)
      ensures other != this ==> elems == old(other.elems) && backStale == old(other.backStale) && other.elems == []
      ensures other != this ==> (other.backStale <==> old(other.backStale) || old(other.elems) != [])
      ensures Valid() && other.Valid()
    {
      if this != other {
        Clear();
        elems := other.elems;
        size := other.size;
        backStale := other.backStale;
        other.backStale := other.backStale || other.elems != [];
        other.elems := [];
        other.size := 0;
      }
    }

    /** Move assignment with both links of the other list nulled. */
    method MoveAssign(other: List)
      requires Valid() && other.Valid()
      modifies this, other
      ensures other == this ==> elems == old(elems) && backStale == old(backStale)
      ensures other != this ==> elems == old(other.elems) && backStale == old(other.backStale) &&
                                other.elems == [] && other.Linked()
      ensures Valid() && other.Valid()
    {
      if this != other {
        Clear();
        elems := other.elems;
        size := other.size;
        backStale := other.backStale;
        other.elems := [];
        other.size := 0;
        other.backStale := false;
      }
    }

    /** `front()`: the first value, or the default value for an empty list. */
    method Front() returns (r: int)
      requires Valid()
      ensures elems != [] ==> r == elems[0]
      ensures elems == [] ==> r == 0
    {
      if elems != [] {
        r := elems[0];
      } else {
        r := 0;
      }
    }

    /** `back()`: the last value, or the default value when the back link is
        null. An empty list whose back link was not nulled (by the written
        `pop_front` or move assignment) is excluded: the node that link still
        reaches is not modelled. */
    method Back() returns (r: int)
      requires Valid() && Linked()
      ensures elems != [] ==> r == elems[|elems| - 1]
      ensures elems == [] ==> r == 0
    {
      if elems != [] {
        r := elems[|elems| - 1];
      } else {
        r := 0;
      }
    }

    method Empty() returns (e: bool)
      requires Valid()
      ensures e <==> elems == []
    {
      e := elems == [];
    }

    method Size() returns (n: nat)
      requires Valid()
      ensures n == |elems|
    {
      n := size;
    }

    /** `clear()`: no nodes, both links null. */
    method Clear()
      modifies this
      ensures Valid() && Linked() && elems == []
    {
      elems := [];
      size := 0;
      backStale := false;
    }

    /** `push_back(value)`: a new last node; on an empty list it becomes the
        front as well, which also replaces a stale back link. */
    method PushBack(value: int)
      requires Valid()
      modifies this
      ensures Valid() && Linked() && elems == old(elems) + [value]
    {
      elems := elems + [value];
      size := size + 1;
      backStale := false;
    }

    /** `push_front(value)`: a new first node; on an empty list it becomes the
        back as well. */
    method PushFront(value: int)
      requires Valid()
      modifies this
      ensures Valid() && Linked() && elems == [value] + old(elems)
    {
      elems := [value] + elems;
      size := size + 1;
      backStale := false;
    }

    /** `pop_back()`: nothing on an empty list; a single node is dropped with
        both links nulled; otherwise the walk from the front finds the node
        before the last, which becomes the back. */
    method PopBack()
      requires Valid()
      modifies this
      ensures Valid() && backStale == old(backStale)
      ensures old(elems) == [] ==> elems == []
      ensures old(elems) != [] ==> elems == old(elems)[..|old(elems)| - 1]
    {
      if elems != [] {
        if |elems| == 1 {
          elems := [];
        } else {
          // The walk keeps `previous` on the node just before `current`; it
          // stops on the last node, so the new back is a real node.
          var current, previous := 0, -1;
          while current + 1 < |elems|
            invariant 0 <= current < |elems| && previous == current - 1
          {
            previous, current := current, current + 1;
          }
          assert 0 <= previous && current == |elems| - 1;
          elems := elems[..previous + 1];
        }
        size := size - 1;
      }
    }

    /** `pop_front()` as written: the front link moves on, and when that
        empties the list the back link is left on the deleted node. */
    method PopFrontAsWritten()
      requires Valid()
      modifies this
      ensures Valid()
      ensures old(elems) == [] ==> elems == [] && backStale == old(backStale)
      ensures old(elems) != [] ==> elems == old(elems)[1..]
      ensures |old(elems)| == 1 ==> !Linked()
      ensures |old(elems)| > 1 ==> backStale == old(backStale)
    {
      if elems != [] {
        if |elems| == 1 {
          backStale := true;
        }
        elems := elems[1..];
        size := size - 1;
      }
    }

    /** `pop_front()` with the back link nulled when the list becomes empty. */
    method PopFront()
      requires Valid()
      modifies this
      ensures Valid()
      ensures old(elems) == [] ==> elems == [] && backStale == old(backStale)
      ensures old(elems) != [] ==> elems == old(elems)[1..] && Linked()
    {
      if elems != [] {
        elems := elems[1..];
        size := size - 1;
        backStale := false;
      }
    }

    /** `insert(pos, value)`: at `end()` a `push_back`, at `begin()` a
        `push_front`, otherwise a new node linked after the node before `pos`,
        found by walking from the front. The iterator to the new node is
        returned. */
    method Insert(pos: nat, value: int) returns (it: nat)
      requires Valid() && pos <= |elems|
      modifies this
      ensures Valid() && Linked()
      ensures elems == Inserted(old(elems), pos, value) && it == pos
    {
      if pos == |elems| {
        PushBack(value);
        it := |elems| - 1;
      } else if pos == 0 {
        PushFront(value);
        it := 0;
      } else {
        // Node `i` links to node `i + 1`. The walk stops on the node that
        // links to `pos`, and no link it follows is null.
        var prev := 0;
        while prev + 1 != pos
          invariant 0 <= prev < pos && prev + 1 < |elems|
          decreases pos - prev
        {
          prev := prev + 1;
        }
        assert prev == pos - 1;
        elems := elems[..prev + 1] + [value] + elems[prev + 1..];
        size := size + 1;
        it := prev + 1;
      }
    }

    /** `erase(pos)`: nothing at `end()`; at `begin()` the written
        `pop_front`, so erasing the only node leaves the back link on it;
        otherwise the node before `pos` is found by walking from the front and
        linked past it, and becomes the back when `pos` was the last node. */
    method Erase(pos: nat)
      requires Valid() && pos <= |elems|
      modifies this
      ensures Valid()
      ensures pos == |old(elems)| ==> elems == old(elems) && backStale == old(backStale)
      ensures pos < |old(elems)| ==> elems == Erased(old(elems), pos)
      ensures pos < |old(elems)| ==> (Linked() <==> !(pos == 0 && |old(elems)| == 1))
    {
      if pos == |elems| {
        return;
      } else if pos == 0 {
        PopFrontAsWritten();
      } else {
        // As in `Insert`, the walk stops on the node that links to `pos`.
        var prev := 0;
        while prev + 1 != pos
          invariant 0 <= prev < pos && prev + 1 < |elems|
          decreases pos - prev
        {
          prev := prev + 1;
        }
        assert prev == pos - 1;
        elems := elems[..prev + 1] + elems[prev + 2..];
        size := size - 1;
      }
    }

    /** `swap(other)`: the two lists exchange both links and the size. */
    method Swap(other: List)
      modifies this, other
      ensures elems == old(other.elems) && size == old(other.size) && backStale == old(other.backStale)
      ensures other.elems == old(elems) && other.size == old(size) && other.backStale == old(backStale)
    {
      elems, other.elems := other.elems, elems;
      size, other.size := other.size, size;
      backStale, other.backStale := other.backStale, backStale;
    }

    /** `merge(other)`: a new list takes the smaller head of the two (this
        list's on a strict `<`, the other's otherwise), then the rest of each,
        and is swapped in. The other list is left as it is; merging a list
        into itself does nothing. */
    method Merge(other: List)
      requires Valid() && other.Valid()
      modifies this
      ensures Valid()
      ensures other == this ==> elems == old(elems) && backStale == old(backStale)
      ensures other != this ==> elems == Merged(old(elems), other.elems) && Linked()
    {
      if this == other {
        return;
      }
      var merged := MergeValues(elems, other.elems);
      elems := merged;
      size := |merged|;
      backStale := false;
    }

    /** `splice(pos, other)`: the other list's values are inserted one by one
        before `pos`, in order, and the other list is cleared. Nothing happens
        when the other list is empty or is this list, or when `pos` is
        `end()`, because the two lists' `end()` iterators are equal. */
    method Splice(pos: nat, other: List)
      requires Valid() && other.Valid() && pos <= |elems|
      modifies this, other
      ensures Valid() && other.Valid()
      ensures other == this || old(other.elems) == [] || pos == |old(elems)| ==>
                elems == old(elems) && backStale == old(backStale) &&
                other.elems == old(other.elems) && other.backStale == old(other.backStale)
      ensures other != this && old(other.elems) != [] && pos < |old(elems)| ==>
                elems == Spliced(old(elems), pos, old(other.elems)) && Linked() &&
                other.elems == [] && other.Linked()
    {
      if this == other || other.elems == [] || pos == |elems| {
        return;
      }
      ghost var before := elems;
      var source := other.elems;
      var i := 0;
      while i < |source|
        invariant i <= |source| && pos <= |before|
        invariant Valid() && Linked() && elems == Spliced(before, pos, source[..i])
        invariant other.elems == source && other.Valid()
      {
        SplicedStep(before, pos, source[..i], source[i]);
        assert source[..i + 1] == source[..i] + [source[i]];
        var _ := Insert(pos + i, source[i]);
        i := i + 1;
      }
      assert source[..i] == source;
      other.Clear();
    }

    /** `reverse()`: lists of fewer than two nodes stay as they are; otherwise
        every link is turned round while walking from the front, the old
        front becomes the back and the old back the front. */
    method Reverse()
      requires Valid()
      modifies this
      ensures Valid() && elems == Reversed(old(elems))
      ensures |old(elems)| <= 1 ==> backStale == old(backStale)
      ensures |old(elems)| > 1 ==> Linked()
    {
      if elems == [] || size == 1 {
        assert elems == [] || elems == [elems[0]];
        return;
      }
      var prev := [];
      var current := 0;
      while current < |elems|
        invariant current <= |elems|
        invariant prev == Reversed(elems[..current])
      {
        assert elems[..current + 1][..current] == elems[..current];
        prev := [elems[current]] + prev;
        current := current + 1;
      }
      assert elems[..current] == elems;
      ReversedTwice(elems);
      elems := prev;
      backStale := false;
    }

    /** `unique()`: lists of fewer than two nodes stay as they are; otherwise a
        new list takes the first value and then every value that differs from
        its own current back, and is swapped in. */
    method Unique()
      requires Valid()
      modifies this
      ensures Valid() && elems == Dedup(old(elems))
      ensures |old(elems)| <= 1 ==> backStale == old(backStale)
      ensures |old(elems)| > 1 ==> Linked()
    {
      if elems == [] || size == 1 {
        if elems != [] {
          assert elems[..0] == [];
        }
        return;
      }
      var kept := [elems[0]];
      assert elems[..1][..0] == [];
      var current := 1;
      while current < |elems|
        invariant 1 <= current <= |elems|
        invariant kept == Dedup(elems[..current]) && kept != []
      {
        assert elems[..current + 1][..current] == elems[..current];
        if elems[current] != kept[|kept| - 1] {
          kept := kept + [elems[current]];
        }
        current := current + 1;
      }
      assert elems[..current] == elems;
      elems := kept;
      size := |kept|;
      backStale := false;
    }

    /** `sort()`: bubble sort. Passes over the whole list swap out-of-order
        neighbours until a pass swaps nothing. */
    method Sort()
      requires Valid()
      modifies this
      ensures Valid() && backStale == old(backStale)
      ensures Sorted(elems) && multiset(elems) == multiset(old(elems))
    {
      if size <= 1 {
        return;
      }
      var swapped := true;
      ghost var k: nat := 0;
      while swapped
        invariant Valid() && backStale == old(backStale) && |elems| == |old(elems)|
        invariant multiset(elems) == multiset(old(elems))
        invariant k <= |elems| && Final(elems, k)
        invariant !swapped ==> Sorted(elems)
        decreases if swapped then |elems| + 1 - k else 0
      {
        FinalAll(elems);
        swapped := BubblePass(k);
        if k < |elems| {
          k := k + 1;
        }
      }
    }

    /** One pass of `sort()`: the larger of each neighbour pair moves right,
        so the largest value in front of the final elements joins them. The
        pass swaps something exactly when the list was not sorted. */
    method BubblePass(ghost k: nat) returns (swapped: bool)
      requires Valid() && |elems| >= 2 && k <= |elems| && Final(elems, k)
      modifies this
      ensures Valid() && backStale == old(backStale)
      ensures (elems, swapped) == PassFrom(old(elems), 0)
      ensures |elems| == |old(elems)| && multiset(elems) == multiset(old(elems))
      ensures Final(elems, if k < |elems| then k + 1 else k)
      ensures swapped <==> !Sorted(old(elems))
      ensures !swapped ==> elems == old(elems)
    {
      PassStart(elems, k);
      PassOutcome(elems, elems, k, 0, false);
      var e := elems;
      swapped := false;
      var current := 0;
      while current + 1 != |e|
        modifies {}
        invariant current < |e|
        invariant PassFrom(e, current).0 == PassFrom(elems, 0).0
        invariant (swapped || PassFrom(e, current).1) == PassFrom(elems, 0).1
        decreases |e| - current
      {
        if e[current] > e[current + 1] {
          e := e[current := e[current + 1]][current + 1 := e[current]];
          swapped := true;
        } else {
        }
        current := current + 1;
      }
      elems := e;
    }

    /** `is_sorted()`: lists of fewer than two nodes are sorted; otherwise
        neighbours are compared from the front until a pair is out of order. */
    method IsSorted() returns (b: bool)
      requires Valid()
      ensures b <==> Sorted(elems)
    {
      if elems == [] || size == 1 {
        return true;
      }
      var current := 1;
      while current != |elems|
        invariant 1 <= current <= |elems|
        invariant NeighboursSorted(elems[..current])
      {
        if elems[current - 1] > elems[current] {
          return false;
        }
        current := current + 1;
      }
      assert elems[..current] == elems;
      NeighboursSortedIsSorted(elems);
      b := true;
    }

    /** `insert_many(pos, args...)`: each argument is inserted before `pos`,
        just after the previous one, and the iterator `pos` itself comes back,
        now `|args|` places further on. */
    method InsertMany(pos: nat, args: seq<int>) returns (it: nat)
      requires Valid() && pos <= |elems|
      modifies this
      ensures Valid() && elems == Spliced(old(elems), pos, args) && it == pos + |args|
      ensures args == [] ==> backStale == old(backStale)
      ensures args != [] ==> Linked()
    {
      ghost var before := elems;
      if args != [] {
        var at := pos;
        for i := 0 to |args|
          invariant at == pos + i && pos <= |before|
          invariant Valid() && elems == Spliced(before, pos, args[..i]) && (i > 0 ==> Linked())
        {
          SplicedStep(before, pos, args[..i], args[i]);
          assert args[..i + 1] == args[..i] + [args[i]];
          at := Insert(at, args[i]);
          at := at + 1;
        }
        assert args[..|args|] == args;
      } else {
        assert Spliced(before, pos, args) == before;
      }
      it := pos + |args|;
    }

    /** `insert_many_back(args...)`: the arguments appended in order. */
    method InsertManyBack(args: seq<int>)
      requires Valid()
      modifies this
      ensures Valid() && elems == old(elems) + args
    {
      var _ := InsertMany(|elems|, args);
      assert Spliced(old(elems), |old(elems)|, args) == old(elems) + args;
    }

    /** `insert_many_front(args...)`: the arguments placed in order before the
        first node. */
    method InsertManyFront(args: seq<int>)
      requires Valid()
      modifies this
      ensures Valid() && elems == args + old(elems)
    {
      var _ := InsertMany(0, args);
      assert Spliced(old(elems), 0, args) == args + old(elems);
    }
  }
}
