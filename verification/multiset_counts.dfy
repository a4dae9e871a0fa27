/** Occurrence counts of a multiset stored as one tree node per distinct key
    with the count as payload: their total, the per-key count, and the
    iterator that walks every occurrence. */
module MultisetCounts {
  import opened RBTreeShape
  import opened RBTreeIterator

  /** `size_t` wrap-around of `0 - 1`. */
  const SizeMax: nat := 0xFFFF_FFFF_FFFF_FFFF

  /** Number of occurrences held by a sequence of (key, count) pairs. */
  function Total(s: seq<(int, nat)>): nat {
    if s == [] then 0 else Total(s[..|s| - 1]) + s[|s| - 1].1
  }

  /** Every stored count is at least one. */
  ghost predicate Positive(s: seq<(int, nat)>) {
    forall i :: 0 <= i < |s| ==> s[i].1 >= 1
  }

  /** Count of a key in a key-to-count map; absent keys occur zero times. */
  function Count(m: map<int, nat>, k: int): nat {
    if k in m then m[k] else 0
  }

  lemma {:induction false} TotalAppend(a: seq<(int, nat)>, b: seq<(int, nat)>)
    ensures Total(a + b) == Total(a) + Total(b)
    decreases |b|
  {
    if b == [] {
      assert a + b == a;
    } else {
      assert (a + b)[..|a + b| - 1] == a + b[..|b| - 1];
      TotalAppend(a, b[..|b| - 1]);
    }
  }

  lemma TotalSingle(x: (int, nat))
    ensures Total([x]) == x.1
  {
    var one: seq<(int, nat)> := [x];
    assert one[..0] == [];
  }

  lemma TotalPrefixStep(s: seq<(int, nat)>, i: nat)
    requires i < |s|
    ensures Total(s[..i + 1]) == Total(s[..i]) + s[i].1
  {
    assert s[..i + 1][..i] == s[..i];
  }

  lemma TotalInsertAt(s: seq<(int, nat)>, i: nat, x: (int, nat))
    requires i <= |s|
    ensures Total(s[..i] + [x] + s[i..]) == Total(s) + x.1
  {
    TotalAppend(s[..i] + [x], s[i..]);
    TotalAppend(s[..i], [x]);
    TotalAppend(s[..i], s[i..]);
    assert s[..i] + s[i..] == s;
    TotalSingle(x);
  }

  lemma TotalRemoveAt(s: seq<(int, nat)>, i: nat)
    requires i < |s|
    ensures Total(s[..i] + s[i + 1..]) + s[i].1 == Total(s)
  {
    assert s == s[..i] + ([s[i]] + s[i + 1..]);
    TotalAppend(s[..i], [s[i]] + s[i + 1..]);
    TotalAppend([s[i]], s[i + 1..]);
    TotalAppend(s[..i], s[i + 1..]);
    TotalSingle(s[i]);
  }

  lemma TotalUpdateAt(s: seq<(int, nat)>, i: nat, x: (int, nat))
    requires i < |s|
    ensures Total(s[i := x]) + s[i].1 == Total(s) + x.1
  {
    TotalRemoveAt(s, i);
    TotalRemoveAt(s[i := x], i);
    assert s[i := x][..i] + s[i := x][i + 1..] == s[..i] + s[i + 1..];
  }

  lemma PositiveInsertAt(s: seq<(int, nat)>, i: nat, x: (int, nat))
    requires Positive(s) && i <= |s| && x.1 >= 1
    ensures Positive(s[..i] + [x] + s[i..])
  {
    var r := s[..i] + [x] + s[i..];
    forall j | 0 <= j < |r| ensures r[j].1 >= 1 {
      if j < i { assert r[j] == s[j]; } else if j > i { assert r[j] == s[j - 1]; }
    }
  }

  lemma PositiveRemoveAt(s: seq<(int, nat)>, i: nat)
    requires Positive(s) && i < |s|
    ensures Positive(s[..i] + s[i + 1..])
  {
    var r := s[..i] + s[i + 1..];
    forall j | 0 <= j < |r| ensures r[j].1 >= 1 {
      if j < i { assert r[j] == s[j]; } else { assert r[j] == s[j + 1]; }
    }
  }

  lemma PositiveUpdateAt(s: seq<(int, nat)>, i: nat, x: (int, nat))
    requires Positive(s) && i < |s| && x.1 >= 1
    ensures Positive(s[i := x])
  {
  }

  /** A count rewritten in place: counts stay positive and the total moves by
      the difference. */
  lemma UpdateKeepsCounts(e: seq<(int, nat)>, e': seq<(int, nat)>, i: nat, c: nat)
    requires Positive(e) && i < |e| && c >= 1 && e' == e[i := (e[i].0, c)]
    ensures Positive(e') && Total(e') + e[i].1 == Total(e) + c
  {
    TotalUpdateAt(e, i, (e[i].0, c));
    PositiveUpdateAt(e, i, (e[i].0, c));
  }

  /** Raising a stored count by one adds one occurrence of that key. */
  lemma CountsRaised(m: map<int, nat>, key: int, c: nat)
    requires key in m && c == m[key] + 1
    ensures forall k :: Count(m[key := c], k) == Count(m, k) + (if k == key then 1 else 0)
  {
  }

  /** Storing an absent key with count one adds its one occurrence. */
  lemma CountsAdded(m: map<int, nat>, key: int)
    requires key !in m
    ensures forall k :: Count(m[key := 1], k) == Count(m, k) + (if k == key then 1 else 0)
  {
  }

  /** Counts that follow a list's occurrences still follow them after one
      more occurrence of `x` is counted and `x` is appended. */
  lemma CountsAppend(before: map<int, nat>, after: map<int, nat>, items: seq<int>, x: int)
    requires forall k :: Count(before, k) == multiset(items)[k]
    requires forall k :: Count(after, k) == Count(before, k) + (if k == x then 1 else 0)
    ensures forall k :: Count(after, k) == multiset(items + [x])[k]
  {
    forall k ensures Count(after, k) == multiset(items + [x])[k] {
      assert multiset(items + [x]) == multiset(items) + multiset{x};
    }
  }

  /** Lowering a stored count by one removes one occurrence of that key. */
  lemma CountsLowered(m: map<int, nat>, key: int, c: nat)
    requires key in m && m[key] == c + 1
    ensures forall k :: Count(m[key := c], k) == Count(m, k) - (if k == key then 1 else 0)
  {
  }

  /** Dropping a key stored once removes its one occurrence. */
  lemma CountsDropped(m: map<int, nat>, key: int)
    requires key in m && m[key] == 1
    ensures forall k :: Count(m - {key}, k) == Count(m, k) - (if k == key then 1 else 0)
  {
  }

  /** A pair inserted anywhere: counts stay positive and the total grows by its count. */
  lemma InsertKeepsCounts(e: seq<(int, nat)>, e': seq<(int, nat)>, i: nat, x: (int, nat))
    requires Positive(e) && i <= |e| && x.1 >= 1 && e' == e[..i] + [x] + e[i..]
    ensures Positive(e') && Total(e') == Total(e) + x.1
  {
    TotalInsertAt(e, i, x);
    PositiveInsertAt(e, i, x);
  }

  /** A pair removed: counts stay positive and the total shrinks by its count. */
  lemma RemoveKeepsCounts(e: seq<(int, nat)>, e': seq<(int, nat)>, i: nat)
    requires Positive(e) && i < |e| && e' == e[..i] + e[i + 1..]
    ensures Positive(e') && Total(e') + e[i].1 == Total(e)
  {
    TotalRemoveAt(e, i);
    PositiveRemoveAt(e, i);
  }

  /** No stored pair means no occurrence, and with positive counts the converse. */
  lemma {:induction false} TotalZero(s: seq<(int, nat)>)
    requires Positive(s)
    ensures Total(s) == 0 <==> s == []
  {
    if s != [] {
      assert s[|s| - 1].1 >= 1;
    }
  }

  /** Every stored key has a positive count in the map the pairs denote. */
  lemma PositiveCounts(s: seq<(int, nat)>, k: int)
    requires Positive(s) && k in MapOf(s)
    ensures MapOf(s)[k] >= 1
    decreases |s|
  {
    if s[|s| - 1].0 != k {
      var p := s[..|s| - 1];
      assert Positive(p) by {
        forall j | 0 <= j < |p| ensures p[j].1 >= 1 {
          assert p[j] == s[j];
        }
      }
      PositiveCounts(p, k);
    }
  }

  // ---------------------------------------------------------------------------
  // The multiset iterator: a tree iterator plus the occurrence index in its node

  datatype MCursor = MCursor(base: Cursor<nat>, index: nat)

  /** The occurrence a multiset iterator stands for, counted over the whole
      walk; past-the-end is the total. */
  ghost function Flat(t: Tree<nat>, c: MCursor): int
    requires ValidIn(t, c.base)
  {
    CursorElement(t, c.base);
    if c.base.atEnd then Total(Elements(t)) else Total(Elements(t)[..Index(c.base)]) + c.index
  }

  /** `operator++`: the next occurrence of the same key while there is one,
      otherwise the tree iterator steps on and the index restarts at zero. */
  method MNext(ghost t: Tree<nat>, c: MCursor) returns (r: MCursor)
    requires ValidIn(t, c.base)
    ensures ValidIn(t, r.base)
    ensures !c.base.atEnd && c.index + 1 < c.base.node.val ==> r == MCursor(c.base, c.index + 1)
    ensures c.base.atEnd || c.index + 1 >= c.base.node.val ==>
              r.index == 0 && Index(r.base) == (if c.base.atEnd then Index(c.base) else Index(c.base) + 1) &&
              (r.base.atEnd <==> Index(r.base) == |Elements(t)|)
    ensures !c.base.atEnd && c.index < c.base.node.val ==> Flat(t, r) == Flat(t, c) + 1
  {
    CursorElement(t, c.base);
    if !c.base.atEnd && c.index + 1 < c.base.node.val {
      r := MCursor(c.base, c.index + 1);
    } else {
      var b := Next(t, c.base);
      r := MCursor(b, 0);
      CursorElement(t, b);
      if !c.base.atEnd && c.index < c.base.node.val {
        TotalPrefixStep(Elements(t), Index(c.base));
        if b.atEnd {
          assert Elements(t)[..Index(c.base) + 1] == Elements(t);
        }
      }
    }
  }

  /** `operator--`: the previous occurrence of the same key while the index is
      positive, otherwise the tree iterator steps back and the index becomes
      the last occurrence of the node reached (for the sentinel of an empty
      multiset, whose count is zero, `0 - 1` wraps around). */
  method MPrev(ghost t: Tree<nat>, c: MCursor) returns (r: MCursor)
    requires ValidIn(t, c.base) && Positive(Elements(t))
    ensures ValidIn(t, r.base)
    ensures !c.base.atEnd && c.index > 0 ==> r == MCursor(c.base, c.index - 1)
    ensures (c.base.atEnd || c.index == 0) && t.Node? ==> r.base.node.Node? && r.index + 1 == r.base.node.val
    ensures (c.base.atEnd || c.index == 0) && t.Nil? ==> r.base == c.base && r.index == SizeMax
    ensures !c.base.atEnd && c.index == 0 && Index(c.base) == 0 ==> r.base.atEnd
    ensures (c.base.atEnd && t.Node?) || (!c.base.atEnd && (c.index > 0 || Index(c.base) > 0)) ==>
              Flat(t, r) + 1 == Flat(t, c)
  {
    CursorElement(t, c.base);
    if !c.base.atEnd && c.index > 0 {
      r := MCursor(c.base, c.index - 1);
    } else {
      var b := Prev(t, c.base);
      CursorElement(t, b);
      if !b.atEnd || b.node.Node? {
        assert b.node.val >= 1;
      }
      if b.node.Nil? {
        assert t.Nil?;
        r := MCursor(b, SizeMax);
      } else {
        r := MCursor(b, b.node.val - 1);
        if !b.atEnd {
          TotalPrefixStep(Elements(t), Index(b));
          if c.base.atEnd {
            assert Elements(t)[..Index(b) + 1] == Elements(t);
          }
        }
      }
    }
  }

  /** `operator==`: the same node, index and flag, or both past-the-end. */
  predicate MEqual(a: MCursor, b: MCursor) {
    (a.base.node == b.base.node && a.base.path == b.base.path && a.index == b.index && a.base.atEnd == b.base.atEnd) ||
    (a.base.atEnd == b.base.atEnd && a.base.atEnd)
  }

  /** `operator!=` as written: it reduces to comparing the end flags. */
  predicate MNotEqualAsWritten(a: MCursor, b: MCursor) {
    (!(a.base.node == b.base.node && a.base.path == b.base.path && a.index == b.index) && a.base.atEnd != b.base.atEnd) ||
    a.base.atEnd != b.base.atEnd
  }

  /** `operator!=` as evidently intended. */
  predicate MNotEqual(a: MCursor, b: MCursor) {
    !MEqual(a, b)
  }

  /** The written inequality never claims inequality wrongly and is exact when
      one side is past-the-end. */
  lemma MNotEqualAgreesAtEnd(a: MCursor, b: MCursor)
    ensures MNotEqualAsWritten(a, b) ==> MNotEqual(a, b)
    ensures a.base.atEnd || b.base.atEnd ==> (MNotEqualAsWritten(a, b) <==> MNotEqual(a, b))
  {
  }

  /** The first and second occurrence of a key stored twice: neither equal nor,
      as written, unequal. */
  lemma MNotEqualCounterexample()
    ensures var t := Node(Black, Nil, 5, 2, Nil);
            var a := MCursor(Cursor(t, Top, false), 0);
            var b := MCursor(Cursor(t, Top, false), 1);
            ValidIn(t, a.base) && Flat(t, a) == 0 && Flat(t, b) == 1 &&
            !MEqual(a, b) && !MNotEqualAsWritten(a, b) && MNotEqual(a, b)
  {
    assert Elements(Node(Black, Nil, 5, 2, Nil))[..0] == [];
  }
}
