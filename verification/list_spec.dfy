/** Specification functions for the list algorithms: order, the two-way
    merge, reversal and the removal of consecutive duplicates, with what each
    promises. */
module ListSpec {
  /** Non-decreasing. */
  ghost predicate Sorted(s: seq<int>) {
    forall i, j :: 0 <= i < j < |s| ==> s[i] <= s[j]
  }

  /** Every neighbour pair is in order. */
  ghost predicate NeighboursSorted(s: seq<int>) {
    forall i :: 0 <= i < |s| - 1 ==> s[i] <= s[i + 1]
  }

  /** The last `k` elements are in their final places: they are in order and
      none is below an element in front of them. */
  ghost predicate Final(s: seq<int>, k: nat) {
    forall i, j :: 0 <= i < j < |s| && j >= |s| - k ==> s[i] <= s[j]
  }

  lemma {:induction false} NeighboursSortedIsSorted(s: seq<int>)
    requires NeighboursSorted(s)
    ensures Sorted(s)
    decreases |s|
  {
    if |s| > 1 {
      var p := s[..|s| - 1];
      assert NeighboursSorted(p) by {
        forall i | 0 <= i < |p| - 1 ensures p[i] <= p[i + 1] {
          assert p[i] == s[i] && p[i + 1] == s[i + 1];
        }
      }
      NeighboursSortedIsSorted(p);
      forall i, j | 0 <= i < j < |s| ensures s[i] <= s[j] {
        if j < |s| - 1 {
          assert p[i] == s[i] && p[j] == s[j];
        } else if i < |s| - 2 {
          assert p[i] == s[i] && p[|s| - 2] == s[|s| - 2];
        }
      }
    }
  }

  /** All elements final is sorted, and the other way round. */
  lemma FinalAll(s: seq<int>)
    ensures Final(s, |s|) <==> Sorted(s)
  {
  }

  // ---------------------------------------------------------------------------
  // Two-way merge

  /** The two-way merge that takes from `a` when its head is strictly less and
      from `b` otherwise, then appends what is left. */
  function Merged(a: seq<int>, b: seq<int>): seq<int>
    decreases |a| + |b|
  {
    if a == [] then b
    else if b == [] then a
    else if a[0] < b[0] then [a[0]] + Merged(a[1..], b)
    else [b[0]] + Merged(a, b[1..])
  }

  /** One step of the merge loop over the suffixes from `i` and `j`: the
      smaller head comes first, this side's on a strict `<`. */
  lemma MergedUnfold(a: seq<int>, b: seq<int>, i: nat, j: nat)
    requires i <= |a| && j <= |b|
    ensures i < |a| && (j == |b| || a[i] < b[j]) ==>
              Merged(a[i..], b[j..]) == [a[i]] + Merged(a[i + 1..], b[j..])
    ensures j < |b| && (i == |a| || a[i] >= b[j]) ==>
              Merged(a[i..], b[j..]) == [b[j]] + Merged(a[i..], b[j + 1..])
  {
    assert i < |a| ==> a[i..][1..] == a[i + 1..];
    assert j < |b| ==> b[j..][1..] == b[j + 1..];
  }

  /** The merge is a permutation of the two inputs together. */
  lemma {:induction false} MergedPermutes(a: seq<int>, b: seq<int>)
    ensures multiset(Merged(a, b)) == multiset(a) + multiset(b)
    decreases |a| + |b|
  {
    if a != [] && b != [] {
      if a[0] < b[0] {
        MergedPermutes(a[1..], b);
        assert a == [a[0]] + a[1..];
      } else {
        MergedPermutes(a, b[1..]);
        assert b == [b[0]] + b[1..];
      }
    }
  }

  /** The merge starts with the smaller of the two heads. */
  lemma MergedHead(a: seq<int>, b: seq<int>)
    requires a != [] || b != []
    ensures Merged(a, b) != []
    ensures a != [] && (b == [] || a[0] < b[0]) ==> Merged(a, b)[0] == a[0]
    ensures b != [] && (a == [] || a[0] >= b[0]) ==> Merged(a, b)[0] == b[0]
  {
  }

  /** Merging two sorted sequences gives a sorted sequence. */
  lemma {:induction false} MergedSorted(a: seq<int>, b: seq<int>)
    requires Sorted(a) && Sorted(b)
    ensures Sorted(Merged(a, b))
    decreases |a| + |b|
  {
    if a != [] && b != [] {
      if a[0] < b[0] {
        var rest := Merged(a[1..], b);
        MergedSorted(a[1..], b);
        MergedPermutes(a[1..], b);
        forall x | x in rest ensures a[0] <= x {
          assert x in multiset(rest);
          if x in multiset(a[1..]) {
            var i :| 0 <= i < |a[1..]| && a[1..][i] == x;
            assert a[i + 1] == x;
          } else {
            var i :| 0 <= i < |b| && b[i] == x;
          }
        }
        SortedCons(a[0], rest);
      } else {
        var rest := Merged(a, b[1..]);
        MergedSorted(a, b[1..]);
        MergedPermutes(a, b[1..]);
        forall x | x in rest ensures b[0] <= x {
          assert x in multiset(rest);
          if x in multiset(b[1..]) {
            var i :| 0 <= i < |b[1..]| && b[1..][i] == x;
            assert b[i + 1] == x;
          } else {
            var i :| 0 <= i < |a| && a[i] == x;
          }
        }
        SortedCons(b[0], rest);
      }
    }
  }

  lemma SortedCons(x: int, s: seq<int>)
    requires Sorted(s) && forall y :: y in s ==> x <= y
    ensures Sorted([x] + s)
  {
    var r := [x] + s;
    forall i, j | 0 <= i < j < |r| ensures r[i] <= r[j] {
      if i > 0 {
        assert r[i] == s[i - 1] && r[j] == s[j - 1];
      } else {
        assert r[j] == s[j - 1] && s[j - 1] in s;
      }
    }
  }

  // ---------------------------------------------------------------------------
  // Reversal

  /** The elements from the last to the first. */
  function Reversed(s: seq<int>): seq<int> {
    if s == [] then [] else [s[|s| - 1]] + Reversed(s[..|s| - 1])
  }

  /** Position `i` of the reversal holds position `|s| - 1 - i` of the input. */
  lemma {:induction false} ReversedAt(s: seq<int>)
    ensures |Reversed(s)| == |s|
    ensures forall i :: 0 <= i < |s| ==> Reversed(s)[i] == s[|s| - 1 - i]
    decreases |s|
  {
    if s != [] {
      var p := s[..|s| - 1];
      ReversedAt(p);
      var r := Reversed(s);
      assert r == [s[|s| - 1]] + Reversed(p);
      forall i | 0 <= i < |s| ensures r[i] == s[|s| - 1 - i] {
        if i > 0 {
          assert r[i] == Reversed(p)[i - 1] == p[|p| - 1 - (i - 1)];
        }
      }
    }
  }

  /** Reversing twice gives the sequence back, and reversal exchanges the first
      and the last element. */
  lemma ReversedTwice(s: seq<int>)
    ensures Reversed(Reversed(s)) == s && |Reversed(s)| == |s|
    ensures s != [] ==> Reversed(s)[0] == s[|s| - 1] && Reversed(s)[|s| - 1] == s[0]
  {
    ReversedAt(s);
    ReversedAt(Reversed(s));
  }

  // ---------------------------------------------------------------------------
  // Removal of consecutive duplicates

  /** The elements with every run of equal neighbours cut down to its first
      element. */
  function Dedup(s: seq<int>): (r: seq<int>)
    ensures |r| <= |s|
    ensures s != [] ==> r != [] && r[|r| - 1] == s[|s| - 1]
  {
    if s == [] then []
    else
      var d := Dedup(s[..|s| - 1]);
      if d != [] && d[|d| - 1] == s[|s| - 1] then d else d + [s[|s| - 1]]
  }

  /** No two neighbours are equal. */
  ghost predicate NoNeighbourRepeats(s: seq<int>) {
    forall i :: 0 <= i < |s| - 1 ==> s[i] != s[i + 1]
  }

  /** After `unique` no two neighbours are equal. */
  lemma {:induction false} DedupNoRepeats(s: seq<int>)
    ensures NoNeighbourRepeats(Dedup(s))
    decreases |s|
  {
    if s != [] {
      DedupNoRepeats(s[..|s| - 1]);
    }
  }

  /** `unique` removes no value altogether and adds none. */
  lemma {:induction false} DedupSameValues(s: seq<int>)
    ensures forall x :: x in Dedup(s) <==> x in s
    decreases |s|
  {
    if s != [] {
      var p := s[..|s| - 1];
      DedupSameValues(p);
      assert s == p + [s[|s| - 1]];
    }
  }

  /** A sequence without equal neighbours is left as it is; in particular
      `unique` twice is `unique` once. */
  lemma {:induction false} DedupKeeps(s: seq<int>)
    requires NoNeighbourRepeats(s)
    ensures Dedup(s) == s
    decreases |s|
  {
    if s != [] {
      var p := s[..|s| - 1];
      assert NoNeighbourRepeats(p) by {
        forall i | 0 <= i < |p| - 1 ensures p[i] != p[i + 1] {
          assert p[i] == s[i] && p[i + 1] == s[i + 1];
        }
      }
      DedupKeeps(p);
      if |s| > 1 {
        assert s[|s| - 2] != s[|s| - 1];
      }
      assert s == p + [s[|s| - 1]];
    }
  }

  lemma DedupTwice(s: seq<int>)
    ensures Dedup(Dedup(s)) == Dedup(s)
  {
    DedupNoRepeats(s);
    DedupKeeps(Dedup(s));
  }
}
