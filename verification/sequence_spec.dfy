/** Specification functions on sequences shared by the sequence containers:
    insertion of one element or of a run of elements at a position, and
    removal of the element at a position. */
module SequenceSpec {
  /** `s` with `v` placed at position `i`; the suffix moves one place right. */
  function Inserted<T>(s: seq<T>, i: nat, v: T): seq<T>
    requires i <= |s|
  {
    s[..i] + [v] + s[i..]
  }

  /** `s` without its element at position `i`; the suffix moves one place left. */
  function Erased<T>(s: seq<T>, i: nat): seq<T>
    requires i < |s|
  {
    s[..i] + s[i + 1..]
  }

  /** `s` with the run `items` placed, in order, at position `i`. */
  function Spliced<T>(s: seq<T>, i: nat, items: seq<T>): seq<T>
    requires i <= |s|
  {
    s[..i] + items + s[i..]
  }

  /** A sequence that agrees with `s` before `i`, holds `v` at `i` and holds
      the rest of `s` after it is `s` with `v` inserted at `i`. */
  lemma InsertedAt<T>(t: seq<T>, s: seq<T>, i: nat, v: T)
    requires i <= |s| && |t| == |s| + 1 && t[i] == v
    requires forall k :: 0 <= k < i ==> t[k] == s[k]
    requires forall k :: i < k < |t| ==> t[k] == s[k - 1]
    ensures t == Inserted(s, i, v)
  {
    var r := Inserted(s, i, v);
    forall k | 0 <= k < |t| ensures t[k] == r[k] {
      if k < i {
        assert r[k] == s[..i][k];
      } else if k > i {
        assert r[k] == s[i..][k - i - 1];
      }
    }
  }

  /** A sequence that agrees with `s` before `i` and holds the rest of `s`
      after position `i` from `i` on is `s` without its element at `i`. */
  lemma ErasedAt<T>(t: seq<T>, s: seq<T>, i: nat)
    requires i < |s| && |t| + 1 == |s|
    requires forall k :: 0 <= k < i ==> t[k] == s[k]
    requires forall k :: i <= k < |t| ==> t[k] == s[k + 1]
    ensures t == Erased(s, i)
  {
    var r := Erased(s, i);
    forall k | 0 <= k < |t| ensures t[k] == r[k] {
      if k < i {
        assert r[k] == s[..i][k];
      } else {
        assert r[k] == s[i + 1..][k - i];
      }
    }
  }

  /** Removing what was just inserted gives the sequence back. */
  lemma ErasedInserted<T>(s: seq<T>, i: nat, v: T)
    requires i <= |s|
    ensures |Inserted(s, i, v)| == |s| + 1 && Inserted(s, i, v)[i] == v
    ensures Erased(Inserted(s, i, v), i) == s
  {
    var t := Inserted(s, i, v);
    assert t[..i] == s[..i];
    assert t[i + 1..] == s[i..];
  }

  /** Putting back what was just removed gives the sequence back. */
  lemma InsertedErased<T>(s: seq<T>, i: nat)
    requires i < |s|
    ensures |Erased(s, i)| + 1 == |s|
    ensures Inserted(Erased(s, i), i, s[i]) == s
  {
    var t := Erased(s, i);
    assert t[..i] == s[..i];
    assert t[i..] == s[i + 1..];
    assert s == s[..i] + [s[i]] + s[i + 1..];
  }

  /** Inserting a run one element at a time, each just after the previous one,
      places the whole run: one more element extends the run. */
  lemma SplicedStep<T>(s: seq<T>, i: nat, items: seq<T>, v: T)
    requires i <= |s|
    ensures i + |items| <= |Spliced(s, i, items)|
    ensures Inserted(Spliced(s, i, items), i + |items|, v) == Spliced(s, i, items + [v])
  {
    var t := Spliced(s, i, items);
    assert t[..i + |items|] == s[..i] + items;
    assert t[i + |items|..] == s[i..];
  }
}
