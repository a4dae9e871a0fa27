/** The shape of the red-black tree engine: nodes, the tree's own black sentinel,
    parent chains, the in-order contents of a tree and the red-black invariants.

    A node pointer of the engine is modelled as a position: the subtree hanging
    below the node together with the chain of parent links above it (a `Path`).
    Following `parent` is popping one step of the path; following `left` or
    `right` is pushing one. The sentinel `TNULL` is `Nil`: it is black, carries
    no key, and painting it is a no-op. */
module RBTreeShape {

  datatype Color = Red | Black

  /** A subtree below some link of the tree; `Nil` is the sentinel. */
  datatype Tree<V> = Nil | Node(color: Color, left: Tree<V>, key: int, val: V, right: Tree<V>)

  /** The parent links above a position, innermost first. `LeftOf` means the
      position is its parent's left child (the parent's right child is kept),
      `RightOf` that it is the right child. `Top` is the root link. */
  datatype Path<V> =
    | Top
    | LeftOf(color: Color, key: int, val: V, right: Tree<V>, up: Path<V>)
    | RightOf(color: Color, left: Tree<V>, key: int, val: V, up: Path<V>)

  /** Colour of whatever hangs at a link: the sentinel is always black. */
  function ColorOf<V>(t: Tree<V>): Color {
    if t.Nil? then Black else t.color
  }

  /** `t->color = c`; writing a colour into the sentinel leaves it as it is. */
  function Paint<V>(t: Tree<V>, c: Color): (r: Tree<V>)
    ensures t.Node? ==> r.Node? && ColorOf(r) == c && r.left == t.left && r.right == t.right
    ensures t.Node? ==> r.key == t.key && r.val == t.val
    ensures t.Nil? ==> r.Nil?
    ensures Elements(r) == Elements(t)
  {
    if t.Nil? then t else t.(color := c)
  }

  /** The whole tree seen from a position: re-attach `t` under its parents. */
  function Plug<V>(t: Tree<V>, p: Path<V>): Tree<V>
    decreases p
  {
    match p
    case Top => t
    case LeftOf(c, k, v, r, up) => Plug(Node(c, t, k, v, r), up)
    case RightOf(c, l, k, v, up) => Plug(Node(c, l, k, v, t), up)
  }

  /** The subtree at the parent of a position, with `t` in the hole. */
  function Climb<V>(t: Tree<V>, p: Path<V>): (r: Tree<V>)
    requires p != Top
    ensures Plug(r, p.up) == Plug(t, p)
  {
    match p
    case LeftOf(c, k, v, r, _) => Node(c, t, k, v, r)
    case RightOf(c, l, k, v, _) => Node(c, l, k, v, t)
  }

  /** Number of parent links above a position. */
  function Depth<V>(p: Path<V>): nat {
    match p
    case Top => 0
    case LeftOf(_, _, _, _, up) => Depth(up) + 1
    case RightOf(_, _, _, _, up) => Depth(up) + 1
  }

  /** Parent chain `q` (inside some subtree) continued by the chain `p` above that subtree. */
  function Extend<V>(q: Path<V>, p: Path<V>): Path<V> {
    match q
    case Top => p
    case LeftOf(c, k, v, r, up) => LeftOf(c, k, v, r, Extend(up, p))
    case RightOf(c, l, k, v, up) => RightOf(c, l, k, v, Extend(up, p))
  }

  /** A chain that only ever goes left: the way down to a minimum. */
  predicate LeftSpine<V>(q: Path<V>) {
    match q
    case Top => true
    case LeftOf(_, _, _, _, up) => LeftSpine(up)
    case RightOf(_, _, _, _, _) => false
  }

  /** A chain that only ever goes right: the way down to a maximum. */
  predicate RightSpine<V>(q: Path<V>) {
    match q
    case Top => true
    case LeftOf(_, _, _, _, _) => false
    case RightOf(_, _, _, _, up) => RightSpine(up)
  }

  lemma {:induction false} PlugExtend<V>(t: Tree<V>, q: Path<V>, p: Path<V>)
    ensures Plug(t, Extend(q, p)) == Plug(Plug(t, q), p)
    decreases q
  {
    match q
    case Top =>
    case LeftOf(c, k, v, r, up) => PlugExtend(Node(c, t, k, v, r), up, p);
    case RightOf(c, l, k, v, up) => PlugExtend(Node(c, l, k, v, t), up, p);
  }

  // ---------------------------------------------------------------------------
  // In-order contents

  /** The in-order sequence of (key, payload) pairs. */
  function Elements<V>(t: Tree<V>): seq<(int, V)> {
    match t
    case Nil => []
    case Node(_, l, k, v, r) => Elements(l) + [(k, v)] + Elements(r)
  }

  /** Elements of the whole tree that come before the position's subtree. */
  function Before<V>(p: Path<V>): seq<(int, V)> {
    match p
    case Top => []
    case LeftOf(_, _, _, _, up) => Before(up)
    case RightOf(_, l, k, v, up) => Before(up) + Elements(l) + [(k, v)]
  }

  /** Elements of the whole tree that come after the position's subtree. */
  function After<V>(p: Path<V>): seq<(int, V)> {
    match p
    case Top => []
    case LeftOf(_, k, v, r, up) => [(k, v)] + Elements(r) + After(up)
    case RightOf(_, _, _, _, up) => After(up)
  }

  lemma {:induction false} PlugElements<V>(t: Tree<V>, p: Path<V>)
    ensures Elements(Plug(t, p)) == Before(p) + Elements(t) + After(p)
    decreases p
  {
    match p
    case Top =>
      assert Before(p) + Elements(t) + After(p) == Elements(t);
    case LeftOf(c, k, v, r, up) =>
      PlugElements(Node(c, t, k, v, r), up);
      PlugElementsLeft(t, c, k, v, r, up);
    case RightOf(c, l, k, v, up) =>
      PlugElements(Node(c, l, k, v, t), up);
      PlugElementsRight(t, c, l, k, v, up);
  }

  lemma PlugElementsLeft<V>(t: Tree<V>, c: Color, k: int, v: V, r: Tree<V>, up: Path<V>)
    requires Elements(Plug(Node(c, t, k, v, r), up)) == Before(up) + Elements(Node(c, t, k, v, r)) + After(up)
    ensures Elements(Plug(t, LeftOf(c, k, v, r, up))) ==
            Before(LeftOf(c, k, v, r, up)) + Elements(t) + After(LeftOf(c, k, v, r, up))
  {
    var p := LeftOf(c, k, v, r, up);
    var B, E, R, A := Before(up), Elements(t), Elements(r), After(up);
    var kv := [(k, v)];
    calc {
      Elements(Plug(t, p));
      Elements(Plug(Node(c, t, k, v, r), up));
      B + (E + kv + R) + A;
      { Regroup(B, E, kv + R, A); }
      B + E + (kv + R + A);
      Before(p) + E + After(p);
    }
  }

  lemma PlugElementsRight<V>(t: Tree<V>, c: Color, l: Tree<V>, k: int, v: V, up: Path<V>)
    requires Elements(Plug(Node(c, l, k, v, t), up)) == Before(up) + Elements(Node(c, l, k, v, t)) + After(up)
    ensures Elements(Plug(t, RightOf(c, l, k, v, up))) ==
            Before(RightOf(c, l, k, v, up)) + Elements(t) + After(RightOf(c, l, k, v, up))
  {
    var p := RightOf(c, l, k, v, up);
    var B, L, E, A := Before(up), Elements(l), Elements(t), After(up);
    var kv := [(k, v)];
    calc {
      Elements(Plug(t, p));
      Elements(Plug(Node(c, l, k, v, t), up));
      B + (L + kv + E) + A;
      { Regroup(B, L + kv, E, A); }
      B + L + kv + E + A;
      Before(p) + E + After(p);
    }
  }

  lemma Regroup<V>(a: seq<(int, V)>, b: seq<(int, V)>, c: seq<(int, V)>, d: seq<(int, V)>)
    ensures a + (b + c) + d == a + b + (c + d) == (a + b) + c + d
  {
  }

  /** Two subtrees with the same contents give the same contents wherever they are plugged. */
  lemma PlugSameElements<V>(a: Tree<V>, b: Tree<V>, p: Path<V>)
    requires Elements(a) == Elements(b)
    ensures Elements(Plug(a, p)) == Elements(Plug(b, p))
  {
    PlugElements(a, p);
    PlugElements(b, p);
  }

  lemma {:induction false} ExtendElements<V>(q: Path<V>, p: Path<V>)
    ensures Before(Extend(q, p)) == Before(p) + Before(q)
    ensures After(Extend(q, p)) == After(q) + After(p)
    decreases q
  {
    match q
    case Top =>
    case LeftOf(c, k, v, r, up) => ExtendElements(up, p);
    case RightOf(c, l, k, v, up) => ExtendElements(up, p);
  }

  lemma {:induction false} LeftSpineBefore<V>(q: Path<V>)
    requires LeftSpine(q)
    ensures Before(q) == []
    decreases q
  {
    match q
    case Top =>
    case LeftOf(_, _, _, _, up) => LeftSpineBefore(up);
  }

  lemma {:induction false} RightSpineAfter<V>(q: Path<V>)
    requires RightSpine(q)
    ensures After(q) == []
    decreases q
  {
    match q
    case Top =>
    case RightOf(_, _, _, _, up) => RightSpineAfter(up);
  }

  // ---------------------------------------------------------------------------
  // Key order

  /** Strictly ascending keys: the binary-search-tree order read in order. */
  ghost predicate Ascending<V>(s: seq<(int, V)>) {
    forall i, j :: 0 <= i < j < |s| ==> s[i].0 < s[j].0
  }

  ghost predicate AllBelow<V>(s: seq<(int, V)>, k: int) {
    forall i :: 0 <= i < |s| ==> s[i].0 < k
  }

  ghost predicate AllAbove<V>(s: seq<(int, V)>, k: int) {
    forall i :: 0 <= i < |s| ==> k < s[i].0
  }

  /** The search-tree condition at one node, in both directions. */
  lemma AscendingNode<V>(a: seq<(int, V)>, k: int, v: V, b: seq<(int, V)>)
    ensures Ascending(a + [(k, v)] + b) <==>
            Ascending(a) && AllBelow(a, k) && AllAbove(b, k) && Ascending(b)
  {
    if Ascending(a + [(k, v)] + b) {
      AscendingSplit(a, k, v, b);
    }
    if Ascending(a) && AllBelow(a, k) && AllAbove(b, k) && Ascending(b) {
      AscendingJoin(a, k, v, b);
    }
  }

  lemma AscendingSplit<V>(a: seq<(int, V)>, k: int, v: V, b: seq<(int, V)>)
    requires Ascending(a + [(k, v)] + b)
    ensures Ascending(a) && AllBelow(a, k) && AllAbove(b, k) && Ascending(b)
  {
    var s := a + [(k, v)] + b;
    forall i, j | 0 <= i < j < |a| ensures a[i].0 < a[j].0 {
      assert s[i] == a[i] && s[j] == a[j];
    }
    forall i | 0 <= i < |a| ensures a[i].0 < k {
      assert s[i] == a[i] && s[|a|] == (k, v);
    }
    forall i, j | 0 <= i < j < |b| ensures b[i].0 < b[j].0 {
      assert s[|a| + 1 + i] == b[i] && s[|a| + 1 + j] == b[j];
    }
    forall i | 0 <= i < |b| ensures k < b[i].0 {
      assert s[|a| + 1 + i] == b[i] && s[|a|] == (k, v);
    }
  }

  lemma AscendingJoin<V>(a: seq<(int, V)>, k: int, v: V, b: seq<(int, V)>)
    requires Ascending(a) && AllBelow(a, k) && AllAbove(b, k) && Ascending(b)
    ensures Ascending(a + [(k, v)] + b)
  {
    var s := a + [(k, v)] + b;
    forall i, j | 0 <= i < j < |s| ensures s[i].0 < s[j].0 {
      if j < |a| {
        assert s[i] == a[i] && s[j] == a[j];
      } else if j == |a| {
        assert s[i] == a[i] && s[j] == (k, v);
      } else if i < |a| {
        assert s[i] == a[i] && s[j] == b[j - |a| - 1];
        assert a[i].0 < k < b[j - |a| - 1].0;
      } else if i == |a| {
        assert s[i] == (k, v) && s[j] == b[j - |a| - 1];
      } else {
        assert s[i] == b[i - |a| - 1] && s[j] == b[j - |a| - 1];
      }
    }
  }

  lemma AscendingMiddle<V>(a: seq<(int, V)>, b: seq<(int, V)>, c: seq<(int, V)>)
    requires Ascending(a + b + c)
    ensures Ascending(b)
  {
    var s := a + b + c;
    forall i, j | 0 <= i < j < |b| ensures b[i].0 < b[j].0 {
      assert s[|a| + i] == b[i] && s[|a| + j] == b[j];
    }
  }

  lemma AscendingHalves<V>(a: seq<(int, V)>, b: seq<(int, V)>)
    requires Ascending(a + b)
    ensures Ascending(a) && Ascending(b)
  {
    var s := a + b;
    forall i, j | 0 <= i < j < |a| ensures a[i].0 < a[j].0 {
      assert s[i] == a[i] && s[j] == a[j];
    }
    forall i, j | 0 <= i < j < |b| ensures b[i].0 < b[j].0 {
      assert s[|a| + i] == b[i] && s[|a| + j] == b[j];
    }
  }

  /** Elements of an ascending tree: everything left of a node is below its key,
      everything right of it above. */
  lemma AscendingTree<V>(t: Tree<V>)
    requires t.Node? && Ascending(Elements(t))
    ensures Ascending(Elements(t.left)) && Ascending(Elements(t.right))
    ensures AllBelow(Elements(t.left), t.key) && AllAbove(Elements(t.right), t.key)
  {
    AscendingNode(Elements(t.left), t.key, t.val, Elements(t.right));
  }

  // ---------------------------------------------------------------------------
  // The map an in-order sequence denotes

  /** Key-to-payload map of a sequence of pairs (a later pair wins, which never
      matters for ascending sequences). */
  ghost function MapOf<V>(s: seq<(int, V)>): map<int, V> {
    if s == [] then map[] else MapOf(s[..|s| - 1])[s[|s| - 1].0 := s[|s| - 1].1]
  }

  lemma {:induction false} MapOfConcat<V>(a: seq<(int, V)>, b: seq<(int, V)>)
    ensures MapOf(a + b) == MapOf(a) + MapOf(b)
    decreases |b|
  {
    if b == [] {
      assert a + b == a;
    } else {
      var b' := b[..|b| - 1];
      assert (a + b)[..|a + b| - 1] == a + b';
      MapOfConcat(a, b');
    }
  }

  /** A key that no pair carries is not in the map. */
  lemma {:induction false} MapOfAbsent<V>(s: seq<(int, V)>, k: int)
    requires forall i :: 0 <= i < |s| ==> s[i].0 != k
    ensures k !in MapOf(s)
    decreases |s|
  {
    if s != [] {
      MapOfAbsent(s[..|s| - 1], k);
    }
  }

  /** Every pair's key is in the map. */
  lemma {:induction false} MapOfPresent<V>(s: seq<(int, V)>, i: int)
    requires 0 <= i < |s|
    ensures s[i].0 in MapOf(s)
    decreases |s|
  {
    if i < |s| - 1 {
      MapOfPresent(s[..|s| - 1], i);
    }
  }

  lemma MapOfBelow<V>(s: seq<(int, V)>, k: int)
    requires AllBelow(s, k)
    ensures k !in MapOf(s)
  {
    MapOfAbsent(s, k);
  }

  lemma MapOfAbove<V>(s: seq<(int, V)>, k: int)
    requires AllAbove(s, k)
    ensures k !in MapOf(s)
  {
    MapOfAbsent(s, k);
  }

  /** Every key of the map is carried by some pair. */
  lemma {:induction false} MapOfKeys<V>(s: seq<(int, V)>, k: int)
    requires k in MapOf(s)
    ensures exists i :: 0 <= i < |s| && s[i].0 == k
    decreases |s|
  {
    if s[|s| - 1].0 != k {
      MapOfKeys(s[..|s| - 1], k);
      var i :| 0 <= i < |s| - 1 && s[..|s| - 1][i].0 == k;
      assert s[i].0 == k;
    }
  }

  /** An ascending sequence has as many keys as pairs. */
  lemma {:induction false} MapOfSize<V>(s: seq<(int, V)>)
    requires Ascending(s)
    ensures |MapOf(s)| == |s|
    decreases |s|
  {
    if s != [] {
      var s' := s[..|s| - 1];
      var last := s[|s| - 1];
      assert Ascending(s');
      MapOfSize(s');
      assert forall i :: 0 <= i < |s'| ==> s'[i].0 < last.0 by {
        forall i | 0 <= i < |s'| ensures s'[i].0 < last.0 {
          assert s'[i] == s[i];
        }
      }
      MapOfAbsent(s', last.0);
      assert MapOf(s).Keys == MapOf(s').Keys + {last.0};
    }
  }

  /** Lookup through a node: the map of `a + [(k, v)] + b` sends k to v when b lacks k. */
  lemma MapOfNode<V>(a: seq<(int, V)>, k: int, v: V, b: seq<(int, V)>)
    requires k !in MapOf(b)
    ensures MapOf(a + [(k, v)] + b) == MapOf(a + b)[k := v]
  {
    MapOfConcat(a + [(k, v)], b);
    MapOfConcat(a, b);
    assert (a + [(k, v)])[..|a + [(k, v)]| - 1] == a;
  }

  /** Removing the pair of a key that no other pair carries removes that key from the map. */
  lemma MapOfRemove<V>(a: seq<(int, V)>, k: int, v: V, b: seq<(int, V)>)
    requires k !in MapOf(a) && k !in MapOf(b)
    ensures MapOf(a + b) == MapOf(a + [(k, v)] + b) - {k}
  {
    MapOfNode(a, k, v, b);
    MapOfConcat(a, b);
  }

  /** In an ascending sequence the map gives every key the payload of its pair. */
  lemma MapOfAt<V>(s: seq<(int, V)>, i: int)
    requires Ascending(s) && 0 <= i < |s|
    ensures s[i].0 in MapOf(s) && MapOf(s)[s[i].0] == s[i].1
  {
    var a, b := s[..i], s[i + 1..];
    assert s == a + [(s[i].0, s[i].1)] + b;
    AscendingSplit(a, s[i].0, s[i].1, b);
    MapOfAbove(b, s[i].0);
    MapOfNode(a, s[i].0, s[i].1, b);
  }

  // ---------------------------------------------------------------------------
  // Red-black invariants

  /** How much a node of colour c adds to a black height. */
  function Weight(c: Color): nat {
    if c == Black then 1 else 0
  }

  /** `t` has black height n on every path down to the sentinel, and no red node
      inside it has a red child. */
  ghost predicate IsRB<V>(t: Tree<V>, n: nat) {
    match t
    case Nil => n == 0
    case Node(c, l, _, _, r) =>
      n >= Weight(c) && IsRB(l, n - Weight(c)) && IsRB(r, n - Weight(c)) &&
      (c == Red ==> ColorOf(l) == Black && ColorOf(r) == Black)
  }

  /** Black nodes on the leftmost path down to the sentinel. */
  ghost function BlackHeight<V>(t: Tree<V>): nat {
    match t
    case Nil => 0
    case Node(c, l, _, _, _) => BlackHeight(l) + Weight(c)
  }

  lemma {:induction false} IsRBHeight<V>(t: Tree<V>, n: nat)
    requires IsRB(t, n)
    ensures BlackHeight(t) == n
    decreases t
  {
    if t.Node? {
      IsRBHeight(t.left, n - Weight(t.color));
    }
  }

  /** The invariants after every public operation: black root, no red node with a
      red child, equal black count on every root-to-sentinel path. */
  ghost predicate RedBlack<V>(t: Tree<V>) {
    ColorOf(t) == Black && IsRB(t, BlackHeight(t))
  }

  /** Any subtree of black height n can be plugged into the hole of `p` without
      breaking the invariants of the ancestors, whatever the subtree's colour. */
  ghost predicate FitsBelow<V>(p: Path<V>, n: nat)
    decreases p, 1
  {
    match p
    case Top => true
    case LeftOf(c, _, _, r, up) =>
      IsRB(r, n) && (c == Red ==> ColorOf(r) == Black) && Fits(up, n + Weight(c), c)
    case RightOf(c, l, _, _, up) =>
      IsRB(l, n) && (c == Red ==> ColorOf(l) == Black) && Fits(up, n + Weight(c), c)
  }

  /** A subtree of black height n and root colour c can be plugged into the hole
      of `p` and the whole tree is red-black: a red root needs a black parent, and
      a red subtree cannot be the whole tree. */
  ghost predicate Fits<V>(p: Path<V>, n: nat, c: Color)
    decreases p, 2
  {
    FitsBelow(p, n) && (c == Red ==> p != Top && p.color == Black)
  }

  lemma {:induction false} PlugFits<V>(t: Tree<V>, p: Path<V>, n: nat)
    requires IsRB(t, n) && Fits(p, n, ColorOf(t))
    ensures RedBlack(Plug(t, p))
    decreases p
  {
    match p
    case Top =>
      IsRBHeight(t, n);
    case LeftOf(c, k, v, r, up) =>
      PlugFits(Node(c, t, k, v, r), up, n + Weight(c));
    case RightOf(c, l, k, v, up) =>
      PlugFits(Node(c, l, k, v, t), up, n + Weight(c));
  }

  lemma {:induction false} UnplugFits<V>(t: Tree<V>, p: Path<V>)
    requires RedBlack(Plug(t, p))
    ensures IsRB(t, BlackHeight(t)) && Fits(p, BlackHeight(t), ColorOf(t))
    decreases p
  {
    match p
    case Top =>
    case LeftOf(c, k, v, r, up) =>
      var parent := Node(c, t, k, v, r);
      UnplugFits(parent, up);
      IsRBHeight(t, BlackHeight(parent) - Weight(c));
    case RightOf(c, l, k, v, up) =>
      var parent := Node(c, l, k, v, t);
      UnplugFits(parent, up);
      IsRBHeight(t, BlackHeight(parent) - Weight(c));
  }

  /** Same colours and same siblings all the way up, keys and payloads aside. */
  ghost predicate SameShape<V>(p: Path<V>, p': Path<V>) {
    match p
    case Top => p'.Top?
    case LeftOf(c, _, _, r, up) =>
      p'.LeftOf? && p'.color == c && p'.right == r && SameShape(up, p'.up)
    case RightOf(c, l, _, _, up) =>
      p'.RightOf? && p'.color == c && p'.left == l && SameShape(up, p'.up)
  }

  lemma {:induction false} SameShapeFits<V>(p: Path<V>, p': Path<V>, n: nat, c: Color)
    requires SameShape(p, p')
    ensures FitsBelow(p, n) == FitsBelow(p', n) && Fits(p, n, c) == Fits(p', n, c)
    decreases p
  {
    match p
    case Top =>
    case LeftOf(pc, _, _, _, up) => SameShapeFits(up, p'.up, n + Weight(pc), pc);
    case RightOf(pc, _, _, _, up) => SameShapeFits(up, p'.up, n + Weight(pc), pc);
  }

  lemma {:induction false} SameShapeRefl<V>(p: Path<V>)
    ensures SameShape(p, p)
    decreases p
  {
    match p
    case Top =>
    case LeftOf(_, _, _, _, up) => SameShapeRefl(up);
    case RightOf(_, _, _, _, up) => SameShapeRefl(up);
  }

  lemma {:induction false} SameShapeExtend<V>(q: Path<V>, p: Path<V>, p': Path<V>)
    requires SameShape(p, p')
    ensures SameShape(Extend(q, p), Extend(q, p'))
    decreases q
  {
    match q
    case Top =>
    case LeftOf(_, _, _, _, up) => SameShapeExtend(up, p, p');
    case RightOf(_, _, _, _, up) => SameShapeExtend(up, p, p');
  }
}
