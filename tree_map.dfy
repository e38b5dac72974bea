/**
 * TreeMap.h: an AVL-style ordered map whose nodes carry `left`, `right`,
 * `parent` pointers and a balance factor `bf`.
 *
 * The node graph is an arena: node `n` has pointers `links[n]`, key `keys[n]`,
 * value `values[n]` and balance factor `bf[n]`. The ghost `shape` is the tree
 * those pointers spell out, so the map's contents are the in-order sequence of
 * `shape`. Keys are `int`s; `size` is a `size_t` and wraps modulo 2^64.
 */
module TreeMaps {
  import opened TreeShape
  import opened Rotations
  import opened SizeT

  /** The key of node `n`, and 0 for an id outside the arena. */
  function KeyOf(keys: seq<int>, n: int): int
  {
    if 0 <= n < |keys| then keys[n] else 0
  }

  /** The keys of the nodes `s` are in non-decreasing order (equal keys are allowed). */
  ghost predicate Ordered(keys: seq<int>, s: seq<nat>)
  {
    forall i, j | 0 <= i < j < |s| :: KeyOf(keys, s[i]) <= KeyOf(keys, s[j])
  }

  ghost predicate SortedKeys(ks: seq<int>)
  {
    forall i, j | 0 <= i < j < |ks| :: ks[i] <= ks[j]
  }

  ghost function Last(s: seq<nat>): int
  {
    if s == [] then Null else s[|s| - 1]
  }

  ghost function First(s: seq<nat>): int
  {
    if s == [] then Null else s[0]
  }

  /** The in-order predecessor of node `x` in the node sequence `s` (Null for the first one). */
  ghost function Before(s: seq<nat>, x: int): int
  {
    if |s| < 2 then Null
    else if s[|s| - 1] == x then s[|s| - 2]
    else Before(s[..|s| - 1], x)
  }

  /** The in-order successor of node `x` in the node sequence `s` (Null for the last one). */
  ghost function After(s: seq<nat>, x: int): int
  {
    if |s| < 2 then Null
    else if s[0] == x then s[1]
    else After(s[1..], x)
  }

  /**
   * The contents after inserting `(key, value)` into sorted contents: after every
   * entry whose key is not greater, before every entry whose key is greater.
   */
  ghost function InsertSorted<V>(items: seq<(int, V)>, key: int, value: V): seq<(int, V)>
  {
    if items == [] then [(key, value)]
    else if key < items[0].0 then [(key, value)] + items
    else [items[0]] + InsertSorted(items[1..], key, value)
  }

  // ---------------------------------------------------------------------------
  // Order along a tree.

  lemma OrderedSlice(keys: seq<int>, a: seq<nat>, b: seq<nat>, c: seq<nat>)
    requires Ordered(keys, a + b + c)
    ensures Ordered(keys, b) && Ordered(keys, a + c)
  {
    var s := a + b + c;
    forall i, j | 0 <= i < j < |b| ensures KeyOf(keys, b[i]) <= KeyOf(keys, b[j]) {
      assert b[i] == s[|a| + i] && b[j] == s[|a| + j];
    }
    var ac := a + c;
    forall i, j | 0 <= i < j < |ac| ensures KeyOf(keys, ac[i]) <= KeyOf(keys, ac[j]) {
      var i' := if i < |a| then i else i + |b|;
      var j' := if j < |a| then j else j + |b|;
      assert ac[i] == s[i'] && ac[j] == s[j'];
    }
  }

  lemma OrderedAround(keys: seq<int>, a: seq<nat>, x: nat, b: seq<nat>)
    requires Ordered(keys, a + [x] + b)
    ensures forall n | n in a :: KeyOf(keys, n) <= KeyOf(keys, x)
    ensures forall n | n in b :: KeyOf(keys, x) <= KeyOf(keys, n)
  {
    var s := a + [x] + b;
    assert s[|a|] == x;
    forall n | n in a ensures KeyOf(keys, n) <= KeyOf(keys, x) {
      var k :| 0 <= k < |a| && a[k] == n;
      assert s[k] == n;
    }
    forall n | n in b ensures KeyOf(keys, x) <= KeyOf(keys, n) {
      var k :| 0 <= k < |b| && b[k] == n;
      assert s[|a| + 1 + k] == n;
    }
  }

  /** Order at a node: its left subtree's keys are not greater, its right subtree's not smaller. */
  lemma OrderedSplit(keys: seq<int>, t: Tree)
    requires t.Br? && Ordered(keys, InOrder(t))
    ensures Ordered(keys, InOrder(t.l)) && Ordered(keys, InOrder(t.r))
    ensures forall n | n in Ids(t.l) :: KeyOf(keys, n) <= KeyOf(keys, t.id)
    ensures forall n | n in Ids(t.r) :: KeyOf(keys, t.id) <= KeyOf(keys, n)
  {
    var L, R := InOrder(t.l), InOrder(t.r);
    assert [] + L + ([t.id] + R) == InOrder(t);
    OrderedSlice(keys, [], L, [t.id] + R);
    assert L + [t.id] + R + [] == InOrder(t);
    OrderedSlice(keys, L + [t.id], R, []);
    OrderedAround(keys, L, t.id, R);
    InOrderIds(t.l);
    InOrderIds(t.r);
  }

  /** The node of a tree with the rightmost position: the last of its in-order sequence. */
  function MaxNode(links: seq<Link>, ghost t: Tree, ghost par: int, node: nat): (m: nat)
    requires Repr(t, links, par) && t.Br? && node == t.id
    ensures m in Ids(t) && m == Last(InOrder(t))
    decreases t
  {
    if links[node].right != Null then
      MaxNode(links, t.r, node, links[node].right)
    else
      node
  }

  /**
   * minNode as written: for a node with a left child it answers the rightmost node
   * of that left subtree, which is the node's in-order predecessor, not the minimum.
   */
  function MinNode(links: seq<Link>, ghost t: Tree, ghost par: int, node: int): (m: int)
    requires Repr(t, links, par) && Unique(t) && node == Root(t)
    ensures t.Nil? ==> m == Null
    ensures t.Br? && t.l.Nil? ==> m == t.id
    ensures t.Br? && t.l.Br? ==> m == Last(InOrder(t.l)) && m == Before(InOrder(t), t.id)
  {
    if node != Null && links[node].left != Null then
      var m := MaxNode(links, t.l, node, links[node].left);
      InOrderIds(t.l);
      InOrderIds(t.r);
      BeforeMiddle(InOrder(t.l), t.id, InOrder(t.r));
      m
    else
      node
  }

  /** The leftmost node, which minNode evidently means: the first of the in-order sequence. */
  function Leftmost(links: seq<Link>, ghost t: Tree, ghost par: int, node: int): (m: int)
    requires Repr(t, links, par) && node == Root(t)
    ensures m == First(InOrder(t))
    decreases t
  {
    if node != Null && links[node].left != Null then
      Leftmost(links, t.l, node, links[node].left)
    else
      node
  }

  /** Within `a + [x] + b` with `x` not in `a` or `b`, the predecessor of `x` is the last of `a`. */
  lemma BeforeMiddle(a: seq<nat>, x: nat, b: seq<nat>)
    requires x !in a && x !in b
    ensures Before(a + [x] + b, x) == Last(a)
    decreases |b|
  {
    var s := a + [x] + b;
    if b == [] {
      if |s| >= 2 {
        assert s[|s| - 1] == x && s[|s| - 2] == a[|a| - 1];
      } else {
        assert a == [];
      }
    } else {
      assert s[|s| - 1] == b[|b| - 1] != x;
      assert s[..|s| - 1] == a + [x] + b[..|b| - 1];
      BeforeMiddle(a, x, b[..|b| - 1]);
    }
  }

  /** The balance factors stay in -1..1. */
  ghost predicate Balances(bf: seq<int>)
  {
    forall n | 0 <= n < |bf| :: -1 <= bf[n] <= 1
  }

  /**
   * The arena lays out `shape` from `root` with distinct nodes, its keys are in
   * order along the in-order sequence, the balance factors are in range and the
   * counter fits a size_t.
   */
  ghost predicate Wellformed<V>(links: seq<Link>, keys: seq<int>, values: seq<V>, bf: seq<int>, root: int, size: nat, shape: Tree)
  {
    |keys| == |links| && |values| == |links| && |bf| == |links| &&
    Repr(shape, links, Null) && Unique(shape) && root == Root(shape) &&
    (forall n | n in Ids(shape) :: n < |links|) &&
    (forall k | 0 <= k < |InOrder(shape)| :: InOrder(shape)[k] < |links|) &&
    Ordered(keys, InOrder(shape)) && Balances(bf) && size < Wrap
  }

  // ---------------------------------------------------------------------------
  // The four rotations on the arena's fields; the TreeMap methods of the same
  // names store the results.

  /** rotateRR: the rotated shape is laid out, the contents keep their order, and the balance factors follow TreeMap.h:174-180. */
  method RotateRRArena<V>(links: seq<Link>, keys: seq<int>, values: seq<V>, bf: seq<int>, root: int, size: nat,
                          a: nat, ghost p: Path, ghost s: Tree)
    returns (ls: seq<Link>, top: int, bs: seq<int>)
    requires Wellformed(links, keys, values, bf, root, size, Plug(p, s)) && s.Br? && s.id == a && s.r.Br?
    ensures Wellformed(ls, keys, values, bs, top, size, Plug(p, ShapeRR(s)))
    ensures InOrder(Plug(p, ShapeRR(s))) == InOrder(Plug(p, s)) && Ids(Plug(p, ShapeRR(s))) == Ids(Plug(p, s))
    ensures |ls| == |links| && a < |bf| && s.r.id < |bf|
    ensures bs == if bf[s.r.id] == 0 then bf[s.r.id := -1][a := 1] else bf[s.r.id := 0][a := 0]
  {
    StartRR(p, s, links);
    var b := links[a].right;
    ls, top := RelinkRR(links, root, a, p, s);
    bs := bf;
    if bs[b] == 0 {
      bs := bs[b := -1];
      bs := bs[a := 1];
    } else {
      bs := bs[b := 0];
      bs := bs[a := 0];
    }
    ShapeRRKeepsOrder(s);
    PlugSame(p, s, ShapeRR(s));
  }

  /** rotateLL: the rotated shape is laid out, the contents keep their order, and the balance factors follow TreeMap.h:205-211. */
  method RotateLLArena<V>(links: seq<Link>, keys: seq<int>, values: seq<V>, bf: seq<int>, root: int, size: nat,
                          a: nat, ghost p: Path, ghost s: Tree)
    returns (ls: seq<Link>, top: int, bs: seq<int>)
    requires Wellformed(links, keys, values, bf, root, size, Plug(p, s)) && s.Br? && s.id == a && s.l.Br?
    ensures Wellformed(ls, keys, values, bs, top, size, Plug(p, ShapeLL(s)))
    ensures InOrder(Plug(p, ShapeLL(s))) == InOrder(Plug(p, s)) && Ids(Plug(p, ShapeLL(s))) == Ids(Plug(p, s))
    ensures |ls| == |links| && a < |bf| && s.l.id < |bf|
    ensures bs == if bf[s.l.id] == 0 then bf[s.l.id := 1][a := -1] else bf[s.l.id := 0][a := 0]
  {
    StartLL(p, s, links);
    var b := links[a].left;
    ls, top := RelinkLL(links, root, a, p, s);
    bs := bf;
    if bs[b] == 0 {
      bs := bs[b := 1];
      bs := bs[a := -1];
    } else {
      bs := bs[b := 0];
      bs := bs[a := 0];
    }
    ShapeLLKeepsOrder(s);
    PlugSame(p, s, ShapeLL(s));
  }

  /** rotateRL: the rotated shape is laid out, the contents keep their order, and the balance factors follow TreeMap.h:244-260. */
  method RotateRLArena<V>(links: seq<Link>, keys: seq<int>, values: seq<V>, bf: seq<int>, root: int, size: nat,
                          a: nat, ghost p: Path, ghost s: Tree)
    returns (ls: seq<Link>, top: int, bs: seq<int>)
    requires Wellformed(links, keys, values, bf, root, size, Plug(p, s)) && s.Br? && s.id == a && s.r.Br? && s.r.l.Br?
    ensures Wellformed(ls, keys, values, bs, top, size, Plug(p, ShapeRL(s)))
    ensures InOrder(Plug(p, ShapeRL(s))) == InOrder(Plug(p, s)) && Ids(Plug(p, ShapeRL(s))) == Ids(Plug(p, s))
    ensures |ls| == |links| && a < |bf| && s.r.id < |bf| && s.r.l.id < |bf|
    ensures bs == bf[a := if bf[s.r.l.id] < 0 then 1 else 0][s.r.id := if bf[s.r.l.id] > 0 then -1 else 0][s.r.l.id := 0]
  {
    StartRL(p, s, links);
    var b := links[a].right;
    var c := links[b].left;
    ls, top := RelinkRL(links, root, a, p, s);
    bs := bf;
    if bs[c] < 0 {
      bs := bs[a := 1];
      bs := bs[b := 0];
    } else if bs[c] == 0 {
      bs := bs[a := 0];
      bs := bs[b := 0];
    } else {
      bs := bs[a := 0];
      bs := bs[b := -1];
    }
    bs := bs[c := 0];
    ShapeRLKeepsOrder(s);
    PlugSame(p, s, ShapeRL(s));
  }

  /** rotateLR: the rotated shape is laid out, the contents keep their order, and the balance factors follow TreeMap.h:293-309. */
  method RotateLRArena<V>(links: seq<Link>, keys: seq<int>, values: seq<V>, bf: seq<int>, root: int, size: nat,
                          a: nat, ghost p: Path, ghost s: Tree)
    returns (ls: seq<Link>, top: int, bs: seq<int>)
    requires Wellformed(links, keys, values, bf, root, size, Plug(p, s)) && s.Br? && s.id == a && s.l.Br? && s.l.r.Br?
    ensures Wellformed(ls, keys, values, bs, top, size, Plug(p, ShapeLR(s)))
    ensures InOrder(Plug(p, ShapeLR(s))) == InOrder(Plug(p, s)) && Ids(Plug(p, ShapeLR(s))) == Ids(Plug(p, s))
    ensures |ls| == |links| && a < |bf| && s.l.id < |bf| && s.l.r.id < |bf|
    ensures bs == bf[a := if bf[s.l.r.id] > 0 then 1 else 0][s.l.id := if bf[s.l.r.id] < 0 then -1 else 0][s.l.r.id := 0]
  {
    StartLR(p, s, links);
    var b := links[a].left;
    var c := links[b].right;
    ls, top := RelinkLR(links, root, a, p, s);
    bs := bf;
    if bs[c] < 0 {
      bs := bs[a := 0];
      bs := bs[b := -1];
    } else if bs[c] == 0 {
      bs := bs[a := 0];
      bs := bs[b := 0];
    } else {
      bs := bs[a := 1];
      bs := bs[b := 0];
    }
    bs := bs[c := 0];
    ShapeLRKeepsOrder(s);
    PlugSame(p, s, ShapeLR(s));
  }

  // ---------------------------------------------------------------------------
  // insert (TreeMap.h:65-150), in four steps on the arena's fields.

  /** The entries of the nodes `s`, in that order. */
  ghost function Entries<V>(keys: seq<int>, values: seq<V>, s: seq<nat>): (r: seq<(int, V)>)
    requires forall k | 0 <= k < |s| :: s[k] < |keys| && s[k] < |values|
    ensures |r| == |s| && forall k | 0 <= k < |s| :: r[k] == (keys[s[k]], values[s[k]])
  {
    seq(|s|, k requires 0 <= k < |s| => (keys[s[k]], values[s[k]]))
  }

  /** Ids below `bound` index into parallel sequences of that length. */
  lemma IdsBelow(s: seq<nat>, t: Tree, bound: int)
    requires forall n | n in Ids(t) :: n < bound
    requires s == InOrder(t)
    ensures forall k | 0 <= k < |s| :: s[k] < bound
  {
    InOrderIds(t);
    assert forall k | 0 <= k < |s| :: s[k] in s;
  }

  /** Inserting between the entries with keys not greater and those with greater keys. */
  lemma {:induction false} InsertSortedBetween<V>(xs: seq<(int, V)>, ys: seq<(int, V)>, key: int, value: V)
    requires forall k | 0 <= k < |xs| :: xs[k].0 <= key
    requires forall k | 0 <= k < |ys| :: key < ys[k].0
    ensures InsertSorted(xs + ys, key, value) == xs + [(key, value)] + ys
    decreases |xs|
  {
    if xs == [] {
      assert xs + ys == ys && xs + [(key, value)] + ys == [(key, value)] + ys;
    } else {
      assert (xs + ys)[0] == xs[0] && (xs + ys)[1..] == xs[1..] + ys;
      InsertSortedBetween(xs[1..], ys, key, value);
      assert xs + [(key, value)] + ys == [xs[0]] + (xs[1..] + [(key, value)] + ys);
    }
  }

  /**
   * The descent of insert (TreeMap.h:74-94): left when `key` is smaller than the
   * node's key, right otherwise, until the child on that side is null. Every node
   * before the hole it stops at has a key not greater than `key`, every node after
   * it a greater key.
   */
  method Descend(links: seq<Link>, keys: seq<int>, root: nat, ghost shape: Tree, key: int)
    returns (p: nat, left: bool, ghost path: Path)
    requires Repr(shape, links, Null) && root == Root(shape) && Ordered(keys, InOrder(shape))
    ensures shape == Plug(path, Nil) && path != [] && p == path[0].id && left == path[0].InLeft?
    ensures p < |links| && (if left then links[p].left == Null else links[p].right == Null)
    ensures left <==> key < KeyOf(keys, p)
    ensures forall n | n in CtxBefore(path) :: KeyOf(keys, n) <= key
    ensures forall n | n in CtxAfter(path) :: key < KeyOf(keys, n)
  {
    p := root;
    ghost var sub := shape;
    path := [];
    while true
      invariant shape == Plug(path, sub) && sub.Br? && sub.id == p
      invariant Repr(sub, links, Up(path)) && Ordered(keys, InOrder(sub))
      invariant forall n | n in CtxBefore(path) :: KeyOf(keys, n) <= key
      invariant forall n | n in CtxAfter(path) :: key < KeyOf(keys, n)
      decreases sub
    {
      OrderedSplit(keys, sub);
      InOrderIds(sub.l);
      InOrderIds(sub.r);
      ghost var outer := path;
      if key < KeyOf(keys, p) {
        path := [InLeft(p, sub.r)] + outer;
        assert path[1..] == outer;
        assert CtxAfter(path) == [p] + InOrder(sub.r) + CtxAfter(outer);
        if links[p].left == Null {
          left := true;
          return;
        }
        p, sub := links[p].left, sub.l;
      } else {
        path := [InRight(sub.l, p)] + outer;
        assert path[1..] == outer;
        assert CtxBefore(path) == CtxBefore(outer) + InOrder(sub.l) + [p];
        if links[p].right == Null {
          left := false;
          return;
        }
        p, sub := links[p].right, sub.r;
      }
    }
  }

  /**
   * The new node `|links|` is created with null links, hung into the hole as the
   * chosen child of `p`, and given `p` as parent (TreeMap.h:68, 80, 88, 95).
   */
  method Attach(links: seq<Link>, p: nat, left: bool, ghost path: Path) returns (ls: seq<Link>)
    requires Repr(Plug(path, Nil), links, Null) && Unique(Plug(path, Nil))
    requires path != [] && p == path[0].id && left == path[0].InLeft?
    ensures Repr(Plug(path, Br(Nil, |links|, Nil)), ls, Null) && Unique(Plug(path, Br(Nil, |links|, Nil)))
    ensures |ls| == |links| + 1 && ls[|links|] == Link(Null, Null, p) && p < |links|
    ensures ls[p] == if left then links[p].(left := |links|) else links[p].(right := |links|)
    ensures forall i | 0 <= i < |links| && i != p :: ls[i] == links[i]
  {
    Surroundings(path, Nil, links);
    var n := |links|;
    ls := links + [Link(Null, Null, Null)];
    if left {
      ls := ls[p := ls[p].(left := n)];
    } else {
      ls := ls[p := ls[p].(right := n)];
    }
    ls := ls[n := ls[n].(parent := p)];
    PlugReplace(path, Nil, Br(Nil, n, Nil), links, ls);
  }

  /** A key placed between the keys not greater and the greater ones keeps the order. */
  lemma OrderedHang(keys: seq<int>, B: seq<nat>, A: seq<nat>, key: int)
    requires Ordered(keys, B + A)
    requires forall k | 0 <= k < |B| :: B[k] < |keys| && KeyOf(keys, B[k]) <= key
    requires forall k | 0 <= k < |A| :: A[k] < |keys| && key < KeyOf(keys, A[k])
    ensures Ordered(keys + [key], B + [|keys|] + A)
  {
    var ks, s, s' := keys + [key], B + A, B + [|keys|] + A;
    forall i, j | 0 <= i < j < |s'| ensures KeyOf(ks, s'[i]) <= KeyOf(ks, s'[j]) {
      if j == |B| {
        assert s'[i] == B[i];
      } else if i == |B| {
        assert s'[j] == A[j - |B| - 1];
      } else if j < |B| {
        assert s'[i] == s[i] == B[i] && s'[j] == s[j] == B[j];
      } else if i > |B| {
        assert s'[i] == s[i - 1] == A[i - |B| - 1] && s'[j] == s[j - 1] == A[j - |B| - 1];
      } else {
        assert s'[i] == B[i] && s'[j] == A[j - |B| - 1];
      }
    }
  }

  lemma Around(keys: seq<int>, B: seq<nat>, A: seq<nat>, key: int)
    requires forall n | n in B + A :: n < |keys|
    requires forall n | n in B :: KeyOf(keys, n) <= key
    requires forall n | n in A :: key < KeyOf(keys, n)
    ensures forall k | 0 <= k < |B| :: B[k] < |keys| && KeyOf(keys, B[k]) <= key
    ensures forall k | 0 <= k < |A| :: A[k] < |keys| && key < KeyOf(keys, A[k])
  {
    assert forall k | 0 <= k < |B| :: B[k] in B && B[k] in B + A;
    assert forall k | 0 <= k < |A| :: A[k] in A && A[k] in B + A;
  }

  /** The keys' order and the node set once the new node `|keys|` fills the hole. */
  lemma HangOrder(keys: seq<int>, path: Path, key: int)
    requires forall n | n in Ids(Plug(path, Nil)) :: n < |keys|
    requires Ordered(keys, InOrder(Plug(path, Nil)))
    requires forall n | n in CtxBefore(path) :: KeyOf(keys, n) <= key
    requires forall n | n in CtxAfter(path) :: key < KeyOf(keys, n)
    ensures InOrder(Plug(path, Br(Nil, |keys|, Nil))) == CtxBefore(path) + [|keys|] + CtxAfter(path)
    ensures InOrder(Plug(path, Nil)) == CtxBefore(path) + CtxAfter(path)
    ensures Ordered(keys + [key], InOrder(Plug(path, Br(Nil, |keys|, Nil))))
  {
    var B, A, leaf := CtxBefore(path), CtxAfter(path), Br(Nil, |keys|, Nil);
    assert InOrder(leaf) == [|keys|] by {
      assert InOrder(Nil) == [];
      assert [] + [|keys|] + [] == [|keys|];
    }
    PlugInOrder(path, Nil);
    PlugInOrder(path, leaf);
    assert InOrder(Plug(path, Nil)) == B + A by {
      assert B + [] + A == B + A;
    }
    HangBounds(keys, path, key);
    OrderedHang(keys, B, A, key);
  }

  /** The nodes on either side of the hole, by index. */
  lemma HangBounds(keys: seq<int>, path: Path, key: int)
    requires forall n | n in Ids(Plug(path, Nil)) :: n < |keys|
    requires forall n | n in CtxBefore(path) :: KeyOf(keys, n) <= key
    requires forall n | n in CtxAfter(path) :: key < KeyOf(keys, n)
    ensures forall k | 0 <= k < |CtxBefore(path)| :: CtxBefore(path)[k] < |keys| && KeyOf(keys, CtxBefore(path)[k]) <= key
    ensures forall k | 0 <= k < |CtxAfter(path)| :: CtxAfter(path)[k] < |keys| && key < KeyOf(keys, CtxAfter(path)[k])
  {
    var B, A := CtxBefore(path), CtxAfter(path);
    PlugInOrder(path, Nil);
    assert InOrder(Plug(path, Nil)) == B + A by {
      assert InOrder(Nil) == [];
      assert B + [] + A == B + A;
    }
    InOrderIds(Plug(path, Nil));
    Around(keys, B, A, key);
  }

  /** The node set once the new node `n` fills the hole. */
  lemma HangIds(path: Path, n: nat)
    ensures Ids(Plug(path, Br(Nil, n, Nil))) == Ids(Plug(path, Nil)) + {n}
  {
    PlugIds(path, Nil);
    PlugIds(path, Br(Nil, n, Nil));
    assert Ids(Br(Nil, n, Nil)) == {n};
  }

  /** The contents once the new entry's node sits between `B` and `A`. */
  lemma HangEntries<V>(keys: seq<int>, values: seq<V>, B: seq<nat>, A: seq<nat>, key: int, value: V)
    requires |values| == |keys|
    requires forall k | 0 <= k < |B| :: B[k] < |keys| && KeyOf(keys, B[k]) <= key
    requires forall k | 0 <= k < |A| :: A[k] < |keys| && key < KeyOf(keys, A[k])
    ensures forall k | 0 <= k < |B + A| :: (B + A)[k] < |keys|
    ensures forall k | 0 <= k < |B + [|keys|] + A| :: (B + [|keys|] + A)[k] < |keys| + 1
    ensures Entries(keys + [key], values + [value], B + [|keys|] + A) == InsertSorted(Entries(keys, values, B + A), key, value)
  {
    var n, ks, vs := |keys|, keys + [key], values + [value];
    var xs, ys := Entries(keys, values, B), Entries(keys, values, A);
    assert Entries(keys, values, B + A) == xs + ys;
    assert Entries(ks, vs, B + [n] + A) == xs + [(key, value)] + ys;
    InsertSortedBetween(xs, ys, key, value);
  }

  /** The balance factor a node gets when the tree below it grew on the side of the hole. */
  function Lean(f: Frame): int
  {
    if f.InLeft? then 1 else -1
  }

  lemma {:induction false} CtxIdsHas(p: Path, j: nat)
    requires j < |p|
    ensures p[j].id in CtxIds(p)
    decreases j
  {
    if j > 0 {
      CtxIdsHas(p[1..], j - 1);
      assert p[1..][j - 1] == p[j];
    }
  }

  /** The nodes along a path are distinct. */
  lemma {:induction false} CtxDistinct(p: Path, i: nat, j: nat)
    requires CtxUnique(p) && i < j < |p|
    ensures p[i].id != p[j].id
    decreases i
  {
    if i == 0 {
      CtxIdsHas(p[1..], j - 1);
      assert p[1..][j - 1] == p[j];
    } else {
      CtxDistinct(p[1..], i - 1, j - 1);
      assert p[1..][i - 1] == p[i] && p[1..][j - 1] == p[j];
    }
  }

  /** The nodes along the path to a subtree are nodes of the whole layout. */
  lemma PathBounds(np: Path, s: Tree, links: seq<Link>)
    requires Repr(Plug(np, s), links, Null)
    ensures forall j | 0 <= j < |np| :: np[j].id < |links|
  {
    PlugIds(np, s);
    ReprBounds(Plug(np, s), links, Null);
    forall j | 0 <= j < |np| ensures np[j].id < |links| {
      CtxIdsHas(np, j);
    }
  }

  /** One frame further out along a path. */
  lemma PlugStep(np: Path, k: nat, sub: Tree)
    requires k < |np|
    ensures Plug(np[k..], sub) == Plug(np[k + 1..], Fill(np[k], sub)) && np[k].id == Up(np[k..])
  {
    var pp := np[k..];
    assert pp[0] == np[k] && pp[1..] == np[k + 1..];
  }

  /** The links at the hole's frame: which side the hole is on, and the frame's parent. */
  lemma StepLinks(pp: Path, sub: Tree, links: seq<Link>)
    requires Repr(Plug(pp, sub), links, Null) && Unique(Plug(pp, sub)) && pp != [] && sub.Br?
    ensures pp[0].id < |links|
    ensures links[pp[0].id].left == sub.id <==> pp[0].InLeft?
    ensures links[pp[0].id].parent == Up(pp[1..])
  {
    HoleSide(pp, sub, links);
    PlugRepr(pp[1..], Fill(pp[0], sub), links);
  }

  /** The node just below frame `j` on the path to the new node `n`. */
  ghost function Child(np: Path, j: nat, n: nat): nat
    requires j < |np|
  {
    if j == 0 then n else np[j - 1].id
  }

  /**
   * The pointers along the path from the new node `n` up to the root: every node's
   * parent is the next frame's node, its child on the side of the hole is the node
   * below it, and the nodes are distinct.
   */
  ghost predicate Chain(links: seq<Link>, np: Path, n: nat)
  {
    (forall j | 0 <= j < |np| :: np[j].id < |links|) &&
    (forall j {:trigger links[np[j].id]} | 0 <= j < |np| ::
       np[j].id < |links| && links[np[j].id].parent == Up(np[j + 1..]) &&
       (links[np[j].id].left == Child(np, j, n) <==> np[j].InLeft?) &&
       (np[j].InRight? ==> links[np[j].id].right == Child(np, j, n))) &&
    (forall i, j | 0 <= i < j < |np| :: np[i].id != np[j].id)
  }

  /** Cutting a path in two: the inner part builds a subtree that the outer part holds. */
  lemma {:induction false} PlugSplit(np: Path, j: nat, s: Tree)
    requires j <= |np|
    ensures Plug(np, s) == Plug(np[j..], Plug(np[..j], s))
    ensures 0 < j && s.Br? ==> Plug(np[..j], s).Br? && Plug(np[..j], s).id == np[j - 1].id
    decreases j
  {
    if j == 0 {
      assert np[0..] == np && np[..0] == [];
    } else {
      PlugSplit(np, j - 1, s);
      assert np[..j] == np[..j - 1] + [np[j - 1]];
      PlugSnoc(np[..j - 1], np[j - 1], s);
      PlugStep(np, j - 1, Plug(np[..j - 1], s));
    }
  }

  lemma ChainOf(np: Path, leaf: Tree, links: seq<Link>)
    requires Repr(Plug(np, leaf), links, Null) && Unique(Plug(np, leaf)) && leaf.Br?
    ensures Chain(links, np, leaf.id)
  {
    forall j | 0 <= j < |np|
      ensures np[j].id < |links| && links[np[j].id].parent == Up(np[j + 1..])
      ensures links[np[j].id].left == Child(np, j, leaf.id) <==> np[j].InLeft?
      ensures np[j].InRight? ==> links[np[j].id].right == Child(np, j, leaf.id)
    {
      PlugSplit(np, j, leaf);
      var sub := Plug(np[..j], leaf);
      PlugStep(np, j, sub);
      StepLinks(np[j..], sub, links);
      PlugRepr(np[j + 1..], Fill(np[j], sub), links);
    }
    PlugUnique(np, leaf);
    forall i, j | 0 <= i < j < |np| ensures np[i].id != np[j].id {
      CtxDistinct(np, i, j);
    }
  }

  /** One frame of the chain: its node, its parent link, and the side its child hangs on. */
  lemma ChainAt(links: seq<Link>, np: Path, n: nat, k: nat)
    requires Chain(links, np, n) && k < |np|
    ensures np[k].id < |links| && Up(np[k..]) == np[k].id && Child(np, k, n) == (if k == 0 then n else np[k - 1].id)
    ensures links[np[k].id].parent == Up(np[k + 1..])
    ensures links[np[k].id].left == Child(np, k, n) <==> np[k].InLeft?
    ensures forall j | 0 <= j < |np| && j != k :: np[j].id != np[k].id
  {
    assert np[k..][0] == np[k];
  }

  /**
   * The balance factors once the walk up the path has passed frames 1 .. k-1: each
   * of their nodes is set by the side of the hole, 1 for left and -1 for right.
   */
  ghost function Walked(bf: seq<int>, np: Path, k: nat): (r: seq<int>)
    requires k <= |np| && forall j | 0 <= j < |np| :: np[j].id < |bf|
    ensures |r| == |bf|
    decreases k
  {
    if k <= 1 then bf else Walked(bf, np, k - 1)[np[k - 1].id := Lean(np[k - 1])]
  }

  /** One more frame of the walk sets that frame's node by its side. */
  lemma WalkedStep(bf: seq<int>, np: Path, k: nat)
    requires 1 <= k < |np| && forall j | 0 <= j < |np| :: np[j].id < |bf|
    ensures Walked(bf, np, k + 1) == Walked(bf, np, k)[np[k].id := Lean(np[k])]
  {
  }

  /** The walk leaves every node off its first `k` frames alone. */
  lemma {:induction false} WalkedElsewhere(bf: seq<int>, np: Path, k: nat, i: nat)
    requires k <= |np| && (forall j | 0 <= j < |np| :: np[j].id < |bf|) && i < |bf|
    requires forall j | 0 <= j < k :: np[j].id != i
    ensures Walked(bf, np, k)[i] == bf[i]
    decreases k
  {
    if k > 1 {
      WalkedElsewhere(bf, np, k - 1, i);
    }
  }

  /** On a path of distinct nodes, each node the walk passed has the bf of its side. */
  lemma {:induction false} WalkedOn(bf: seq<int>, np: Path, k: nat, j: nat)
    requires k <= |np| && (forall j | 0 <= j < |np| :: np[j].id < |bf|)
    requires forall i, j | 0 <= i < j < |np| :: np[i].id != np[j].id
    requires 1 <= j < k
    ensures Walked(bf, np, k)[np[j].id] == Lean(np[j])
    decreases k
  {
    if j < k - 1 {
      WalkedOn(bf, np, k - 1, j);
    }
  }

  lemma {:induction false} WalkedBalances(bf: seq<int>, np: Path, k: nat)
    requires k <= |np| && (forall j | 0 <= j < |np| :: np[j].id < |bf|) && Balances(bf)
    ensures Balances(Walked(bf, np, k))
    decreases k
  {
    if k > 1 {
      WalkedBalances(bf, np, k - 1);
    }
  }

  /**
   * The balance-factor walk of insert (TreeMap.h:97-125), for the new node `n`
   * hanging at the hole of `np`: the parent's bf is reset to 0 if it was nonzero and
   * set by the side of the new node otherwise; then, whatever happened there, every
   * ancestor up to the first with a nonzero bf is set by the side the walk came from.
   * It stops with `r`, that ancestor (Null at the top), and `p`, its child on the walk.
   */
  method Retrace(links: seq<Link>, bf: seq<int>, p0: nat, n: nat, ghost np: Path)
    returns (bs: seq<int>, p: nat, r: int, ghost k: nat)
    requires Chain(links, np, n) && |bf| == |links| && Balances(bf) && np != [] && p0 == np[0].id
    ensures 1 <= k <= |np| && p == np[k - 1].id && r == Up(np[k..])
    ensures bs == Walked(bf[p0 := if bf[p0] != 0 then 0 else Lean(np[0])], np, k)
    ensures forall j | 1 <= j < k :: bf[np[j].id] == 0
    ensures r != Null ==> r < |bf| && bs[r] == bf[r] != 0
    ensures Balances(bs)
    ensures (bs[p] == 1 ==> links[p].left != Null) && (bs[p] == -1 ==> links[p].right != Null)
  {
    var b1 := bf;
    if b1[p0] == 1 || b1[p0] == -1 {
      b1 := b1[p0 := 0];
    } else if links[p0].left == n {
      b1 := b1[p0 := 1];
    } else {
      ChainAt(links, np, n, 0);
      b1 := b1[p0 := -1];
    }
    bs, p, r, k := Climb(links, b1, p0, np, n);
    forall j | 1 <= j < k ensures bf[np[j].id] == 0 {
      ChainAt(links, np, n, j);
    }
    if r != Null {
      ChainAt(links, np, n, k);
    }
  }

  /**
   * The loop of the walk above (TreeMap.h:107-125), from the parent of the new node:
   * while the next ancestor's bf is 0 it is set by the side the walk came from.
   */
  method Climb(links: seq<Link>, bf: seq<int>, p0: nat, ghost np: Path, ghost n: nat)
    returns (bs: seq<int>, p: nat, r: int, ghost k: nat)
    requires Chain(links, np, n) && |bf| == |links| && Balances(bf) && np != [] && p0 == np[0].id
    requires (bf[np[0].id] == 1 ==> links[np[0].id].left != Null) && (bf[np[0].id] == -1 ==> links[np[0].id].right != Null)
    ensures 1 <= k <= |np| && p == np[k - 1].id && r == Up(np[k..])
    ensures bs == Walked(bf, np, k)
    ensures forall j | 1 <= j < k :: bf[np[j].id] == 0
    ensures r != Null ==> r < |bf| && bs[r] == bf[r] != 0
    ensures Balances(bs)
    ensures (bs[p] == 1 ==> links[p].left != Null) && (bs[p] == -1 ==> links[p].right != Null)
  {
    bs := bf;
    p, k := p0, 1;
    r := links[p].parent;
    while r != Null && bs[r] == 0
      invariant 1 <= k <= |np| && p == np[k - 1].id && r == Up(np[k..])
      invariant bs == Walked(bf, np, k)
      invariant forall j | 1 <= j < k :: bf[np[j].id] == 0
      invariant (bs[p] == 1 ==> links[p].left != Null) && (bs[p] == -1 ==> links[p].right != Null)
      decreases |np| - k
    {
      ChainAt(links, np, n, k);
      WalkedElsewhere(bf, np, k, r);
      WalkedStep(bf, np, k);
      bs := bs[r := if links[r].left == p then 1 else -1];
      p, k := r, k + 1;
      r := links[p].parent;
    }
    WalkedBalances(bf, np, k);
    if r != Null {
      ChainAt(links, np, n, k);
      WalkedElsewhere(bf, np, k, r);
    }
  }

  /**
   * The rotation dispatch at the end of insert (TreeMap.h:127-147). The walk stopped
   * at `r` with nonzero bf, coming up from its child `p`: if `p` is on the lighter
   * side, r's bf becomes 0; otherwise a single or double rotation at `r` is chosen
   * by p's bf. A walk that reached the top changes nothing.
   */
  method Fixup<V>(links: seq<Link>, keys: seq<int>, values: seq<V>, bf: seq<int>, root: int, size: nat,
                  p: nat, r: int, ghost pp: Path, ghost sub: Tree)
    returns (ls: seq<Link>, top: int, bs: seq<int>, ghost shape: Tree)
    requires Wellformed(links, keys, values, bf, root, size, Plug(pp, sub))
    requires p < |bf| && r < |bf|
    requires sub.Br? && sub.id == p && r == Up(pp) && (r != Null ==> bf[r] != 0)
    requires (bf[p] == 1 ==> sub.l.Br?) && (bf[p] == -1 ==> sub.r.Br?)
    ensures Wellformed(ls, keys, values, bs, top, size, shape) && |ls| == |links|
    ensures InOrder(shape) == InOrder(Plug(pp, sub)) && Ids(shape) == Ids(Plug(pp, sub))
    ensures r == Null ==> ls == links && bs == bf && shape == Plug(pp, sub)
    ensures r != Null ==> pp != []
    ensures r != Null && (bf[r] == 1) == pp[0].InRight? ==> ls == links && bs == bf[r := 0] && shape == Plug(pp, sub)
    ensures r != Null && bf[r] == 1 && pp[0].InLeft? ==>
      shape == Plug(pp[1..], if bf[p] == -1 then ShapeLR(Fill(pp[0], sub)) else ShapeLL(Fill(pp[0], sub)))
    ensures r != Null && bf[r] == -1 && pp[0].InRight? ==>
      shape == Plug(pp[1..], if bf[p] == 1 then ShapeRL(Fill(pp[0], sub)) else ShapeRR(Fill(pp[0], sub)))
  {
    ls, top, bs, shape := links, root, bf, Plug(pp, sub);
    if r == Null {
      return;
    }
    HoleSide(pp, sub, links);
    ghost var s := Fill(pp[0], sub);
    assert Plug(pp, sub) == Plug(pp[1..], s);
    var a: nat := r;
    if bs[a] == 1 {
      if links[a].right == p {
        bs := bs[a := 0];
      } else if bs[p] == -1 {
        ls, top, bs := RotateLRArena(links, keys, values, bf, root, size, a, pp[1..], s);
        shape := Plug(pp[1..], ShapeLR(s));
      } else {
        ls, top, bs := RotateLLArena(links, keys, values, bf, root, size, a, pp[1..], s);
        shape := Plug(pp[1..], ShapeLL(s));
      }
    } else {
      if links[a].left == p {
        bs := bs[a := 0];
      } else if bs[p] == 1 {
        ls, top, bs := RotateRLArena(links, keys, values, bf, root, size, a, pp[1..], s);
        shape := Plug(pp[1..], ShapeRL(s));
      } else {
        ls, top, bs := RotateRRArena(links, keys, values, bf, root, size, a, pp[1..], s);
        shape := Plug(pp[1..], ShapeRR(s));
      }
    }
  }

  /**
   * The first half of insert (TreeMap.h:67-95) below a non-null root: the descent,
   * and the new node `|links|` hung as a leaf with `(key, value)` and bf 0.
   */
  method Hang<V>(links: seq<Link>, keys: seq<int>, values: seq<V>, bf: seq<int>, root: nat, size: nat,
                 ghost shape: Tree, key: int, value: V)
    returns (ls: seq<Link>, p: nat, ghost path: Path)
    requires Wellformed(links, keys, values, bf, root, size, shape)
    ensures path != [] && p == path[0].id
    ensures Wellformed(ls, keys + [key], values + [value], bf + [0], root, size, Plug(path, Br(Nil, |links|, Nil)))
    ensures Ids(Plug(path, Br(Nil, |links|, Nil))) == Ids(shape) + {|links|}
    ensures |InOrder(Plug(path, Br(Nil, |links|, Nil)))| == |InOrder(shape)| + 1
    ensures Entries(keys + [key], values + [value], InOrder(Plug(path, Br(Nil, |links|, Nil))))
         == InsertSorted(Entries(keys, values, InOrder(shape)), key, value)
  {
    var left;
    p, left, path := Descend(links, keys, root, shape, key);
    ls := Attach(links, p, left, path);
    Hung(links, ls, keys, values, bf, root, size, path, key, value);
  }

  /** The arena after the hang: the new leaf sits between its in-order neighbours. */
  lemma Hung<V>(links: seq<Link>, ls: seq<Link>, keys: seq<int>, values: seq<V>, bf: seq<int>, root: nat, size: nat,
                path: Path, key: int, value: V)
    requires Wellformed(links, keys, values, bf, root, size, Plug(path, Nil)) && |ls| == |links| + 1
    requires Repr(Plug(path, Br(Nil, |links|, Nil)), ls, Null) && Unique(Plug(path, Br(Nil, |links|, Nil)))
    requires forall n | n in CtxBefore(path) :: KeyOf(keys, n) <= key
    requires forall n | n in CtxAfter(path) :: key < KeyOf(keys, n)
    ensures Wellformed(ls, keys + [key], values + [value], bf + [0], root, size, Plug(path, Br(Nil, |links|, Nil)))
    ensures Ids(Plug(path, Br(Nil, |links|, Nil))) == Ids(Plug(path, Nil)) + {|links|}
    ensures |InOrder(Plug(path, Br(Nil, |links|, Nil)))| == |InOrder(Plug(path, Nil))| + 1
    ensures Entries(keys + [key], values + [value], InOrder(Plug(path, Br(Nil, |links|, Nil))))
         == InsertSorted(Entries(keys, values, InOrder(Plug(path, Nil))), key, value)
  {
    var n := |links|;
    HangOrder(keys, path, key);
    HangBounds(keys, path, key);
    HangIds(path, n);
    HangEntries(keys, values, CtxBefore(path), CtxAfter(path), key, value);
    PlugRoot(path, Nil, Br(Nil, n, Nil));
    assert Balances(bf + [0]);
  }

  /**
   * The second half of insert (TreeMap.h:97-147) once the leaf `n` hangs at the hole
   * of `path`: the balance-factor walk and the rotation dispatch. The entries and
   * their order stay as they are.
   */
  method Settle<V>(links: seq<Link>, keys: seq<int>, values: seq<V>, bf: seq<int>, root: int, size: nat,
                   p: nat, n: nat, ghost path: Path)
    returns (ls: seq<Link>, top: int, bs: seq<int>, ghost shape: Tree)
    requires Wellformed(links, keys, values, bf, root, size, Plug(path, Br(Nil, n, Nil)))
    requires path != [] && p == path[0].id
    ensures Wellformed(ls, keys, values, bs, top, size, shape) && |ls| == |links|
    ensures InOrder(shape) == InOrder(Plug(path, Br(Nil, n, Nil))) && Ids(shape) == Ids(Plug(path, Br(Nil, n, Nil)))
  {
    ghost var leaf := Br(Nil, n, Nil);
    ChainOf(path, leaf, links);
    var b: seq<int>, q: nat, r: int, k: nat := Retrace(links, bf, p, n, path);
    ghost var sub := Plug(path[..k], leaf);
    PlugSplit(path, k, leaf);
    Surroundings(path[k..], sub, links);
    ls, top, bs, shape := Fixup(links, keys, values, b, root, size, q, r, path[k..], sub);
  }

  /**
   * insert (TreeMap.h:65-150) on the arena's fields: a new node `|links|` holding
   * `(key, value)` is hung as a leaf where the descent ends, the balance factors
   * are walked and a rotation may follow. The entries become those of
   * InsertSorted: after every entry with a key not greater than `key`, also an
   * equal one, and before every greater one.
   */
  method Place<V>(links: seq<Link>, keys: seq<int>, values: seq<V>, bf: seq<int>, root: int, size: nat,
                  ghost shape: Tree, key: int, value: V)
    returns (ls: seq<Link>, ks: seq<int>, vs: seq<V>, bs: seq<int>, top: int, ghost shape': Tree)
    requires Wellformed(links, keys, values, bf, root, size, shape)
    ensures Wellformed(ls, ks, vs, bs, top, size, shape')
    ensures ks == keys + [key] && vs == values + [value] && |ls| == |links| + 1
    ensures Ids(shape') == Ids(shape) + {|links|} && |InOrder(shape')| == |InOrder(shape)| + 1
    ensures Entries(ks, vs, InOrder(shape')) == InsertSorted(Entries(keys, values, InOrder(shape)), key, value)
  {
    var n := |links|;
    ks, vs := keys + [key], values + [value];
    if root == Null {
      ls, top, bs, shape' := links + [Link(Null, Null, Null)], n, bf + [0], Br(Nil, n, Nil);
      assert InOrder(shape') == [n] && InOrder(shape) == [];
      assert Balances(bs);
      return;
    }
    var hung, p, path := Hang(links, keys, values, bf, root, size, shape, key, value);
    ls, top, bs, shape' := Settle(hung, ks, vs, bf + [0], root, size, p, n, path);
  }

  /** The inserted entry is among the entries afterwards. */
  lemma {:induction false} InsertSortedHas<V>(items: seq<(int, V)>, key: int, value: V)
    ensures (key, value) in InsertSorted(items, key, value)
    ensures |InsertSorted(items, key, value)| == |items| + 1
    ensures forall e | e in items :: e in InsertSorted(items, key, value)
    decreases |items|
  {
    if items != [] && key >= items[0].0 {
      InsertSortedHas(items[1..], key, value);
      forall e | e in items ensures e in InsertSorted(items, key, value) {
        if e != items[0] {
          var k :| 0 <= k < |items| && items[k] == e;
          assert items[1..][k - 1] == e;
        }
      }
    }
  }

  /** A position on a TreeMap: the root it was made from and the current node (Null at the end). */
  datatype Cursor = Cursor(root: int, current: int)
}
