/**
 * TreeMap's ConstIterator (TreeMap.h:660-776) and the predecessor search
 * `previous` (TreeMap.h:325-343).
 *
 * An iterator is the value `Cursor(root, current)`: the root it was made from and
 * the node it stands on, Null for the end position. Its operations read the node
 * graph, so they take the arena's links and the ghost shape those links lay out.
 * Their results are stated on the in-order sequence of that shape.
 */
module TreeIterators {
  import opened TreeShape
  import opened TreeMaps
  import opened Outcomes

  /** Within `a + [x] + b` with `x` not in `a` or `b`, the successor of `x` is the first of `b`. */
  lemma AfterMiddle(a: seq<nat>, x: nat, b: seq<nat>)
    requires x !in a && x !in b
    ensures After(a + [x] + b, x) == First(b)
    decreases |a|
  {
    var s := a + [x] + b;
    if a == [] {
      if |s| >= 2 {
        assert s[0] == x && s[1] == b[0];
      } else {
        assert b == [];
      }
    } else {
      assert s[0] == a[0] != x;
      assert s[1..] == a[1..] + [x] + b;
      AfterMiddle(a[1..], x, b);
    }
  }

  /** In a sequence without repeats, the element between `L` and `R` is in neither. */
  lemma NoDupMiddle(w: seq<nat>, L: seq<nat>, x: nat, R: seq<nat>)
    requires NoDup(w) && w == L + [x] + R
    ensures x !in L && x !in R
  {
    forall j | 0 <= j < |L| ensures L[j] != x {
      assert w[j] == L[j] && w[|L|] == x;
    }
    forall j | 0 <= j < |R| ensures R[j] != x {
      assert w[|L| + 1 + j] == R[j] && w[|L|] == x;
    }
  }

  lemma Associate(a: seq<nat>, b: seq<nat>, c: seq<nat>)
    ensures a + b + c == a + (b + c)
  {
  }

  /**
   * Where the node at the root of `s` sits in the in-order sequence: after the part
   * of the tree left of `s` and its own left subtree, before its right subtree and
   * the rest, and nowhere else.
   */
  lemma Position(p: Path, s: Tree)
    requires Unique(Plug(p, s)) && s.Br?
    ensures var L, R := CtxBefore(p) + InOrder(s.l), InOrder(s.r) + CtxAfter(p);
      InOrder(Plug(p, s)) == L + [s.id] + R && s.id !in L && s.id !in R
  {
    PlugInOrder(p, s);
    var a, b, d, e := CtxBefore(p), InOrder(s.l), InOrder(s.r), CtxAfter(p);
    assert InOrder(s) == b + [s.id] + d;
    Regroup(a, b, [s.id], d, e);
    Associate(a + b + [s.id], d, e);
    UniqueNoDup(Plug(p, s));
    NoDupMiddle(InOrder(Plug(p, s)), a + b, s.id, d + e);
  }

  /**
   * The in-order successor of the node at the root of `s`, where `s` sits at path
   * `p`: the leftmost node of its right subtree when it has one, and otherwise the
   * first node after the subtree.
   */
  lemma Successor(p: Path, s: Tree)
    requires Unique(Plug(p, s)) && s.Br?
    ensures After(InOrder(Plug(p, s)), s.id) ==
      (if s.r.Br? then First(InOrder(s.r)) else First(CtxAfter(p)))
  {
    Position(p, s);
    var d, e := InOrder(s.r), CtxAfter(p);
    AfterMiddle(CtxBefore(p) + InOrder(s.l), s.id, d + e);
    InOrderIds(s.r);
    if s.r.Br? {
      assert (d + e)[0] == d[0];
    } else {
      assert d + e == e;
    }
  }

  /**
   * The in-order predecessor of the node at the root of `s`: the rightmost node of
   * its left subtree when it has one, and otherwise the last node before the subtree.
   */
  lemma Predecessor(p: Path, s: Tree)
    requires Unique(Plug(p, s)) && s.Br?
    ensures Before(InOrder(Plug(p, s)), s.id) ==
      (if s.l.Br? then Last(InOrder(s.l)) else Last(CtxBefore(p)))
  {
    Position(p, s);
    var a, b := CtxBefore(p), InOrder(s.l);
    BeforeMiddle(a + b, s.id, InOrder(s.r) + CtxAfter(p));
    InOrderIds(s.l);
    if s.l.Br? {
      assert (a + b)[|a + b| - 1] == b[|b| - 1];
    } else {
      assert a + b == a;
    }
  }

  /** The leftmost node of `t`, found by following left links (TreeMap.h:695-697, 723-725). */
  method LeftmostOf(links: seq<Link>, ghost t: Tree, ghost par: int, node: nat) returns (m: nat)
    requires Repr(t, links, par) && t.Br? && node == t.id
    ensures m == First(InOrder(t))
  {
    m := node;
    ghost var u, up := t, par;
    while links[m].left != Null
      invariant Repr(u, links, up) && u.Br? && m == u.id && First(InOrder(u)) == First(InOrder(t))
      decreases u
    {
      InOrderIds(u.l);
      assert InOrder(u)[0] == InOrder(u.l)[0];
      m, u, up := links[m].left, u.l, m;
    }
  }

  /** The rightmost node of `t`, found by following right links (TreeMap.h:334, 731-733). */
  method RightmostOf(links: seq<Link>, ghost t: Tree, ghost par: int, node: nat) returns (m: nat)
    requires Repr(t, links, par) && t.Br? && node == t.id
    ensures m == Last(InOrder(t))
  {
    m := node;
    ghost var u, up := t, par;
    while links[m].right != Null
      invariant Repr(u, links, up) && u.Br? && m == u.id && Last(InOrder(u)) == Last(InOrder(t))
      decreases u
    {
      InOrderIds(u.r);
      assert InOrder(u)[|InOrder(u)| - 1] == InOrder(u.r)[|InOrder(u.r)| - 1];
      m, u, up := links[m].right, u.r, m;
    }
  }

  /**
   * The climb of `++` (TreeMap.h:699-706): up while the node is its parent's right
   * child, then to that parent. It reaches the first node after the subtree `s`.
   */
  method ClimbFromRight(links: seq<Link>, ghost shape: Tree, ghost p: Path, ghost s: Tree, x: nat) returns (y: int)
    requires Repr(shape, links, Null) && Unique(shape) && shape == Plug(p, s) && s.Br? && s.id == x
    ensures y == First(CtxAfter(p))
  {
    PlugRepr(p, s, links);
    var current, parent := x, links[x].parent;
    ghost var q, u := p, s;
    if q != [] {
      HoleSide(q, u, links);
    }
    while parent != Null && links[parent].right == current
      invariant Plug(q, u) == shape && u.Br? && u.id == current && parent == Up(q)
      invariant q != [] ==> q[0].id < |links|
      invariant CtxAfter(q) == CtxAfter(p)
      decreases |q|
    {
      HoleSide(q, u, links);
      PlugRepr(q[1..], Fill(q[0], u), links);
      current, u, q := parent, Fill(q[0], u), q[1..];
      parent := links[current].parent;
      if q != [] {
        HoleSide(q, u, links);
      }
    }
    if parent != Null {
      HoleSide(q, u, links);
    }
    y := parent;
  }

  /**
   * The climb of `--` (TreeMap.h:739-745): up while the
   * node is its parent's left child, then to that parent. It reaches the last node
   * before the subtree `s`.
   */
  method ClimbFromLeft(links: seq<Link>, ghost shape: Tree, ghost p: Path, ghost s: Tree, x: nat) returns (y: int)
    requires Repr(shape, links, Null) && Unique(shape) && shape == Plug(p, s) && s.Br? && s.id == x
    ensures y == Last(CtxBefore(p))
  {
    PlugRepr(p, s, links);
    var current, parent := x, links[x].parent;
    ghost var q, u := p, s;
    if q != [] {
      HoleSide(q, u, links);
    }
    while parent != Null && links[parent].left == current
      invariant Plug(q, u) == shape && u.Br? && u.id == current && parent == Up(q)
      invariant q != [] ==> q[0].id < |links|
      invariant CtxBefore(q) == CtxBefore(p)
      decreases |q|
    {
      HoleSide(q, u, links);
      PlugRepr(q[1..], Fill(q[0], u), links);
      current, u, q := parent, Fill(q[0], u), q[1..];
      parent := links[current].parent;
      if q != [] {
        HoleSide(q, u, links);
      }
    }
    if parent != Null {
      HoleSide(q, u, links);
    }
    y := parent;
  }

  /**
   * previous (TreeMap.h:325-343): the in-order predecessor of `x`, and Null for the
   * first node or for Null itself.
   */
  method Previous(links: seq<Link>, ghost shape: Tree, x: int) returns (y: int)
    requires Repr(shape, links, Null) && Unique(shape) && (x == Null || x in Ids(shape))
    ensures x == Null ==> y == Null
    ensures x != Null ==> y == Before(InOrder(shape), x)
  {
    if x == Null {
      return Null;
    }
    ghost var (p, s) := Locate(shape, x);
    Predecessor(p, s);
    Surroundings(p, s, links);
    if links[x].left != Null {
      y := RightmostOf(links, s.l, x, links[x].left);
    } else {
      // The climb stops at the first ancestor whose right child is the node left behind.
      PlugRepr(p, s, links);
      var r: nat := x;
      y := links[x].parent;
      ghost var q, u := p, s;
      if q != [] {
        HoleSide(q, u, links);
      }
      while y != Null && links[y].right != r
        invariant Plug(q, u) == shape && u.Br? && u.id == r && y == Up(q)
        invariant q != [] ==> q[0].id < |links|
        invariant CtxBefore(q) == CtxBefore(p)
        decreases |q|
      {
        HoleSide(q, u, links);
        PlugRepr(q[1..], Fill(q[0], u), links);
        r, u, q := y, Fill(q[0], u), q[1..];
        y := links[r].parent;
        if q != [] {
          HoleSide(q, u, links);
        }
      }
      if y != Null {
        HoleSide(q, u, links);
      }
    }
  }

  /**
   * `++` (TreeMap.h:686-710): throws on the end position, then on a null root;
   * otherwise moves to the in-order successor, which is Null after the last node.
   */
  method Next(links: seq<Link>, ghost shape: Tree, it: Cursor) returns (r: Result<Cursor>)
    requires Repr(shape, links, Null) && Unique(shape) && (it.current == Null || it.current in Ids(shape))
    ensures it.current == Null ==> r == Err(OutOfRange)
    ensures it.current != Null && it.root == Null ==> r == Err(CollectionEmpty)
    ensures it.current != Null && it.root != Null ==> r == Ok(Cursor(it.root, After(InOrder(shape), it.current)))
  {
    if it.current == Null {
      return Err(OutOfRange);
    }
    if it.root == Null {
      return Err(CollectionEmpty);
    }
    var x: nat := it.current;
    ghost var (p, s) := Locate(shape, x);
    Successor(p, s);
    Surroundings(p, s, links);
    var y;
    if links[x].right != Null {
      y := LeftmostOf(links, s.r, x, links[x].right);
    } else {
      y := ClimbFromRight(links, shape, p, s, x);
    }
    return Ok(Cursor(it.root, y));
  }

  /** The subtree of `t` rooted at node `x`. */
  ghost function SubtreeAt(t: Tree, x: nat): (s: Tree)
    requires x in Ids(t)
    ensures s.Br? && s.id == x && (t.Br? && x == t.id ==> s == t)
  {
    Locate(t, x).1
  }

  /**
   * `--` as written (TreeMap.h:719-749). The iterator keeps the root it was made
   * from, which after later insertions may be any node of the tree; the leftmost
   * test and the step from the end position follow links down from that stored
   * root, so they see only its subtree. It throws on a null stored root and on the
   * leftmost node of that subtree; from the end position it moves to that
   * subtree's rightmost node. From a node with a left child it moves to that
   * child, which is not the predecessor when the child has a right subtree; from
   * any other node it climbs to the predecessor in the whole tree.
   */
  method PrevAsWritten(links: seq<Link>, ghost shape: Tree, it: Cursor) returns (r: Result<Cursor>)
    requires Repr(shape, links, Null) && Unique(shape) && (it.root == Null || it.root in Ids(shape))
    requires it.current == Null || (it.current in Ids(shape) && it.current < |links|)
    ensures it.root == Null ==> r == Err(CollectionEmpty)
    ensures it.root != Null && it.current == First(InOrder(SubtreeAt(shape, it.root))) ==> r == Err(OutOfRange)
    ensures it.root != Null && it.current != First(InOrder(SubtreeAt(shape, it.root))) ==>
      r == Ok(Cursor(it.root,
        if it.current == Null then Last(InOrder(SubtreeAt(shape, it.root)))
        else if links[it.current].left != Null then links[it.current].left
        else Before(InOrder(shape), it.current)))
  {
    if it.root == Null {
      return Err(CollectionEmpty);
    }
    var top: nat := it.root;
    ghost var (rp, rs) := Locate(shape, top);
    Surroundings(rp, rs, links);
    var least := LeftmostOf(links, rs, Up(rp), top);
    if it.current == least {
      return Err(OutOfRange);
    }
    var y;
    if it.current == Null {
      y := RightmostOf(links, rs, Up(rp), top);
    } else if links[it.current].left != Null {
      y := links[it.current].left;
    } else {
      var x: nat := it.current;
      ghost var (p, s) := Locate(shape, x);
      Predecessor(p, s);
      Surroundings(p, s, links);
      y := ClimbFromLeft(links, shape, p, s, x);
    }
    return Ok(Cursor(it.root, y));
  }

  /**
   * `--` as evidently intended: the same checks against the stored root's subtree,
   * and every step from a node goes to its in-order predecessor, through `previous`.
   */
  method PrevFixed(links: seq<Link>, ghost shape: Tree, it: Cursor) returns (r: Result<Cursor>)
    requires Repr(shape, links, Null) && Unique(shape) && (it.root == Null || it.root in Ids(shape))
    requires it.current == Null || it.current in Ids(shape)
    ensures it.root == Null ==> r == Err(CollectionEmpty)
    ensures it.root != Null && it.current == First(InOrder(SubtreeAt(shape, it.root))) ==> r == Err(OutOfRange)
    ensures it.root != Null && it.current != First(InOrder(SubtreeAt(shape, it.root))) ==>
      r == Ok(Cursor(it.root,
        if it.current == Null then Last(InOrder(SubtreeAt(shape, it.root)))
        else Before(InOrder(shape), it.current)))
  {
    if it.root == Null {
      return Err(CollectionEmpty);
    }
    var top: nat := it.root;
    ghost var (rp, rs) := Locate(shape, top);
    Surroundings(rp, rs, links);
    var least := LeftmostOf(links, rs, Up(rp), top);
    if it.current == least {
      return Err(OutOfRange);
    }
    var y;
    if it.current == Null {
      y := RightmostOf(links, rs, Up(rp), top);
    } else {
      y := Previous(links, shape, it.current);
    }
    return Ok(Cursor(it.root, y));
  }

  /**
   * The successor of each node in a sequence without repeats is the next one, and
   * the last node has none: `++` from the first node visits the whole in-order
   * sequence and then reaches the end position.
   */
  lemma AfterIndex(s: seq<nat>, k: nat)
    requires NoDup(s) && k < |s|
    ensures After(s, s[k]) == if k + 1 < |s| then s[k + 1] else Null
  {
    assert s == s[..k] + [s[k]] + s[k + 1..];
    NoDupMiddle(s, s[..k], s[k], s[k + 1..]);
    AfterMiddle(s[..k], s[k], s[k + 1..]);
  }

  /** Likewise the predecessor of each node is the one before it, and the first has none. */
  lemma BeforeIndex(s: seq<nat>, k: nat)
    requires NoDup(s) && k < |s|
    ensures Before(s, s[k]) == if k > 0 then s[k - 1] else Null
  {
    assert s == s[..k] + [s[k]] + s[k + 1..];
    NoDupMiddle(s, s[..k], s[k], s[k + 1..]);
    BeforeMiddle(s[..k], s[k], s[k + 1..]);
  }

  /**
   * `*` (TreeMap.h:757-765): throws when the root the iterator was made from is
   * null, then on the end position; otherwise the entry stored at the node, which
   * is one of the map's entries. Only the stored root's nullness is looked at, so
   * it need not be the map's current root.
   */
  function Deref<V>(links: seq<Link>, keys: seq<int>, values: seq<V>, bf: seq<int>, root: int, size: nat,
                    ghost shape: Tree, it: Cursor): (r: Result<(int, V)>)
    requires Wellformed(links, keys, values, bf, root, size, shape)
    requires it.current == Null || it.current in Ids(shape)
    ensures it.root == Null ==> r == Err(CollectionEmpty)
    ensures it.root != Null && it.current == Null ==> r == Err(OutOfRange)
    ensures it.root != Null && it.current != Null ==>
      r == Ok((keys[it.current], values[it.current])) && r.value in Entries(keys, values, InOrder(shape))
  {
    if it.root == Null then Err(CollectionEmpty)
    else if it.current == Null then Err(OutOfRange)
    else
      InOrderIds(shape);
      Ok((keys[it.current], values[it.current]))
  }

  /** `==` (TreeMap.h:772-775): two iterators are equal when root and node agree. */
  predicate Same(a: Cursor, b: Cursor)
    ensures Same(a, b) <==> a == b
  {
    a.root == b.root && a.current == b.current
  }

  /** cbegin as written (TreeMap.h:638-641): the iterator at `minNode(root)`. */
  function CBegin(links: seq<Link>, ghost shape: Tree, root: int): (it: Cursor)
    requires Repr(shape, links, Null) && Unique(shape) && root == Root(shape)
    ensures it.root == root
    ensures shape.Br? && shape.l.Br? ==> it.current == Before(InOrder(shape), shape.id)
    ensures shape.Nil? || shape.l.Nil? ==> it.current == First(InOrder(shape))
  {
    InOrderIds(shape);
    Cursor(root, MinNode(links, shape, Null, root))
  }

  /** cbegin as evidently intended: the iterator at the leftmost node. */
  function CBeginFixed(links: seq<Link>, ghost shape: Tree, root: int): (it: Cursor)
    requires Repr(shape, links, Null) && root == Root(shape)
    ensures it.root == root && it.current == First(InOrder(shape))
  {
    Cursor(root, Leftmost(links, shape, Null, root))
  }

  /** cend (TreeMap.h:643-646): the end position of a tree; `++` from the last node reaches it. */
  function CEnd(root: int): (it: Cursor)
    ensures it.root == root && it.current == Null
  {
    Cursor(root, Null)
  }

  // ---------------------------------------------------------------------------
  // The map built by inserting the keys 4, 2, 5 and 3 in that order: 4 at the
  // root (node 0), 2 to its left (node 1) with 3 as its right child (node 3), and
  // 5 to its right (node 2).

  function SampleLinks(): seq<Link>
  {
    [Link(1, 2, Null), Link(Null, 3, 0), Link(Null, Null, 0), Link(Null, Null, 1)]
  }

  function SampleShape(): Tree
  {
    Br(Br(Nil, 1, Br(Nil, 3, Nil)), 0, Br(Nil, 2, Nil))
  }

  /** The sample is a well-formed map whose key order is 2, 3, 4, 5. */
  lemma SampleWellformed()
    ensures Wellformed(SampleLinks(), [4, 2, 5, 3], [0, 0, 0, 0], [1, -1, 0, 0], 0, 4, SampleShape())
    ensures InOrder(SampleShape()) == [1, 3, 0, 2]
  {
    var t := SampleShape();
    assert InOrder(t) == [1, 3, 0, 2] by {
      assert InOrder(t.l) == [1, 3];
    }
    assert Ids(t) == {0, 1, 2, 3} by {
      assert Ids(t.l) == {1, 3};
    }
  }

  /** cbegin as written stands on the key 3, not on the least key 2. */
  lemma BeginMissesLeast()
    ensures CBegin(SampleLinks(), SampleShape(), 0).current == 3
    ensures CBeginFixed(SampleLinks(), SampleShape(), 0).current == 1
  {
    SampleWellformed();
  }

  /** `--` as written from the key 4 goes to its left child, the key 2, passing over the key 3. */
  lemma DecrementSkips()
    ensures SampleLinks()[0].left == 1
    ensures Before(InOrder(SampleShape()), 0) == 3
  {
    SampleWellformed();
  }

  // ---------------------------------------------------------------------------
  // An end iterator made from the map holding only the key 1 (node 0), after the
  // keys 2 and 3 are inserted: the arena hand-traced from those insertions has
  // the key 2 (node 1) at the root, between the keys 1 and 3 (nodes 0 and 2).

  function StaleLinks(): seq<Link>
  {
    [Link(Null, Null, 1), Link(0, 2, Null), Link(Null, Null, 1)]
  }

  ghost function StaleShape(): Tree
  {
    Br(Br(Nil, 0, Nil), 1, Br(Nil, 2, Nil))
  }

  /**
   * `--` from that iterator, which still holds node 0 as its root, steps to the
   * rightmost node below node 0, the key 1, and not to the greatest key 3.
   */
  lemma StaleEndStepsBack()
    ensures Repr(StaleShape(), StaleLinks(), Null) && Unique(StaleShape()) && 0 in Ids(StaleShape())
    ensures InOrder(SubtreeAt(StaleShape(), 0)) == [0] && Last([0]) == 0
    ensures Last(InOrder(StaleShape())) == 2
  {
    assert SubtreeAt(StaleShape(), 0) == Br(Nil, 0, Nil);
  }
}
