/**
 * The node graph behind TreeMap (TreeMap.h:33-51), seen as an arena.
 *
 * Every node is an index into parallel sequences; this module holds the pointer
 * part of a node (`left`, `right`, `parent`, with -1 for nullptr) and the ghost
 * tree shape that those pointers spell out. A `Path` records where a subtree
 * sits inside the whole tree, so that pointer surgery on a few nodes can be
 * proved correct one subtree at a time.
 */
module TreeShape {

  /** The null pointer. */
  const Null: int := -1

  /** The pointer fields of one node (TreeMap.h:36-38). */
  datatype Link = Link(left: int, right: int, parent: int)

  /** The shape of a binary tree over node ids. */
  datatype Tree = Nil | Br(l: Tree, id: nat, r: Tree)

  function Root(t: Tree): int
  {
    if t.Nil? then Null else t.id
  }

  ghost function Ids(t: Tree): set<nat>
  {
    match t
    case Nil => {}
    case Br(l, i, r) => Ids(l) + {i} + Ids(r)
  }

  /** The node ids of `t` in in-order (left subtree, node, right subtree). */
  ghost function InOrder(t: Tree): seq<nat>
  {
    match t
    case Nil => []
    case Br(l, i, r) => InOrder(l) + [i] + InOrder(r)
  }

  /** No node id occurs twice in `t`. */
  ghost predicate Unique(t: Tree)
  {
    match t
    case Nil => true
    case Br(l, i, r) => Unique(l) && Unique(r) && i !in Ids(l) && i !in Ids(r) && Ids(l) !! Ids(r)
  }

  /** `t` is laid out in `links`, and `par` is the parent pointer of its root. */
  ghost predicate Repr(t: Tree, links: seq<Link>, par: int)
  {
    match t
    case Nil => true
    case Br(l, i, r) =>
      i < |links| && links[i] == Link(Root(l), Root(r), par) && Repr(l, links, i) && Repr(r, links, i)
  }

  /** `a` and `b` hold the same links for every id in `s`. */
  ghost predicate Agree(a: seq<Link>, b: seq<Link>, s: set<nat>)
  {
    forall i | i in s :: i < |a| && i < |b| && a[i] == b[i]
  }

  ghost predicate NoDup(s: seq<nat>)
  {
    forall i, j | 0 <= i < j < |s| :: s[i] != s[j]
  }

  // ---------------------------------------------------------------------------
  // Paths: a subtree together with everything around it.

  /** One step of a path: the hole is the left child of `id` (whose right subtree is `sib`),
      or its right child (whose left subtree is `sib`). */
  datatype Frame = InLeft(id: nat, sib: Tree) | InRight(sib: Tree, id: nat)

  /** Frames from the hole up to the root: innermost first. */
  type Path = seq<Frame>

  ghost function Fill(f: Frame, s: Tree): Tree
  {
    match f
    case InLeft(i, r) => Br(s, i, r)
    case InRight(l, i) => Br(l, i, s)
  }

  /** The whole tree obtained by putting `s` into the hole of `p`. */
  ghost function Plug(p: Path, s: Tree): Tree
    decreases |p|
  {
    if p == [] then s else Plug(p[1..], Fill(p[0], s))
  }

  /** The parent pointer of whatever sits in the hole of `p`. */
  ghost function Up(p: Path): int
  {
    if p == [] then Null else p[0].id
  }

  ghost function CtxIds(p: Path): set<nat>
    decreases |p|
  {
    if p == [] then {} else {p[0].id} + Ids(p[0].sib) + CtxIds(p[1..])
  }

  ghost predicate CtxUnique(p: Path)
    decreases |p|
  {
    p == [] ||
    (Unique(p[0].sib) && p[0].id !in Ids(p[0].sib) && ({p[0].id} + Ids(p[0].sib)) !! CtxIds(p[1..]) && CtxUnique(p[1..]))
  }

  /** The link of the frame's node when `child` sits in the hole and `par` is its parent. */
  ghost function FrameLink(f: Frame, child: int, par: int): Link
  {
    match f
    case InLeft(_, r) => Link(child, Root(r), par)
    case InRight(l, _) => Link(Root(l), child, par)
  }

  /** The frame's node with its hole-side child pointer replaced by `child`. */
  function Reslot(f: Frame, before: Link, child: int): Link
  {
    if f.InLeft? then before.(left := child) else before.(right := child)
  }

  ghost predicate CtxRepr(p: Path, links: seq<Link>, child: int)
    decreases |p|
  {
    p == [] ||
    (p[0].id < |links| && links[p[0].id] == FrameLink(p[0], child, Up(p[1..])) &&
     Repr(p[0].sib, links, p[0].id) && CtxRepr(p[1..], links, p[0].id))
  }

  /** In-order ids of the part of the tree left of the hole, and right of it. */
  ghost function CtxBefore(p: Path): seq<nat>
    decreases |p|
  {
    if p == [] then []
    else if p[0].InLeft? then CtxBefore(p[1..])
    else CtxBefore(p[1..]) + InOrder(p[0].sib) + [p[0].id]
  }

  ghost function CtxAfter(p: Path): seq<nat>
    decreases |p|
  {
    if p == [] then []
    else if p[0].InLeft? then [p[0].id] + InOrder(p[0].sib) + CtxAfter(p[1..])
    else CtxAfter(p[1..])
  }

  // ---------------------------------------------------------------------------
  // Facts about single trees.

  lemma {:induction false} InOrderIds(t: Tree)
    ensures forall x :: x in InOrder(t) <==> x in Ids(t)
    ensures |InOrder(t)| > 0 <==> t.Br?
  {
    match t
    case Nil =>
    case Br(l, i, r) => InOrderIds(l); InOrderIds(r);
  }

  lemma {:induction false} UniqueNoDup(t: Tree)
    requires Unique(t)
    ensures NoDup(InOrder(t))
  {
    match t
    case Nil =>
    case Br(l, i, r) =>
      UniqueNoDup(l); UniqueNoDup(r); InOrderIds(l); InOrderIds(r);
      var s := InOrder(t);
      forall a, b | 0 <= a < b < |s| ensures s[a] != s[b] {
        var n := |InOrder(l)|;
        if b < n {
          assert s[a] == InOrder(l)[a] && s[b] == InOrder(l)[b];
        } else if a > n {
          assert s[a] == InOrder(r)[a - n - 1] && s[b] == InOrder(r)[b - n - 1];
        } else if a == n {
          assert s[b] == InOrder(r)[b - n - 1];
          assert s[b] in InOrder(r);
        } else if b == n {
          assert s[a] == InOrder(l)[a];
          assert s[a] in InOrder(l);
        } else {
          assert s[a] == InOrder(l)[a] && s[b] == InOrder(r)[b - n - 1];
          assert s[a] in InOrder(l) && s[b] in InOrder(r);
        }
      }
  }

  /** A tree laid out in `links` only uses ids below `|links|`. */
  lemma {:induction false} ReprBounds(t: Tree, links: seq<Link>, par: int)
    requires Repr(t, links, par)
    ensures forall x | x in Ids(t) :: x < |links|
  {
    match t
    case Nil =>
    case Br(l, i, r) => ReprBounds(l, links, i); ReprBounds(r, links, i);
  }

  /** The layout of `t` depends only on the links of its own nodes. */
  lemma {:induction false} ReprFrame(t: Tree, links: seq<Link>, links': seq<Link>, par: int)
    requires Repr(t, links, par) && Agree(links, links', Ids(t))
    ensures Repr(t, links', par)
  {
    match t
    case Nil =>
    case Br(l, i, r) => ReprFrame(l, links, links', i); ReprFrame(r, links, links', i);
  }

  /** Changing only the parent pointer of the root moves the whole subtree under a new parent. */
  lemma ReprReparent(t: Tree, links: seq<Link>, links': seq<Link>, par: int, par': int)
    requires Repr(t, links, par) && t.Br?
    requires Agree(links, links', Ids(t.l) + Ids(t.r))
    requires t.id < |links'| && links'[t.id] == links[t.id].(parent := par')
    ensures Repr(t, links', par')
  {
    ReprFrame(t.l, links, links', t.id);
    ReprFrame(t.r, links, links', t.id);
  }

  // ---------------------------------------------------------------------------
  // Facts about paths.

  lemma {:induction false} PlugRepr(p: Path, s: Tree, links: seq<Link>)
    ensures Repr(Plug(p, s), links, Null) <==> Repr(s, links, Up(p)) && CtxRepr(p, links, Root(s))
    decreases |p|
  {
    if p != [] {
      PlugRepr(p[1..], Fill(p[0], s), links);
    }
  }

  lemma {:induction false} PlugIds(p: Path, s: Tree)
    ensures Ids(Plug(p, s)) == Ids(s) + CtxIds(p)
    decreases |p|
  {
    if p != [] {
      PlugIds(p[1..], Fill(p[0], s));
    }
  }

  lemma {:induction false} PlugUnique(p: Path, s: Tree)
    ensures Unique(Plug(p, s)) <==> Unique(s) && CtxUnique(p) && Ids(s) !! CtxIds(p)
    decreases |p|
  {
    if p != [] {
      PlugUnique(p[1..], Fill(p[0], s));
    }
  }

  lemma Regroup(a: seq<nat>, b: seq<nat>, c: seq<nat>, d: seq<nat>, e: seq<nat>)
    ensures a + (b + c + d) + e == a + b + (c + d + e) == (a + b + c) + d + e
  {
    assert a + (b + c + d) + e == a + b + c + d + e;
    assert a + b + (c + d + e) == a + b + c + d + e;
  }

  lemma {:induction false} PlugInOrder(p: Path, s: Tree)
    ensures InOrder(Plug(p, s)) == CtxBefore(p) + InOrder(s) + CtxAfter(p)
    decreases |p|
  {
    if p != [] {
      var q, f := p[1..], p[0];
      PlugInOrder(q, Fill(f, s));
      var before, after, sib := CtxBefore(q), CtxAfter(q), InOrder(f.sib);
      if f.InLeft? {
        assert InOrder(Fill(f, s)) == InOrder(s) + [f.id] + sib;
        assert CtxBefore(p) == before && CtxAfter(p) == [f.id] + sib + after;
        Regroup(before, InOrder(s), [f.id], sib, after);
      } else {
        assert InOrder(Fill(f, s)) == sib + [f.id] + InOrder(s);
        assert CtxBefore(p) == before + sib + [f.id] && CtxAfter(p) == after;
        Regroup(before, sib, [f.id], InOrder(s), after);
      }
    }
  }

  lemma {:induction false} CtxFrame(p: Path, links: seq<Link>, links': seq<Link>, child: int)
    requires CtxRepr(p, links, child) && Agree(links, links', CtxIds(p))
    ensures CtxRepr(p, links', child)
    decreases |p|
  {
    if p != [] {
      ReprFrame(p[0].sib, links, links', p[0].id);
      CtxFrame(p[1..], links, links', p[0].id);
    }
  }

  /** Putting `s` into the hole of `p` and then one more frame `f` on the outside. */
  lemma {:induction false} PlugSnoc(p: Path, f: Frame, s: Tree)
    ensures Plug(p + [f], s) == Fill(f, Plug(p, s))
    decreases |p|
  {
    if p == [] {
      assert [f][1..] == [];
    } else {
      assert (p + [f])[1..] == p[1..] + [f];
      PlugSnoc(p[1..], f, Fill(p[0], s));
    }
  }

  /**
   * The step every pointer-surgery proof ends with: the subtree in the hole of `p`
   * is replaced by `s'`, which is laid out in the new links with the same parent,
   * the frame's node now points at Root(s'), and nothing else around the hole moved.
   */
  lemma PlugReplace(p: Path, s: Tree, s': Tree, links: seq<Link>, links': seq<Link>)
    requires Repr(Plug(p, s), links, Null) && Unique(Plug(p, s))
    requires Repr(s', links', Up(p)) && Unique(s') && Ids(s') !! CtxIds(p)
    requires p != [] ==> Agree(links, links', Ids(p[0].sib) + CtxIds(p[1..]))
    requires p != [] ==> p[0].id < |links| && p[0].id < |links'| &&
                         links'[p[0].id] == Reslot(p[0], links[p[0].id], Root(s'))
    ensures Repr(Plug(p, s'), links', Null) && Unique(Plug(p, s'))
  {
    PlugRepr(p, s, links);
    PlugUnique(p, s);
    PlugUnique(p, s');
    if p != [] {
      ReprFrame(p[0].sib, links, links', p[0].id);
      CtxFrame(p[1..], links, links', p[0].id);
    }
    PlugRepr(p, s', links');
  }

  /** The path to node `x` and the subtree rooted at it. */
  ghost function Locate(t: Tree, x: nat): (r: (Path, Tree))
    requires x in Ids(t)
    ensures Plug(r.0, r.1) == t && r.1.Br? && r.1.id == x
    decreases t
  {
    if t.id == x then ([], t)
    else if x in Ids(t.l) then
      var (p, s) := Locate(t.l, x);
      PlugSnoc(p, InLeft(t.id, t.r), s);
      (p + [InLeft(t.id, t.r)], s)
    else
      var (p, s) := Locate(t.r, x);
      PlugSnoc(p, InRight(t.l, t.id), s);
      (p + [InRight(t.l, t.id)], s)
  }

  /** In a layout, the pointers at the hole tell which side of the frame the hole is on. */
  lemma HoleSide(p: Path, s: Tree, links: seq<Link>)
    requires Repr(Plug(p, s), links, Null) && Unique(Plug(p, s)) && p != []
    ensures p[0].id < |links|
    ensures links[p[0].id].left == Root(s) <==> p[0].InLeft? || (s.Nil? && p[0].sib.Nil?)
    ensures links[p[0].id].right == Root(s) <==> p[0].InRight? || (s.Nil? && p[0].sib.Nil?)
  {
    PlugRepr(p, s, links);
    PlugUnique(p, s);
  }

  // ---------------------------------------------------------------------------
  // The four rotations of TreeMap.h:152-310, as changes of shape.

  /** rotateRR: `a` with right child `b` becomes `b` with left child `a` (TreeMap.h:152-181). */
  ghost function ShapeRR(s: Tree): Tree
    requires s.Br? && s.r.Br?
  {
    Br(Br(s.l, s.id, s.r.l), s.r.id, s.r.r)
  }

  /** rotateLL: `a` with left child `b` becomes `b` with right child `a` (TreeMap.h:183-212). */
  ghost function ShapeLL(s: Tree): Tree
    requires s.Br? && s.l.Br?
  {
    Br(s.l.l, s.l.id, Br(s.l.r, s.id, s.r))
  }

  /** rotateRL: `c`, the left child of `a`'s right child `b`, becomes the root (TreeMap.h:214-261). */
  ghost function ShapeRL(s: Tree): Tree
    requires s.Br? && s.r.Br? && s.r.l.Br?
  {
    Br(Br(s.l, s.id, s.r.l.l), s.r.l.id, Br(s.r.l.r, s.r.id, s.r.r))
  }

  /** rotateLR: `c`, the right child of `a`'s left child `b`, becomes the root (TreeMap.h:263-310). */
  ghost function ShapeLR(s: Tree): Tree
    requires s.Br? && s.l.Br? && s.l.r.Br?
  {
    Br(Br(s.l.l, s.l.id, s.l.r.l), s.l.r.id, Br(s.l.r.r, s.id, s.r))
  }

  /** Three subtrees and two nodes, all apart from each other. */
  ghost predicate Apart3(A: Tree, a: nat, B: Tree, b: nat, C: Tree)
  {
    Unique(A) && Unique(B) && Unique(C) && a != b &&
    a !in Ids(A) && a !in Ids(B) && a !in Ids(C) && b !in Ids(A) && b !in Ids(B) && b !in Ids(C) &&
    Ids(A) !! Ids(B) && Ids(A) !! Ids(C) && Ids(B) !! Ids(C)
  }

  lemma UniqueLeftLeaning(A: Tree, a: nat, B: Tree, b: nat, C: Tree)
    ensures Unique(Br(Br(A, a, B), b, C)) <==> Apart3(A, a, B, b, C)
  {
    assert Ids(Br(A, a, B)) == Ids(A) + {a} + Ids(B);
  }

  lemma UniqueRightLeaning(A: Tree, a: nat, B: Tree, b: nat, C: Tree)
    ensures Unique(Br(A, a, Br(B, b, C))) <==> Apart3(A, a, B, b, C)
  {
    assert Ids(Br(B, b, C)) == Ids(B) + {b} + Ids(C);
  }

  /** Moving the root of three subtrees from `a` to `b` keeps order, nodes and distinctness. */
  lemma RotateThree(A: Tree, a: nat, B: Tree, b: nat, C: Tree)
    ensures InOrder(Br(Br(A, a, B), b, C)) == InOrder(Br(A, a, Br(B, b, C)))
    ensures Ids(Br(Br(A, a, B), b, C)) == Ids(Br(A, a, Br(B, b, C)))
    ensures Unique(Br(Br(A, a, B), b, C)) <==> Unique(Br(A, a, Br(B, b, C)))
  {
    UniqueLeftLeaning(A, a, B, b, C);
    UniqueRightLeaning(A, a, B, b, C);
  }

  /** Each rotation keeps the in-order sequence, the set of nodes and their distinctness. */
  lemma ShapeRRKeepsOrder(s: Tree)
    requires s.Br? && s.r.Br?
    ensures InOrder(ShapeRR(s)) == InOrder(s) && Ids(ShapeRR(s)) == Ids(s)
    ensures Unique(s) ==> Unique(ShapeRR(s))
  {
    RotateThree(s.l, s.id, s.r.l, s.r.id, s.r.r);
  }

  lemma ShapeLLKeepsOrder(s: Tree)
    requires s.Br? && s.l.Br?
    ensures InOrder(ShapeLL(s)) == InOrder(s) && Ids(ShapeLL(s)) == Ids(s)
    ensures Unique(s) ==> Unique(ShapeLL(s))
  {
    RotateThree(s.l.l, s.l.id, s.l.r, s.id, s.r);
  }

  lemma ShapeRLKeepsOrder(s: Tree)
    requires s.Br? && s.r.Br? && s.r.l.Br?
    ensures InOrder(ShapeRL(s)) == InOrder(s) && Ids(ShapeRL(s)) == Ids(s)
    ensures Unique(s) ==> Unique(ShapeRL(s))
  {
    var a, b, c := s.id, s.r.id, s.r.l.id;
    var A, C1, C2, D := s.l, s.r.l.l, s.r.l.r, s.r.r;
    // a(A, b(c(C1, C2), D))  ->  a(A, c(C1, b(C2, D)))  ->  c(a(A, C1), b(C2, D))
    RotateThree(C1, c, C2, b, D);
    var mid := Br(A, a, Br(C1, c, Br(C2, b, D)));
    assert Unique(s) ==> Unique(mid) by {
      if Unique(s) {
        assert Ids(s.r) == Ids(Br(C1, c, Br(C2, b, D)));
      }
    }
    RotateThree(A, a, C1, c, Br(C2, b, D));
  }

  lemma ShapeLRKeepsOrder(s: Tree)
    requires s.Br? && s.l.Br? && s.l.r.Br?
    ensures InOrder(ShapeLR(s)) == InOrder(s) && Ids(ShapeLR(s)) == Ids(s)
    ensures Unique(s) ==> Unique(ShapeLR(s))
  {
    var a, b, c := s.id, s.l.id, s.l.r.id;
    var B, C1, C2, D := s.l.l, s.l.r.l, s.l.r.r, s.r;
    // a(b(B, c(C1, C2)), D)  ->  a(c(b(B, C1), C2), D)  ->  c(b(B, C1), a(C2, D))
    RotateThree(B, b, C1, c, C2);
    var mid := Br(Br(Br(B, b, C1), c, C2), a, D);
    assert Unique(s) ==> Unique(mid) by {
      if Unique(s) {
        assert Ids(s.l) == Ids(Br(Br(B, b, C1), c, C2));
      }
    }
    RotateThree(Br(B, b, C1), c, C2, a, D);
  }

  /** Replacing the subtree in a hole by one with the same in-order sequence keeps the whole in-order sequence. */
  lemma PlugKeepsOrder(p: Path, s: Tree, s': Tree)
    requires InOrder(s') == InOrder(s)
    ensures InOrder(Plug(p, s')) == InOrder(Plug(p, s))
  {
    PlugInOrder(p, s);
    PlugInOrder(p, s');
  }

  // ---------------------------------------------------------------------------
  // The pointer surgery of the rotations: which links change, and why the result
  // is again a layout of the rotated shape.

  /** `links'` differs from `links` at most at the ids in `x`. */
  ghost predicate SameExcept(links: seq<Link>, links': seq<Link>, x: set<int>)
  {
    |links'| == |links| && forall i | 0 <= i < |links| && i !in x :: links'[i] == links[i]
  }

  lemma SameExceptUpdate(links: seq<Link>, links': seq<Link>, x: set<int>, i: nat, v: Link)
    requires SameExcept(links, links', x) && i in x && i < |links'|
    ensures SameExcept(links, links'[i := v], x)
  {
  }

  lemma AgreeOutside(links: seq<Link>, links': seq<Link>, x: set<int>, s: set<nat>, u: set<nat>)
    requires SameExcept(links, links', x)
    requires (forall i | i in u :: i < |links|) && s <= u
    requires forall i | i in s :: i !in x
    ensures Agree(links, links', s)
  {
  }

  /** The facts a rotation proof starts from: the hole's subtree and its surroundings. */
  lemma Surroundings(p: Path, s: Tree, links: seq<Link>)
    requires Repr(Plug(p, s), links, Null) && Unique(Plug(p, s))
    ensures Repr(s, links, Up(p)) && Unique(s) && Ids(s) !! CtxIds(p) && CtxUnique(p)
    ensures forall i | i in Ids(Plug(p, s)) :: i < |links|
    ensures Ids(Plug(p, s)) == Ids(s) + CtxIds(p)
    ensures p != [] ==> Up(p) in CtxIds(p) && p[0].id !in Ids(p[0].sib) + CtxIds(p[1..])
    ensures p != [] ==> Ids(p[0].sib) + CtxIds(p[1..]) <= CtxIds(p)
  {
    PlugRepr(p, s, links);
    PlugUnique(p, s);
    PlugIds(p, s);
    ReprBounds(Plug(p, s), links, Null);
  }

  /** A subtree none of whose links changed is laid out as before. */
  lemma KeepLayout(t: Tree, links: seq<Link>, links': seq<Link>, x: set<int>, par: int)
    requires Repr(t, links, par) && SameExcept(links, links', x)
    requires forall i | i in Ids(t) :: i !in x
    ensures Repr(t, links', par)
  {
    ReprBounds(t, links, par);
    ReprFrame(t, links, links', par);
  }

  /** A subtree of which only the root's parent pointer changed now hangs below `par'`. */
  lemma MoveLayout(t: Tree, links: seq<Link>, links': seq<Link>, x: set<int>, par: int, par': int)
    requires Repr(t, links, par) && SameExcept(links, links', x)
    requires t.Br? ==> (forall i | i in Ids(t.l) :: i !in x) && (forall i | i in Ids(t.r) :: i !in x)
    requires t.Br? ==> links'[t.id] == links[t.id].(parent := par')
    ensures Repr(t, links', par')
  {
    if t.Br? {
      KeepLayout(t.l, links, links', x, t.id);
      KeepLayout(t.r, links, links', x, t.id);
    }
  }

  /**
   * The last step of every rotation: `s'`, on the nodes of `s`, is laid out below the
   * old parent, the parent now points at the new root, and no other node changed.
   */
  lemma Replug(p: Path, s: Tree, s': Tree, links: seq<Link>, links': seq<Link>, x: set<int>)
    requires Repr(Plug(p, s), links, Null) && Unique(Plug(p, s))
    requires Repr(s', links', Up(p)) && Unique(s') && Ids(s') == Ids(s)
    requires SameExcept(links, links', x) && forall i | i in x :: i == Null || i == Up(p) || i in Ids(s)
    requires p != [] ==> p[0].id < |links'| && links'[p[0].id] == Reslot(p[0], links[p[0].id], Root(s'))
    ensures Repr(Plug(p, s'), links', Null) && Unique(Plug(p, s'))
  {
    Surroundings(p, s, links);
    if p != [] {
      AgreeOutside(links, links', x, Ids(p[0].sib) + CtxIds(p[1..]), Ids(Plug(p, s)));
    }
    PlugReplace(p, s, s', links, links');
  }

  /** rotateRR's links (TreeMap.h:154-172) lay out ShapeRR below the old parent `up`. */
  lemma SubtreeRR(s: Tree, links: seq<Link>, links': seq<Link>, up: int)
    requires Repr(s, links, up) && Unique(s) && s.Br? && s.r.Br? && up !in Ids(s)
    requires SameExcept(links, links', {s.id, s.r.id, Root(s.r.l), up})
    requires s.id < |links'| && s.r.id < |links'| && Root(s.r.l) < |links'|
    requires links'[s.id] == Link(Root(s.l), Root(s.r.l), s.r.id)
    requires links'[s.r.id] == Link(s.id, Root(s.r.r), up)
    requires s.r.l.Br? ==> links'[s.r.l.id] == links[s.r.l.id].(parent := s.id)
    ensures Repr(ShapeRR(s), links', up)
  {
    var a, A, b, B, C := s.id, s.l, s.r.id, s.r.l, s.r.r;
    var x: set<int> := {a, b, Root(B), up};
    assert Ids(s.r) == Ids(B) + {b} + Ids(C) && Unique(s.r) && Repr(s.r, links, a);
    assert B.Br? ==> B.id in Ids(B) && Unique(B) && Ids(B) == Ids(B.l) + {B.id} + Ids(B.r);
    KeepLayout(A, links, links', x, a);
    MoveLayout(B, links, links', x, b, a);
    KeepLayout(C, links, links', x, b);
  }

  /** rotateRR's links (TreeMap.h:154-172) lay out ShapeRR in place of `s`. */
  lemma LayoutRR(p: Path, s: Tree, links: seq<Link>, links': seq<Link>)
    requires Repr(Plug(p, s), links, Null) && Unique(Plug(p, s)) && s.Br? && s.r.Br?
    requires SameExcept(links, links', {s.id, s.r.id, Root(s.r.l), Up(p)})
    requires s.id < |links'| && s.r.id < |links'| && Root(s.r.l) < |links'| && Up(p) < |links'|
    requires links'[s.id] == Link(Root(s.l), Root(s.r.l), s.r.id)
    requires links'[s.r.id] == Link(s.id, Root(s.r.r), Up(p))
    requires s.r.l.Br? ==> links'[s.r.l.id] == links[s.r.l.id].(parent := s.id)
    requires p != [] ==> links'[Up(p)] == Reslot(p[0], links[Up(p)], s.r.id)
    ensures Repr(Plug(p, ShapeRR(s)), links', Null) && Unique(Plug(p, ShapeRR(s)))
  {
    Surroundings(p, s, links);
    assert p != [] ==> Up(p) in CtxIds(p);
    assert s.r.id in Ids(s) && (s.r.l.Br? ==> s.r.l.id in Ids(s));
    SubtreeRR(s, links, links', Up(p));
    ShapeRRKeepsOrder(s);
    Replug(p, s, ShapeRR(s), links, links', {s.id, s.r.id, Root(s.r.l), Up(p)});
  }

  /** rotateLL's links (TreeMap.h:185-203) lay out ShapeLL below the old parent `up`. */
  lemma SubtreeLL(s: Tree, links: seq<Link>, links': seq<Link>, up: int)
    requires Repr(s, links, up) && Unique(s) && s.Br? && s.l.Br? && up !in Ids(s)
    requires SameExcept(links, links', {s.id, s.l.id, Root(s.l.r), up})
    requires s.id < |links'| && s.l.id < |links'| && Root(s.l.r) < |links'|
    requires links'[s.id] == Link(Root(s.l.r), Root(s.r), s.l.id)
    requires links'[s.l.id] == Link(Root(s.l.l), s.id, up)
    requires s.l.r.Br? ==> links'[s.l.r.id] == links[s.l.r.id].(parent := s.id)
    ensures Repr(ShapeLL(s), links', up)
  {
    var a, b, A, B, C := s.id, s.l.id, s.l.l, s.l.r, s.r;
    var x: set<int> := {a, b, Root(B), up};
    assert Ids(s.l) == Ids(A) + {b} + Ids(B) && Unique(s.l) && Repr(s.l, links, a);
    assert B.Br? ==> B.id in Ids(B) && Unique(B) && Ids(B) == Ids(B.l) + {B.id} + Ids(B.r);
    KeepLayout(A, links, links', x, b);
    MoveLayout(B, links, links', x, b, a);
    KeepLayout(C, links, links', x, a);
  }

  /** rotateLL's links (TreeMap.h:185-203) lay out ShapeLL in place of `s`. */
  lemma LayoutLL(p: Path, s: Tree, links: seq<Link>, links': seq<Link>)
    requires Repr(Plug(p, s), links, Null) && Unique(Plug(p, s)) && s.Br? && s.l.Br?
    requires SameExcept(links, links', {s.id, s.l.id, Root(s.l.r), Up(p)})
    requires s.id < |links'| && s.l.id < |links'| && Root(s.l.r) < |links'| && Up(p) < |links'|
    requires links'[s.id] == Link(Root(s.l.r), Root(s.r), s.l.id)
    requires links'[s.l.id] == Link(Root(s.l.l), s.id, Up(p))
    requires s.l.r.Br? ==> links'[s.l.r.id] == links[s.l.r.id].(parent := s.id)
    requires p != [] ==> links'[Up(p)] == Reslot(p[0], links[Up(p)], s.l.id)
    ensures Repr(Plug(p, ShapeLL(s)), links', Null) && Unique(Plug(p, ShapeLL(s)))
  {
    Surroundings(p, s, links);
    assert p != [] ==> Up(p) in CtxIds(p);
    assert s.l.id in Ids(s) && (s.l.r.Br? ==> s.l.r.id in Ids(s));
    SubtreeLL(s, links, links', Up(p));
    ShapeLLKeepsOrder(s);
    Replug(p, s, ShapeLL(s), links, links', {s.id, s.l.id, Root(s.l.r), Up(p)});
  }

  /** No node below the four subtrees rotateRL moves is one of the nodes whose links it rewrites. */
  lemma ApartRL(s: Tree, up: int)
    requires Unique(s) && s.Br? && s.r.Br? && s.r.l.Br? && up !in Ids(s)
    ensures var x: set<int> := {s.id, s.r.id, s.r.l.id, Root(s.r.l.l), Root(s.r.l.r), up};
      var A, C1, C2, D := s.l, s.r.l.l, s.r.l.r, s.r.r;
      (forall i | i in Ids(A) :: i !in x) && (forall i | i in Ids(D) :: i !in x) &&
      (C1.Br? ==> (forall i | i in Ids(C1.l) :: i !in x) && (forall i | i in Ids(C1.r) :: i !in x)) &&
      (C2.Br? ==> (forall i | i in Ids(C2.l) :: i !in x) && (forall i | i in Ids(C2.r) :: i !in x)) &&
      (forall i | i in x :: i == Null || i == up || i in Ids(s))
  {
    var a, b, c := s.id, s.r.id, s.r.l.id;
    var A, C1, C2, D := s.l, s.r.l.l, s.r.l.r, s.r.r;
    assert Ids(s.r) == Ids(s.r.l) + {b} + Ids(D) && Unique(s.r);
    assert Ids(s.r.l) == Ids(C1) + {c} + Ids(C2) && Unique(s.r.l);
    assert C1.Br? ==> C1.id in Ids(C1) && Unique(C1) && Ids(C1) == Ids(C1.l) + {C1.id} + Ids(C1.r);
    assert C2.Br? ==> C2.id in Ids(C2) && Unique(C2) && Ids(C2) == Ids(C2.l) + {C2.id} + Ids(C2.r);
  }

  /** rotateRL's links (TreeMap.h:216-242) lay out ShapeRL below the old parent `up`. */
  lemma SubtreeRL(s: Tree, links: seq<Link>, links': seq<Link>, up: int)
    requires Repr(s, links, up) && Unique(s) && s.Br? && s.r.Br? && s.r.l.Br? && up !in Ids(s)
    requires SameExcept(links, links', {s.id, s.r.id, s.r.l.id, Root(s.r.l.l), Root(s.r.l.r), up})
    requires s.id < |links'| && s.r.id < |links'| && s.r.l.id < |links'| && Root(s.r.l.l) < |links'| && Root(s.r.l.r) < |links'|
    requires links'[s.id] == Link(Root(s.l), Root(s.r.l.l), s.r.l.id)
    requires links'[s.r.id] == Link(Root(s.r.l.r), Root(s.r.r), s.r.l.id)
    requires links'[s.r.l.id] == Link(s.id, s.r.id, up)
    requires s.r.l.l.Br? ==> links'[s.r.l.l.id] == links[s.r.l.l.id].(parent := s.id)
    requires s.r.l.r.Br? ==> links'[s.r.l.r.id] == links[s.r.l.r.id].(parent := s.r.id)
    ensures Repr(ShapeRL(s), links', up)
  {
    var a, b, c := s.id, s.r.id, s.r.l.id;
    var A, C1, C2, D := s.l, s.r.l.l, s.r.l.r, s.r.r;
    var x: set<int> := {a, b, c, Root(C1), Root(C2), up};
    ApartRL(s, up);
    assert Repr(s.r, links, a) && Repr(s.r.l, links, b);
    KeepLayout(A, links, links', x, a);
    MoveLayout(C1, links, links', x, c, a);
    MoveLayout(C2, links, links', x, c, b);
    KeepLayout(D, links, links', x, b);
  }

  /** rotateRL's links (TreeMap.h:216-242) lay out ShapeRL in place of `s`. */
  lemma LayoutRL(p: Path, s: Tree, links: seq<Link>, links': seq<Link>)
    requires Repr(Plug(p, s), links, Null) && Unique(Plug(p, s)) && s.Br? && s.r.Br? && s.r.l.Br?
    requires SameExcept(links, links', {s.id, s.r.id, s.r.l.id, Root(s.r.l.l), Root(s.r.l.r), Up(p)})
    requires s.id < |links'| && s.r.id < |links'| && s.r.l.id < |links'| && Root(s.r.l.l) < |links'| &&
             Root(s.r.l.r) < |links'| && Up(p) < |links'|
    requires links'[s.id] == Link(Root(s.l), Root(s.r.l.l), s.r.l.id)
    requires links'[s.r.id] == Link(Root(s.r.l.r), Root(s.r.r), s.r.l.id)
    requires links'[s.r.l.id] == Link(s.id, s.r.id, Up(p))
    requires s.r.l.l.Br? ==> links'[s.r.l.l.id] == links[s.r.l.l.id].(parent := s.id)
    requires s.r.l.r.Br? ==> links'[s.r.l.r.id] == links[s.r.l.r.id].(parent := s.r.id)
    requires p != [] ==> links'[Up(p)] == Reslot(p[0], links[Up(p)], s.r.l.id)
    ensures Repr(Plug(p, ShapeRL(s)), links', Null) && Unique(Plug(p, ShapeRL(s)))
  {
    Surroundings(p, s, links);
    assert p != [] ==> Up(p) in CtxIds(p);
    ApartRL(s, Up(p));
    SubtreeRL(s, links, links', Up(p));
    ShapeRLKeepsOrder(s);
    Replug(p, s, ShapeRL(s), links, links', {s.id, s.r.id, s.r.l.id, Root(s.r.l.l), Root(s.r.l.r), Up(p)});
  }

  /** No node below the four subtrees rotateLR moves is one of the nodes whose links it rewrites. */
  lemma ApartLR(s: Tree, up: int)
    requires Unique(s) && s.Br? && s.l.Br? && s.l.r.Br? && up !in Ids(s)
    ensures var x: set<int> := {s.id, s.l.id, s.l.r.id, Root(s.l.r.l), Root(s.l.r.r), up};
      var B, C1, C2, D := s.l.l, s.l.r.l, s.l.r.r, s.r;
      (forall i | i in Ids(B) :: i !in x) && (forall i | i in Ids(D) :: i !in x) &&
      (C1.Br? ==> (forall i | i in Ids(C1.l) :: i !in x) && (forall i | i in Ids(C1.r) :: i !in x)) &&
      (C2.Br? ==> (forall i | i in Ids(C2.l) :: i !in x) && (forall i | i in Ids(C2.r) :: i !in x)) &&
      (forall i | i in x :: i == Null || i == up || i in Ids(s))
  {
    var a, b, c := s.id, s.l.id, s.l.r.id;
    var B, C1, C2, D := s.l.l, s.l.r.l, s.l.r.r, s.r;
    assert Ids(s.l) == Ids(B) + {b} + Ids(s.l.r) && Unique(s.l);
    assert Ids(s.l.r) == Ids(C1) + {c} + Ids(C2) && Unique(s.l.r);
    assert C1.Br? ==> C1.id in Ids(C1) && Unique(C1) && Ids(C1) == Ids(C1.l) + {C1.id} + Ids(C1.r);
    assert C2.Br? ==> C2.id in Ids(C2) && Unique(C2) && Ids(C2) == Ids(C2.l) + {C2.id} + Ids(C2.r);
  }

  /** rotateLR's links (TreeMap.h:265-291) lay out ShapeLR below the old parent `up`. */
  lemma SubtreeLR(s: Tree, links: seq<Link>, links': seq<Link>, up: int)
    requires Repr(s, links, up) && Unique(s) && s.Br? && s.l.Br? && s.l.r.Br? && up !in Ids(s)
    requires SameExcept(links, links', {s.id, s.l.id, s.l.r.id, Root(s.l.r.l), Root(s.l.r.r), up})
    requires s.id < |links'| && s.l.id < |links'| && s.l.r.id < |links'| && Root(s.l.r.l) < |links'| && Root(s.l.r.r) < |links'|
    requires links'[s.l.id] == Link(Root(s.l.l), Root(s.l.r.l), s.l.r.id)
    requires links'[s.id] == Link(Root(s.l.r.r), Root(s.r), s.l.r.id)
    requires links'[s.l.r.id] == Link(s.l.id, s.id, up)
    requires s.l.r.l.Br? ==> links'[s.l.r.l.id] == links[s.l.r.l.id].(parent := s.l.id)
    requires s.l.r.r.Br? ==> links'[s.l.r.r.id] == links[s.l.r.r.id].(parent := s.id)
    ensures Repr(ShapeLR(s), links', up)
  {
    var a, b, c := s.id, s.l.id, s.l.r.id;
    var B, C1, C2, D := s.l.l, s.l.r.l, s.l.r.r, s.r;
    var x: set<int> := {a, b, c, Root(C1), Root(C2), up};
    ApartLR(s, up);
    assert Repr(s.l, links, a) && Repr(s.l.r, links, b);
    KeepLayout(B, links, links', x, b);
    MoveLayout(C1, links, links', x, c, b);
    MoveLayout(C2, links, links', x, c, a);
    KeepLayout(D, links, links', x, a);
  }

  /** rotateLR's links (TreeMap.h:265-291) lay out ShapeLR in place of `s`. */
  lemma LayoutLR(p: Path, s: Tree, links: seq<Link>, links': seq<Link>)
    requires Repr(Plug(p, s), links, Null) && Unique(Plug(p, s)) && s.Br? && s.l.Br? && s.l.r.Br?
    requires SameExcept(links, links', {s.id, s.l.id, s.l.r.id, Root(s.l.r.l), Root(s.l.r.r), Up(p)})
    requires s.id < |links'| && s.l.id < |links'| && s.l.r.id < |links'| && Root(s.l.r.l) < |links'| &&
             Root(s.l.r.r) < |links'| && Up(p) < |links'|
    requires links'[s.l.id] == Link(Root(s.l.l), Root(s.l.r.l), s.l.r.id)
    requires links'[s.id] == Link(Root(s.l.r.r), Root(s.r), s.l.r.id)
    requires links'[s.l.r.id] == Link(s.l.id, s.id, Up(p))
    requires s.l.r.l.Br? ==> links'[s.l.r.l.id] == links[s.l.r.l.id].(parent := s.l.id)
    requires s.l.r.r.Br? ==> links'[s.l.r.r.id] == links[s.l.r.r.id].(parent := s.id)
    requires p != [] ==> links'[Up(p)] == Reslot(p[0], links[Up(p)], s.l.r.id)
    ensures Repr(Plug(p, ShapeLR(s)), links', Null) && Unique(Plug(p, ShapeLR(s)))
  {
    Surroundings(p, s, links);
    assert p != [] ==> Up(p) in CtxIds(p);
    ApartLR(s, Up(p));
    SubtreeLR(s, links, links', Up(p));
    ShapeLRKeepsOrder(s);
    Replug(p, s, ShapeLR(s), links, links', {s.id, s.l.id, s.l.r.id, Root(s.l.r.l), Root(s.l.r.r), Up(p)});
  }

  /** Below the root, changing the subtree in the hole does not change the root. */
  lemma {:induction false} PlugRoot(p: Path, s: Tree, s': Tree)
    requires p != []
    ensures Root(Plug(p, s)) == Root(Plug(p, s'))
    decreases |p|
  {
    if p[1..] != [] {
      PlugRoot(p[1..], Fill(p[0], s), Fill(p[0], s'));
    }
  }

  /** Replacing the subtree in the hole by a rearrangement of it keeps the whole tree's order, nodes and root. */
  lemma PlugSame(p: Path, s: Tree, s': Tree)
    requires InOrder(s') == InOrder(s) && Ids(s') == Ids(s)
    ensures InOrder(Plug(p, s')) == InOrder(Plug(p, s)) && Ids(Plug(p, s')) == Ids(Plug(p, s))
    ensures p != [] ==> Root(Plug(p, s')) == Root(Plug(p, s))
  {
    PlugKeepsOrder(p, s, s');
    PlugIds(p, s);
    PlugIds(p, s');
    if p != [] {
      PlugRoot(p, s, s');
    }
  }
}
