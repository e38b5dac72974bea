/**
 * The pointer rewiring of the four rotations of TreeMap.h:152-310, on the
 * arena's links and root. The methods perform the source's assignments in the
 * source's order and state which links they produce; `Relink*` then shows that
 * those links lay out the rotated shape. The balance-factor updates are done by
 * the TreeMap methods that call them.
 */
module Rotations {
  import opened TreeShape

  /** The parent's link after its child `a` is replaced by `n`, on the side given by `onLeft`. */
  function Redirect(before: Link, onLeft: bool, n: int): Link
  {
    if onLeft then before.(left := n) else before.(right := n)
  }

  /** Two rounds of changes, each confined to its own set of nodes. */
  lemma SameExceptChain(l0: seq<Link>, l1: seq<Link>, l2: seq<Link>, x: set<int>, y: set<int>)
    requires SameExcept(l0, l1, x) && SameExcept(l1, l2, y)
    ensures SameExcept(l0, l2, x + y)
  {
  }

  // ---------------------------------------------------------------------------
  // The assignments.

  /**
   * The tail that rotateRR and rotateRL share (TreeMap.h:156-172 and 226-242):
   * `b` takes the place of `a`, `a` becomes `b`'s left child and takes over `b`'s
   * old left subtree `m` as its right one, and `a`'s old parent `up` (or the root)
   * now points at `b`.
   */
  method RaiseRight(links: seq<Link>, root: int, a: nat, b: nat, ghost m: int, ghost up: int, ghost onLeft: bool)
    returns (ls: seq<Link>, top: int)
    requires a < |links| && b < |links| && Null <= m < |links| && Null <= up < |links|
    requires links[a].parent == up && links[b].left == m
    requires a != b && m != a && m != b && (up != Null ==> up != a && up != b && up != m)
    requires up != Null ==> (links[up].left == a <==> onLeft)
    ensures SameExcept(links, ls, {a, b, m, up})
    ensures ls[a] == Link(links[a].left, m, b) && ls[b] == Link(a, links[b].right, up)
    ensures m != Null ==> ls[m] == links[m].(parent := a)
    ensures up != Null ==> ls[up] == Redirect(links[up], onLeft, b)
    ensures top == if up == Null then b else root
  {
    ghost var x: set<int> := {a, b, m, up};
    ls, top := links, root;
    SameExceptUpdate(links, ls, x, a, ls[a].(right := ls[b].left));
    ls := ls[a := ls[a].(right := ls[b].left)];
    if ls[a].right != Null {
      SameExceptUpdate(links, ls, x, ls[a].right, ls[ls[a].right].(parent := a));
      ls := ls[ls[a].right := ls[ls[a].right].(parent := a)];
    }
    SameExceptUpdate(links, ls, x, b, ls[b].(left := a));
    ls := ls[b := ls[b].(left := a)];
    SameExceptUpdate(links, ls, x, b, ls[b].(parent := ls[a].parent));
    ls := ls[b := ls[b].(parent := ls[a].parent)];
    SameExceptUpdate(links, ls, x, a, ls[a].(parent := b));
    ls := ls[a := ls[a].(parent := b)];
    var up' := ls[b].parent;
    if up' != Null {
      if ls[up'].left == a {
        SameExceptUpdate(links, ls, x, up', ls[up'].(left := b));
        ls := ls[up' := ls[up'].(left := b)];
      } else {
        SameExceptUpdate(links, ls, x, up', ls[up'].(right := b));
        ls := ls[up' := ls[up'].(right := b)];
      }
    } else {
      top := b;
    }
  }

  /**
   * The tail that rotateLL and rotateLR share (TreeMap.h:187-203 and 275-291):
   * `b` takes the place of `a`, `a` becomes `b`'s right child and takes over `b`'s
   * old right subtree `m` as its left one, and `a`'s old parent `up` (or the root)
   * now points at `b`.
   */
  method RaiseLeft(links: seq<Link>, root: int, a: nat, b: nat, ghost m: int, ghost up: int, ghost onLeft: bool)
    returns (ls: seq<Link>, top: int)
    requires a < |links| && b < |links| && Null <= m < |links| && Null <= up < |links|
    requires links[a].parent == up && links[b].right == m
    requires a != b && m != a && m != b && (up != Null ==> up != a && up != b && up != m)
    requires up != Null ==> (links[up].left == a <==> onLeft)
    ensures SameExcept(links, ls, {a, b, m, up})
    ensures ls[a] == Link(m, links[a].right, b) && ls[b] == Link(links[b].left, a, up)
    ensures m != Null ==> ls[m] == links[m].(parent := a)
    ensures up != Null ==> ls[up] == Redirect(links[up], onLeft, b)
    ensures top == if up == Null then b else root
  {
    ghost var x: set<int> := {a, b, m, up};
    ls, top := links, root;
    SameExceptUpdate(links, ls, x, a, ls[a].(left := ls[b].right));
    ls := ls[a := ls[a].(left := ls[b].right)];
    if ls[a].left != Null {
      SameExceptUpdate(links, ls, x, ls[a].left, ls[ls[a].left].(parent := a));
      ls := ls[ls[a].left := ls[ls[a].left].(parent := a)];
    }
    SameExceptUpdate(links, ls, x, b, ls[b].(right := a));
    ls := ls[b := ls[b].(right := a)];
    SameExceptUpdate(links, ls, x, b, ls[b].(parent := ls[a].parent));
    ls := ls[b := ls[b].(parent := ls[a].parent)];
    SameExceptUpdate(links, ls, x, a, ls[a].(parent := b));
    ls := ls[a := ls[a].(parent := b)];
    var up' := ls[b].parent;
    if up' != Null {
      if ls[up'].left == a {
        SameExceptUpdate(links, ls, x, up', ls[up'].(left := b));
        ls := ls[up' := ls[up'].(left := b)];
      } else {
        SameExceptUpdate(links, ls, x, up', ls[up'].(right := b));
        ls := ls[up' := ls[up'].(right := b)];
      }
    } else {
      top := b;
    }
  }

  /**
   * rotateRL's first step (TreeMap.h:219-224): `b` becomes the right child of its
   * left child `c` and takes over `c`'s right subtree `c2` as its left one; `c`'s
   * own parent pointer is set by the step after.
   */
  method TurnUnderRight(links: seq<Link>, b: nat, c: nat, ghost c2: int) returns (ls: seq<Link>)
    requires b < |links| && c < |links| && Null <= c2 < |links| && links[c].right == c2 && b != c && c2 != b && c2 != c
    ensures SameExcept(links, ls, {b, c, c2})
    ensures ls[b] == links[b].(left := c2, parent := c) && ls[c] == links[c].(right := b)
    ensures c2 != Null ==> ls[c2] == links[c2].(parent := b)
  {
    ls := links[b := links[b].(left := links[c].right)];
    if ls[b].left != Null {
      ls := ls[ls[b].left := ls[ls[b].left].(parent := b)];
    }
    ls := ls[c := ls[c].(right := b)];
    ls := ls[b := ls[b].(parent := c)];
  }

  /**
   * rotateLR's first step (TreeMap.h:268-273): `b` becomes the left child of its
   * right child `c` and takes over `c`'s left subtree `c1` as its right one; `c`'s
   * own parent pointer is set by the step after.
   */
  method TurnUnderLeft(links: seq<Link>, b: nat, c: nat, ghost c1: int) returns (ls: seq<Link>)
    requires b < |links| && c < |links| && Null <= c1 < |links| && links[c].left == c1 && b != c && c1 != b && c1 != c
    ensures SameExcept(links, ls, {b, c, c1})
    ensures ls[b] == links[b].(right := c1, parent := c) && ls[c] == links[c].(left := b)
    ensures c1 != Null ==> ls[c1] == links[c1].(parent := b)
  {
    ls := links[b := links[b].(right := links[c].left)];
    if ls[b].right != Null {
      ls := ls[ls[b].right := ls[ls[b].right].(parent := b)];
    }
    ls := ls[c := ls[c].(left := b)];
    ls := ls[b := ls[b].(parent := c)];
  }

  // ---------------------------------------------------------------------------
  // Where each rotation starts.

  /** The links rotateRR starts from: `a`, its right child `b` and `b`'s left child. */
  lemma StartRR(p: Path, s: Tree, links: seq<Link>)
    requires Repr(Plug(p, s), links, Null) && Unique(Plug(p, s)) && s.Br? && s.r.Br?
    ensures var a, b, m, up := s.id, s.r.id, Root(s.r.l), Up(p);
      a < |links| && b < |links| && m < |links| && up < |links| &&
      links[a] == Link(Root(s.l), b, up) && links[b] == Link(m, Root(s.r.r), a) &&
      a != b && m != a && m != b && (up != Null ==> up != a && up != b && up != m) &&
      (up != Null ==> (links[up].left == a <==> p[0].InLeft?))
  {
    Surroundings(p, s, links);
    assert s.r.id in Ids(s) && (s.r.l.Br? ==> s.r.l.id in Ids(s.r));
    assert Repr(s.r, links, s.id) && Unique(s.r);
    if p != [] {
      HoleSide(p, s, links);
    }
  }

  /** The links rotateLL starts from: `a`, its left child `b` and `b`'s right child. */
  lemma StartLL(p: Path, s: Tree, links: seq<Link>)
    requires Repr(Plug(p, s), links, Null) && Unique(Plug(p, s)) && s.Br? && s.l.Br?
    ensures var a, b, m, up := s.id, s.l.id, Root(s.l.r), Up(p);
      a < |links| && b < |links| && m < |links| && up < |links| &&
      links[a] == Link(b, Root(s.r), up) && links[b] == Link(Root(s.l.l), m, a) &&
      a != b && m != a && m != b && (up != Null ==> up != a && up != b && up != m) &&
      (up != Null ==> (links[up].left == a <==> p[0].InLeft?))
  {
    Surroundings(p, s, links);
    assert s.l.id in Ids(s) && (s.l.r.Br? ==> s.l.r.id in Ids(s.l));
    assert Repr(s.l, links, s.id) && Unique(s.l);
    if p != [] {
      HoleSide(p, s, links);
    }
  }

  /** The links rotateRL starts from: `a`, its right child `b`, `b`'s left child `c`, and `c`'s children. */
  lemma StartRL(p: Path, s: Tree, links: seq<Link>)
    requires Repr(Plug(p, s), links, Null) && Unique(Plug(p, s))
    requires s.Br? && s.r.Br? && s.r.l.Br?
    ensures var a, b, c, c1, c2, up := s.id, s.r.id, s.r.l.id, Root(s.r.l.l), Root(s.r.l.r), Up(p);
      a < |links| && b < |links| && c < |links| && c1 < |links| && c2 < |links| && up < |links| &&
      links[a] == Link(Root(s.l), b, up) && links[b] == Link(c, Root(s.r.r), a) && links[c] == Link(c1, c2, b) &&
      a != b && a != c && b != c && c1 != a && c1 != b && c1 != c && c2 != a && c2 != b && c2 != c &&
      (c1 != Null ==> c1 != c2) && (up != Null ==> up != a && up != b && up != c && up != c1 && up != c2) &&
      (up != Null ==> (links[up].left == a <==> p[0].InLeft?))
  {
    Surroundings(p, s, links);
    assert s.r.id in Ids(s) && s.r.l.id in Ids(s);
    assert Repr(s.r, links, s.id) && Repr(s.r.l, links, s.r.id);
    assert Ids(s.r) == Ids(s.r.l) + {s.r.id} + Ids(s.r.r);
    assert Ids(s.r.l) <= Ids(s) && Ids(s.r.l) == Ids(s.r.l.l) + {s.r.l.id} + Ids(s.r.l.r);
    assert Unique(s.r) && Unique(s.r.l);
    assert s.r.l.l.Br? ==> s.r.l.l.id in Ids(s.r.l.l);
    assert s.r.l.r.Br? ==> s.r.l.r.id in Ids(s.r.l.r);
    if p != [] {
      HoleSide(p, s, links);
    }
  }

  /** The links rotateLR starts from: `a`, its left child `b`, `b`'s right child `c`, and `c`'s children. */
  lemma StartLR(p: Path, s: Tree, links: seq<Link>)
    requires Repr(Plug(p, s), links, Null) && Unique(Plug(p, s))
    requires s.Br? && s.l.Br? && s.l.r.Br?
    ensures var a, b, c, c1, c2, up := s.id, s.l.id, s.l.r.id, Root(s.l.r.l), Root(s.l.r.r), Up(p);
      a < |links| && b < |links| && c < |links| && c1 < |links| && c2 < |links| && up < |links| &&
      links[a] == Link(b, Root(s.r), up) && links[b] == Link(Root(s.l.l), c, a) && links[c] == Link(c1, c2, b) &&
      a != b && a != c && b != c && c1 != a && c1 != b && c1 != c && c2 != a && c2 != b && c2 != c &&
      (c1 != Null ==> c1 != c2) && (up != Null ==> up != a && up != b && up != c && up != c1 && up != c2) &&
      (up != Null ==> (links[up].left == a <==> p[0].InLeft?))
  {
    Surroundings(p, s, links);
    assert s.l.id in Ids(s) && s.l.r.id in Ids(s);
    assert Repr(s.l, links, s.id) && Repr(s.l.r, links, s.l.id);
    assert Ids(s.l) == Ids(s.l.l) + {s.l.id} + Ids(s.l.r);
    assert Ids(s.l.r) <= Ids(s) && Ids(s.l.r) == Ids(s.l.r.l) + {s.l.r.id} + Ids(s.l.r.r);
    assert Unique(s.l) && Unique(s.l.r);
    assert s.l.r.l.Br? ==> s.l.r.l.id in Ids(s.l.r.l);
    assert s.l.r.r.Br? ==> s.l.r.r.id in Ids(s.l.r.r);
    if p != [] {
      HoleSide(p, s, links);
    }
  }

  /** rotateRR on the arena: the links it leaves lay out ShapeRR in place of `s`, and `top` is the new root. */
  method RelinkRR(links: seq<Link>, root: int, a: nat, ghost p: Path, ghost s: Tree) returns (ls: seq<Link>, top: int)
    requires Repr(Plug(p, s), links, Null) && Unique(Plug(p, s)) && root == Root(Plug(p, s))
    requires s.Br? && s.id == a && s.r.Br?
    ensures Repr(Plug(p, ShapeRR(s)), ls, Null) && Unique(Plug(p, ShapeRR(s))) && top == Root(Plug(p, ShapeRR(s)))
    ensures SameExcept(links, ls, {a, s.r.id, Root(s.r.l), Up(p)})
  {
    StartRR(p, s, links);
    var b := links[a].right;
    ls, top := RaiseRight(links, root, a, b, Root(s.r.l), Up(p), p != [] && p[0].InLeft?);
    LayoutRR(p, s, links, ls);
    if p != [] {
      PlugRoot(p, s, ShapeRR(s));
    }
  }

  /** rotateLL on the arena: the links it leaves lay out ShapeLL in place of `s`, and `top` is the new root. */
  method RelinkLL(links: seq<Link>, root: int, a: nat, ghost p: Path, ghost s: Tree) returns (ls: seq<Link>, top: int)
    requires Repr(Plug(p, s), links, Null) && Unique(Plug(p, s)) && root == Root(Plug(p, s))
    requires s.Br? && s.id == a && s.l.Br?
    ensures Repr(Plug(p, ShapeLL(s)), ls, Null) && Unique(Plug(p, ShapeLL(s))) && top == Root(Plug(p, ShapeLL(s)))
    ensures SameExcept(links, ls, {a, s.l.id, Root(s.l.r), Up(p)})
  {
    StartLL(p, s, links);
    var b := links[a].left;
    ls, top := RaiseLeft(links, root, a, b, Root(s.l.r), Up(p), p != [] && p[0].InLeft?);
    LayoutLL(p, s, links, ls);
    if p != [] {
      PlugRoot(p, s, ShapeLL(s));
    }
  }

  /** rotateRL on the arena: the links it leaves lay out ShapeRL in place of `s`, and `top` is the new root. */
  method RelinkRL(links: seq<Link>, root: int, a: nat, ghost p: Path, ghost s: Tree) returns (ls: seq<Link>, top: int)
    requires Repr(Plug(p, s), links, Null) && Unique(Plug(p, s)) && root == Root(Plug(p, s))
    requires s.Br? && s.id == a && s.r.Br? && s.r.l.Br?
    ensures Repr(Plug(p, ShapeRL(s)), ls, Null) && Unique(Plug(p, ShapeRL(s))) && top == Root(Plug(p, ShapeRL(s)))
    ensures SameExcept(links, ls, {a, s.r.id, s.r.l.id, Root(s.r.l.l), Root(s.r.l.r), Up(p)})
  {
    StartRL(p, s, links);
    var b := links[a].right;
    var c := links[b].left;
    var turned := TurnUnderRight(links, b, c, Root(s.r.l.r));
    ls, top := RaiseRight(turned, root, a, c, Root(s.r.l.l), Up(p), p != [] && p[0].InLeft?);
    SameExceptChain(links, turned, ls, {b, c, Root(s.r.l.r)}, {a, c, Root(s.r.l.l), Up(p)});
    assert {b, c, Root(s.r.l.r)} + {a, c, Root(s.r.l.l), Up(p)} == {a, s.r.id, s.r.l.id, Root(s.r.l.l), Root(s.r.l.r), Up(p)};
    LayoutRL(p, s, links, ls);
    if p != [] {
      PlugRoot(p, s, ShapeRL(s));
    }
  }

  /** rotateLR on the arena: the links it leaves lay out ShapeLR in place of `s`, and `top` is the new root. */
  method RelinkLR(links: seq<Link>, root: int, a: nat, ghost p: Path, ghost s: Tree) returns (ls: seq<Link>, top: int)
    requires Repr(Plug(p, s), links, Null) && Unique(Plug(p, s)) && root == Root(Plug(p, s))
    requires s.Br? && s.id == a && s.l.Br? && s.l.r.Br?
    ensures Repr(Plug(p, ShapeLR(s)), ls, Null) && Unique(Plug(p, ShapeLR(s))) && top == Root(Plug(p, ShapeLR(s)))
    ensures SameExcept(links, ls, {a, s.l.id, s.l.r.id, Root(s.l.r.l), Root(s.l.r.r), Up(p)})
  {
    StartLR(p, s, links);
    var b := links[a].left;
    var c := links[b].right;
    var turned := TurnUnderLeft(links, b, c, Root(s.l.r.l));
    ls, top := RaiseLeft(turned, root, a, c, Root(s.l.r.r), Up(p), p != [] && p[0].InLeft?);
    SameExceptChain(links, turned, ls, {b, c, Root(s.l.r.l)}, {a, c, Root(s.l.r.r), Up(p)});
    assert {b, c, Root(s.l.r.l)} + {a, c, Root(s.l.r.r), Up(p)} == {a, s.l.id, s.l.r.id, Root(s.l.r.l), Root(s.l.r.r), Up(p)};
    LayoutLR(p, s, links, ls);
    if p != [] {
      PlugRoot(p, s, ShapeLR(s));
    }
  }
}
