/**
 * Deletion from TreeMap (TreeMap.h:472-597) on the arena's fields.
 *
 * `removeNode(x)` either unhooks `x` itself, when it has at most one child, or
 * first unhooks the in-order predecessor `w` of `x` (which has no right child)
 * and then moves `w` into `x`'s slot. Unhooking a node splices its child into
 * its place and walks the balance factors upwards, rotating where the walk
 * finds a lean it cannot absorb.
 */
module TreeRemoval {
  import opened TreeShape
  import opened TreeMaps
  import opened TreeIterators
  import opened Outcomes
  import opened SizeT
  import Rotations

  // ---------------------------------------------------------------------------
  // Shapes.

  /** What takes the place of a node with at most one child: that child's subtree, or nothing. */
  ghost function Survivor(s: Tree): Tree
    requires s.Br?
  {
    if s.l.Br? then s.l else s.r
  }

  /** What TreeMap.h:509-520 leaves in that place: the child alone, its own subtrees cut off. */
  ghost function Stripped(s: Tree): Tree
    requires s.Br?
  {
    var c := Survivor(s);
    if c.Br? then Br(Nil, c.id, Nil) else Nil
  }

  /** A tree with no grandchildren below its root: nothing, or a single node. */
  ghost predicate Shallow(t: Tree)
  {
    t.Nil? || (t.l.Nil? && t.r.Nil?)
  }

  /** The subtree at the rightmost node of `t`. */
  ghost function Rightmost(t: Tree): (r: Tree)
    requires t.Br?
    ensures r.Br? && r.r.Nil?
    decreases t
  {
    if t.r.Br? then Rightmost(t.r) else t
  }

  /** The path from the rightmost node of `t` up to the root of `t`. */
  ghost function RightSpine(t: Tree): Path
    requires t.Br?
    decreases t
  {
    if t.r.Br? then RightSpine(t.r) + [InRight(t.l, t.id)] else []
  }

  /** The node removeNode unhooks for a victim `s`: `s` itself, or its predecessor. */
  ghost function Unhooked(s: Tree): Tree
    requires s.Br?
  {
    if s.l.Br? && s.r.Br? then Rightmost(s.l) else s
  }

  /** The in-order nodes left of the node at the root of `s`, and right of it. */
  ghost function LeftOf(p: Path, s: Tree): seq<nat>
    requires s.Br?
  {
    CtxBefore(p) + InOrder(s.l)
  }

  ghost function RightOf(p: Path, s: Tree): seq<nat>
    requires s.Br?
  {
    InOrder(s.r) + CtxAfter(p)
  }

  lemma {:induction false} RightSpinePlug(t: Tree)
    requires t.Br?
    ensures Plug(RightSpine(t), Rightmost(t)) == t
    ensures Rightmost(t).Br? && Rightmost(t).r.Nil? && Rightmost(t).id == Last(InOrder(t))
    decreases t
  {
    if t.r.Br? {
      RightSpinePlug(t.r);
      PlugSnoc(RightSpine(t.r), InRight(t.l, t.id), Rightmost(t.r));
      InOrderIds(t.r);
      assert InOrder(t) == (InOrder(t.l) + [t.id]) + InOrder(t.r);
    } else {
      assert InOrder(t) == InOrder(t.l) + [t.id];
    }
  }

  lemma {:induction false} PlugAppend(q: Path, r: Path, s: Tree)
    ensures Plug(q + r, s) == Plug(r, Plug(q, s))
    decreases |q|
  {
    if q == [] {
      assert q + r == r;
    } else {
      assert (q + r)[1..] == q[1..] + r;
      PlugAppend(q[1..], r, Fill(q[0], s));
    }
  }

  lemma {:induction false} CtxIdsAppend(q: Path, r: Path)
    ensures CtxIds(q + r) == CtxIds(q) + CtxIds(r)
    decreases |q|
  {
    if q == [] {
      assert q + r == r;
    } else {
      assert (q + r)[1..] == q[1..] + r;
      CtxIdsAppend(q[1..], r);
    }
  }

  /** The path to the predecessor of a node with two children runs down its left subtree's right spine. */
  lemma PredecessorPath(p: Path, s: Tree)
    requires s.Br? && s.l.Br?
    ensures var pw := RightSpine(s.l) + [InLeft(s.id, s.r)] + p;
      Plug(pw, Rightmost(s.l)) == Plug(p, s) && s.id in CtxIds(pw) && CtxIds(p) <= CtxIds(pw)
  {
    var q, f := RightSpine(s.l), InLeft(s.id, s.r);
    RightSpinePlug(s.l);
    PlugAppend(q + [f], p, Rightmost(s.l));
    PlugSnoc(q, f, Rightmost(s.l));
    CtxIdsAppend(q + [f], p);
    CtxIdsAppend(q, [f]);
    assert CtxIds([f]) == {s.id} + Ids(s.r) + CtxIds([f][1..]);
  }

  // ---------------------------------------------------------------------------
  // Positions in sequences without repeats.

  /** In `L + [x] + R` with `x` not in `L`, the first `x` sits at index `|L|`. */
  lemma FirstAt(w: seq<nat>, L: seq<nat>, x: nat, R: seq<nat>)
    requires w == L + [x] + R && x !in L
    ensures |L| < |w| && w[|L|] == x && forall i | 0 <= i < |L| :: w[i] != x
  {
    assert forall i | 0 <= i < |L| :: w[i] == L[i];
  }

  /** An element that occurs once splits a sequence in only one way. */
  lemma SplitUnique(L: seq<nat>, x: nat, R: seq<nat>, L': seq<nat>, R': seq<nat>)
    requires L + [x] + R == L' + [x] + R' && x !in L && x !in L'
    ensures L == L' && R == R'
  {
    var w := L + [x] + R;
    FirstAt(w, L, x, R);
    FirstAt(w, L', x, R');
    assert |L| == |L'|;
    assert L == w[..|L|] == L';
    assert R == w[|L| + 1..] == R';
  }

  /**
   * Removing the predecessor `w` of `x` and then putting `w` where `x` was leaves
   * the sequence without `x`.
   */
  lemma SwapOut(W: seq<nat>, C: seq<nat>, x: nat, D: seq<nat>, A: seq<nat>, w: nat, B: seq<nat>, L: seq<nat>, R: seq<nat>)
    requires NoDup(W) && W == C + [x] + D && x !in C
    requires C != [] && C[|C| - 1] == w
    requires W == A + [w] + B && w !in A
    requires A + B == L + [x] + R && x !in L
    ensures L + [w] + R == C + D
  {
    var C' := C[..|C| - 1];
    assert C == C' + [w];
    assert W == C' + [w] + ([x] + D);
    NoDupMiddle(W, C', w, [x] + D);
    SplitUnique(A, w, B, C', [x] + D);
    assert A + B == C' + [x] + D;
    assert x !in C';
    SplitUnique(L, x, R, C', D);
  }

  // ---------------------------------------------------------------------------
  // Unlinking a node with at most one child (TreeMap.h:493-529).

  /** Splicing `c` into the place of `s` lays out the tree without the node of `s`. */
  lemma DetachLayout(p: Path, s: Tree, c: Tree, links: seq<Link>, ls: seq<Link>)
    requires Repr(Plug(p, s), links, Null) && Unique(Plug(p, s)) && s.Br?
    requires (c == s.l || c == s.r) && Ids(c) <= Ids(s) - {s.id}
    requires SameExcept(links, ls, {s.id, Root(c), Up(p)})
    requires c.Br? ==> c.id < |ls| && ls[c.id] == links[c.id].(parent := Up(p))
    requires p != [] ==> Up(p) < |ls| && ls[Up(p)] == Reslot(p[0], links[Up(p)], Root(c))
    ensures Repr(Plug(p, c), ls, Null) && Unique(Plug(p, c))
  {
    ghost var X: set<int> := {s.id, Root(c), Up(p)};
    Surroundings(p, s, links);
    assert Repr(c, links, s.id) && Unique(c);
    assert c.Br? ==> c.id !in Ids(c.l) + Ids(c.r) && Ids(c) == Ids(c.l) + {c.id} + Ids(c.r);
    MoveLayout(c, links, ls, X, s.id, Up(p));
    if p != [] {
      AgreeOutside(links, ls, X, Ids(p[0].sib) + CtxIds(p[1..]), Ids(Plug(p, s)));
    }
    PlugReplace(p, s, c, links, ls);
  }

  /**
   * The unlinking of removeNode's second branch, corrected: `x`'s only child `y`
   * (or nothing) takes `x`'s place and keeps its own subtrees.
   */
  method Detach(links: seq<Link>, root: int, x: nat, ghost p: Path, ghost s: Tree) returns (ls: seq<Link>, top: int, y: int)
    requires Repr(Plug(p, s), links, Null) && Unique(Plug(p, s)) && root == Root(Plug(p, s))
    requires s.Br? && s.id == x && (s.l.Nil? || s.r.Nil?)
    ensures y == Root(Survivor(s)) && |ls| == |links|
    ensures Repr(Plug(p, Survivor(s)), ls, Null) && Unique(Plug(p, Survivor(s))) && top == Root(Plug(p, Survivor(s)))
  {
    Surroundings(p, s, links);
    ghost var c := Survivor(s);
    ghost var X: set<int> := {x, Root(c), Up(p)};
    ls, top := links, root;
    if ls[x].left != Null {
      y := ls[x].left;
      SameExceptUpdate(links, ls, X, x, ls[x].(left := Null));
      ls := ls[x := ls[x].(left := Null)];
    } else {
      y := ls[x].right;
      SameExceptUpdate(links, ls, X, x, ls[x].(right := Null));
      ls := ls[x := ls[x].(right := Null)];
    }
    assert Ids(c) <= Ids(s) - {x} && (c.Br? ==> c.id in Ids(c));
    if y != Null {
      SameExceptUpdate(links, ls, X, y, ls[y].(parent := ls[x].parent));
      ls := ls[y := ls[y].(parent := ls[x].parent)];
    }
    var up := ls[x].parent;
    if up != Null {
      HoleSide(p, s, links);
      if ls[up].left == x {
        SameExceptUpdate(links, ls, X, up, ls[up].(left := y));
        ls := ls[up := ls[up].(left := y)];
      } else {
        SameExceptUpdate(links, ls, X, up, ls[up].(right := y));
        ls := ls[up := ls[up].(right := y)];
      }
      PlugRoot(p, s, c);
    } else {
      top := y;
    }
    DetachLayout(p, s, c, links, ls);
  }

  /**
   * The same unlinking as written (TreeMap.h:497-529): after `y` takes `x`'s parent
   * it is also given `x`'s own child pointers, which are both null by then, so the
   * subtrees of `y` are cut off. (The re-parenting steps of lines 514-515 and
   * 518-519 find null pointers and do nothing.)
   */
  method DetachAsWritten(links: seq<Link>, root: int, x: nat, ghost p: Path, ghost s: Tree) returns (ls: seq<Link>, top: int, y: int)
    requires Repr(Plug(p, s), links, Null) && Unique(Plug(p, s)) && root == Root(Plug(p, s))
    requires s.Br? && s.id == x && (s.l.Nil? || s.r.Nil?)
    ensures y == Root(Survivor(s)) && |ls| == |links|
    ensures Repr(Plug(p, Stripped(s)), ls, Null) && Unique(Plug(p, Stripped(s))) && top == Root(Plug(p, Stripped(s)))
  {
    Surroundings(p, s, links);
    ghost var c := Stripped(s);
    ghost var X: set<int> := {x, Root(c), Up(p)};
    ls, top := links, root;
    if ls[x].left != Null {
      y := ls[x].left;
      SameExceptUpdate(links, ls, X, x, ls[x].(left := Null));
      ls := ls[x := ls[x].(left := Null)];
    } else {
      y := ls[x].right;
      SameExceptUpdate(links, ls, X, x, ls[x].(right := Null));
      ls := ls[x := ls[x].(right := Null)];
    }
    assert Survivor(s).Br? ==> Survivor(s).id in Ids(s) - {x};
    if y != Null {
      SameExceptUpdate(links, ls, X, y, ls[y].(parent := ls[x].parent));
      ls := ls[y := ls[y].(parent := ls[x].parent)];
      SameExceptUpdate(links, ls, X, y, ls[y].(left := ls[x].left));
      ls := ls[y := ls[y].(left := ls[x].left)];
      SameExceptUpdate(links, ls, X, y, ls[y].(right := ls[x].right));
      ls := ls[y := ls[y].(right := ls[x].right)];
    }
    var up := ls[x].parent;
    if up != Null {
      HoleSide(p, s, links);
      if ls[up].left == x {
        SameExceptUpdate(links, ls, X, up, ls[up].(left := y));
        ls := ls[up := ls[up].(left := y)];
      } else {
        SameExceptUpdate(links, ls, X, up, ls[up].(right := y));
        ls := ls[up := ls[up].(right := y)];
      }
      PlugRoot(p, s, c);
    } else {
      top := y;
    }
    StrippedLayout(p, s, links, ls);
  }

  /** The cut-off child laid out in the place of `s`. */
  lemma StrippedLayout(p: Path, s: Tree, links: seq<Link>, ls: seq<Link>)
    requires Repr(Plug(p, s), links, Null) && Unique(Plug(p, s)) && s.Br? && (s.l.Nil? || s.r.Nil?)
    requires SameExcept(links, ls, {s.id, Root(Stripped(s)), Up(p)})
    requires Stripped(s).Br? ==> Stripped(s).id < |ls| && ls[Stripped(s).id] == Link(Null, Null, Up(p))
    requires p != [] ==> Up(p) < |ls| && ls[Up(p)] == Reslot(p[0], links[Up(p)], Root(Stripped(s)))
    ensures Repr(Plug(p, Stripped(s)), ls, Null) && Unique(Plug(p, Stripped(s)))
  {
    var c := Stripped(s);
    ghost var X: set<int> := {s.id, Root(c), Up(p)};
    Surroundings(p, s, links);
    assert Ids(c) <= Ids(Survivor(s)) <= Ids(s) - {s.id};
    if p != [] {
      AgreeOutside(links, ls, X, Ids(p[0].sib) + CtxIds(p[1..]), Ids(Plug(p, s)));
    }
    PlugReplace(p, s, c, links, ls);
  }

  // ---------------------------------------------------------------------------
  // Moving the predecessor into the victim's slot (TreeMap.h:509-529 for a node
  // with two children).

  /** `w`, hung below `up` with the children of `s`, makes a subtree of its own. */
  lemma HangInPlace(s: Tree, w: nat, up: int, links: seq<Link>, ls: seq<Link>, X: set<int>)
    requires Repr(s, links, up) && Unique(s) && s.Br? && w !in Ids(s) && up !in Ids(s)
    requires X == {w, Root(s.l), Root(s.r), up} && SameExcept(links, ls, X)
    requires w < |ls| && ls[w] == Link(Root(s.l), Root(s.r), up)
    requires s.l.Br? ==> s.l.id < |ls| && ls[s.l.id] == links[s.l.id].(parent := w)
    requires s.r.Br? ==> s.r.id < |ls| && ls[s.r.id] == links[s.r.id].(parent := w)
    ensures Repr(Br(s.l, w, s.r), ls, up) && Unique(Br(s.l, w, s.r))
  {
    var l, r := s.l, s.r;
    assert l.Br? ==> l.id !in Ids(l.l) + Ids(l.r) && Ids(l) == Ids(l.l) + {l.id} + Ids(l.r);
    assert r.Br? ==> r.id !in Ids(r.l) + Ids(r.r) && Ids(r) == Ids(r.l) + {r.id} + Ids(r.r);
    MoveLayout(l, links, ls, X, s.id, w);
    MoveLayout(r, links, ls, X, s.id, w);
  }

  /** Links changed only at `w`, `a`, `b` and `u` still agree on the part `S` of the context. */
  lemma AgreeAround(links: seq<Link>, ls: seq<Link>, S: set<nat>, C: set<nat>, U: set<nat>, I: set<nat>, w: int, a: int, b: int, u: int)
    requires SameExcept(links, ls, {w, a, b, u}) && forall i | i in U :: i < |links|
    requires S <= C <= U && I !! C && w !in C && u !in S && (a == Null || a in I) && (b == Null || b in I)
    ensures Agree(links, ls, S)
  {
    AgreeOutside(links, ls, {w, a, b, u}, S, U);
  }

  /** `w`, not in the tree, laid out in the place of `x` with `x`'s children. */
  lemma RelocateLayout(p: Path, s: Tree, w: nat, links: seq<Link>, ls: seq<Link>)
    requires Repr(Plug(p, s), links, Null) && Unique(Plug(p, s)) && s.Br? && w !in Ids(Plug(p, s))
    requires SameExcept(links, ls, {w, Root(s.l), Root(s.r), Up(p)})
    requires w < |ls| && ls[w] == Link(Root(s.l), Root(s.r), Up(p))
    requires s.l.Br? ==> s.l.id < |ls| && ls[s.l.id] == links[s.l.id].(parent := w)
    requires s.r.Br? ==> s.r.id < |ls| && ls[s.r.id] == links[s.r.id].(parent := w)
    requires p != [] ==> Up(p) < |ls| && ls[Up(p)] == Reslot(p[0], links[Up(p)], w)
    ensures Repr(Plug(p, Br(s.l, w, s.r)), ls, Null) && Unique(Plug(p, Br(s.l, w, s.r)))
  {
    ghost var X: set<int> := {w, Root(s.l), Root(s.r), Up(p)};
    Surroundings(p, s, links);
    assert Up(p) !in Ids(s);
    HangInPlace(s, w, Up(p), links, ls, X);
    assert Ids(s) == Ids(s.l) + {s.id} + Ids(s.r);
    assert Ids(Br(s.l, w, s.r)) !! CtxIds(p);
    if p != [] {
      ghost var S := Ids(p[0].sib) + CtxIds(p[1..]);
      assert (s.l.Br? ==> s.l.id in Ids(s)) && (s.r.Br? ==> s.r.id in Ids(s));
      AgreeAround(links, ls, S, CtxIds(p), Ids(Plug(p, s)), Ids(s), w, Root(s.l), Root(s.r), Up(p));
    }
    PlugReplace(p, s, Br(s.l, w, s.r), links, ls);
  }

  /** `w` takes over the links of `x`, and `x`'s children point back at `w`. */
  method Adopt(links: seq<Link>, x: nat, w: nat) returns (ls: seq<Link>)
    requires x < |links| && w < |links| && links[x].left != w && links[x].right != w
    requires links[x].left == Null || 0 <= links[x].left < |links|
    requires links[x].right == Null || 0 <= links[x].right < |links|
    requires links[x].left != links[x].right || links[x].left == Null
    ensures SameExcept(links, ls, {w, links[x].left, links[x].right})
    ensures ls[w] == links[x]
    ensures links[x].left != Null ==> ls[links[x].left] == links[links[x].left].(parent := w)
    ensures links[x].right != Null ==> ls[links[x].right] == links[links[x].right].(parent := w)
  {
    var k := links[x];
    ls := links;
    ls := ls[w := ls[w].(parent := k.parent)];
    ls := ls[w := ls[w].(left := k.left)];
    if ls[w].left != Null {
      ls := ls[ls[w].left := ls[ls[w].left].(parent := w)];
    }
    ls := ls[w := ls[w].(right := k.right)];
    if ls[w].right != Null {
      ls := ls[ls[w].right := ls[ls[w].right].(parent := w)];
    }
  }

  /**
   * removeNode's relinking when `y` is the predecessor `w` that was just unhooked
   * (TreeMap.h:509-529): `w` takes `x`'s parent, `x`'s children (which point back
   * at `w`) and `x`'s slot in the parent, or the root.
   */
  method Relocate(links: seq<Link>, root: int, x: nat, w: nat, ghost p: Path, ghost s: Tree) returns (ls: seq<Link>, top: int)
    requires Repr(Plug(p, s), links, Null) && Unique(Plug(p, s)) && root == Root(Plug(p, s))
    requires s.Br? && s.id == x && w !in Ids(Plug(p, s)) && w < |links|
    ensures |ls| == |links|
    ensures Repr(Plug(p, Br(s.l, w, s.r)), ls, Null) && Unique(Plug(p, Br(s.l, w, s.r)))
    ensures top == Root(Plug(p, Br(s.l, w, s.r)))
  {
    Surroundings(p, s, links);
    assert s.l.Br? ==> s.l.id in Ids(s) && s.l.id != w;
    assert s.r.Br? ==> s.r.id in Ids(s) && s.r.id != w && s.r.id != Root(s.l);
    var up := links[x].parent;
    ls := Adopt(links, x, w);
    top := root;
    ghost var mid := ls;
    if up != Null {
      HoleSide(p, s, links);
      if links[up].left == x {
        ls := ls[up := ls[up].(left := w)];
      } else {
        ls := ls[up := ls[up].(right := w)];
      }
      PlugRoot(p, s, Br(s.l, w, s.r));
    } else {
      top := w;
    }
    assert SameExcept(mid, ls, {up});
    Rotations.SameExceptChain(links, mid, ls, {w, Root(s.l), Root(s.r)}, {up});
    assert {w, Root(s.l), Root(s.r)} + {up} == {w, Root(s.l), Root(s.r), Up(p)};
    RelocateLayout(p, s, w, links, ls);
  }

  // ---------------------------------------------------------------------------
  // Putting a well-formed arena back together.

  /** The arena invariant from its layout, order, balance-factor range and counter. */
  lemma Establish<V>(links: seq<Link>, keys: seq<int>, values: seq<V>, bf: seq<int>, root: int, size: nat, t: Tree)
    requires |keys| == |links| && |values| == |links| && |bf| == |links|
    requires Repr(t, links, Null) && Unique(t) && root == Root(t)
    requires Ordered(keys, InOrder(t)) && Balances(bf) && size < Wrap
    ensures Wellformed(links, keys, values, bf, root, size, t)
  {
    ReprBounds(t, links, Null);
    IdsBelow(InOrder(t), t, |links|);
  }

  /** Setting one balance factor to -1, 0 or 1 keeps the arena well formed. */
  lemma Rebalanced<V>(links: seq<Link>, keys: seq<int>, values: seq<V>, bf: seq<int>, root: int, size: nat, t: Tree, n: nat, v: int)
    requires Wellformed(links, keys, values, bf, root, size, t) && n < |bf| && -1 <= v <= 1
    ensures Wellformed(links, keys, values, bf[n := v], root, size, t)
  {
    assert Balances(bf[n := v]);
  }

  // ---------------------------------------------------------------------------
  // The balance-factor walk after an unlinking (TreeMap.h:531-597).

  /**
   * The rotating cases of the walk at `y`, which leans towards the side other than
   * `z`'s: the sibling `t` of `z` decides between case 3A (single rotation, stop),
   * 3B (single rotation, go on above `t`) and 3C (double rotation, go on above the
   * new subtree root). A null `t`, or a null inner grandchild in case 3C, is the
   * null dereference of TreeMap.h:562 or 217/266; the walk stops there.
   */
  method Restore<V>(links: seq<Link>, keys: seq<int>, values: seq<V>, bf: seq<int>, root: int, size: nat,
                    z: int, y: nat, ghost zp: Path, ghost zs: Tree)
    returns (ls: seq<Link>, top: int, bs: seq<int>, st: Status, more: bool, z': int, y': int, ghost zp': Path, ghost zs': Tree)
    requires Wellformed(links, keys, values, bf, root, size, Plug(zp, zs))
    requires zp != [] && y == Up(zp) && z == Root(zs) && y < |bf| && bf[y] != 0
    requires !((bf[y] == 1 && links[y].left == z) || (bf[y] == -1 && links[y].right == z))
    ensures Wellformed(ls, keys, values, bs, top, size, Plug(zp', zs')) && |ls| == |links|
    ensures InOrder(Plug(zp', zs')) == InOrder(Plug(zp, zs)) && Ids(Plug(zp', zs')) == Ids(Plug(zp, zs))
    ensures st == Done || st == Failed(NullDereference)
    ensures more ==> st == Done && |zp'| < |zp| && y' == Up(zp') && z' == Root(zs')
  {
    ls, top, bs, st, more, z', y', zp', zs' := links, root, bf, Done, false, z, y, zp, zs;
    ghost var p, s := zp[1..], Fill(zp[0], zs);
    assert Plug(zp, zs) == Plug(p, s);
    HoleSide(zp, zs, links);
    Surroundings(p, s, links);
    assert links[y] == Link(Root(s.l), Root(s.r), Up(p));
    var t := if links[y].left == z then links[y].right else links[y].left;
    if t == Null {
      st := Failed(NullDereference);
      return;
    }
    assert t == (if bf[y] == 1 then Root(s.l) else Root(s.r));
    if bf[t] == 0 {
      if bf[y] == 1 {
        ls, top, bs := RotateLLArena(links, keys, values, bf, root, size, y, p, s);
        zp', zs' := p, ShapeLL(s);
      } else {
        ls, top, bs := RotateRRArena(links, keys, values, bf, root, size, y, p, s);
        zp', zs' := p, ShapeRR(s);
      }
    } else if bf[y] == bf[t] {
      if bf[y] == 1 {
        ls, top, bs := RotateLLArena(links, keys, values, bf, root, size, y, p, s);
        zp', zs' := p, ShapeLL(s);
      } else {
        ls, top, bs := RotateRRArena(links, keys, values, bf, root, size, y, p, s);
        zp', zs' := p, ShapeRR(s);
      }
      Surroundings(zp', zs', ls);
      z', y', more := t, ls[t].parent, true;
    } else {
      assert Repr(if bf[y] == 1 then s.l else s.r, links, y);
      if bf[y] == 1 {
        if links[t].right == Null {
          st := Failed(NullDereference);
          return;
        }
        ls, top, bs := RotateLRArena(links, keys, values, bf, root, size, y, p, s);
        zp', zs' := p, ShapeLR(s);
      } else {
        if links[t].left == Null {
          st := Failed(NullDereference);
          return;
        }
        ls, top, bs := RotateRLArena(links, keys, values, bf, root, size, y, p, s);
        zp', zs' := p, ShapeRL(s);
      }
      Surroundings(zp', zs', ls);
      assert Repr(zs'.l, ls, zs'.id) && Repr(zs'.r, ls, zs'.id);
      z' := ls[y].parent;
      y', more := ls[z'].parent, true;
    }
  }

  /**
   * The walk of TreeMap.h:531-593 from `y`, the parent of the subtree `z` that just
   * became one level lower: a zero balance factor takes the lean and stops the walk,
   * a lean towards `z` is absorbed and the walk goes on one level up, and a lean
   * away from `z` is rotated away. The contents and their order do not change.
   */
  method Rebalance<V>(links: seq<Link>, keys: seq<int>, values: seq<V>, bf: seq<int>, root: int, size: nat,
                      child: int, parent: int, ghost cp: Path, ghost cs: Tree)
    returns (ls: seq<Link>, top: int, bs: seq<int>, st: Status, ghost shape: Tree)
    requires Wellformed(links, keys, values, bf, root, size, Plug(cp, cs)) && parent == Up(cp) && child == Root(cs)
    ensures Wellformed(ls, keys, values, bs, top, size, shape) && |ls| == |links|
    ensures InOrder(shape) == InOrder(Plug(cp, cs)) && Ids(shape) == Ids(Plug(cp, cs))
    ensures st == Done || st == Failed(NullDereference)
  {
    ls, top, bs, st := links, root, bf, Done;
    var z, y := child, parent;
    ghost var zp, zs := cp, cs;
    while y != Null
      invariant Wellformed(ls, keys, values, bs, top, size, Plug(zp, zs)) && |ls| == |links|
      invariant InOrder(Plug(zp, zs)) == InOrder(Plug(cp, cs)) && Ids(Plug(zp, zs)) == Ids(Plug(cp, cs))
      invariant y == Up(zp) && z == Root(zs) && st == Done
      decreases |zp|
    {
      HoleSide(zp, zs, ls);
      if bs[y] == 0 {
        var v := if ls[y].left == z then -1 else 1;
        Rebalanced(ls, keys, values, bs, top, size, Plug(zp, zs), y, v);
        bs := bs[y := v];
        break;
      } else if (bs[y] == 1 && ls[y].left == z) || (bs[y] == -1 && ls[y].right == z) {
        Rebalanced(ls, keys, values, bs, top, size, Plug(zp, zs), y, 0);
        bs := bs[y := 0];
        zp, zs := zp[1..], Fill(zp[0], zs);
        Surroundings(zp, zs, ls);
        z, y := y, ls[y].parent;
      } else {
        var more;
        ls, top, bs, st, more, z, y, zp, zs := Restore(ls, keys, values, bs, top, size, z, y, zp, zs);
        if !more {
          break;
        }
      }
    }
    shape := Plug(zp, zs);
  }

  // ---------------------------------------------------------------------------
  // Unhooking a node with at most one child.

  /** Splicing out a node with at most one child leaves the other nodes in order. */
  lemma SpliceOut(keys: seq<int>, p: Path, s: Tree)
    requires Unique(Plug(p, s)) && Ordered(keys, InOrder(Plug(p, s)))
    requires s.Br? && (s.l.Nil? || s.r.Nil?)
    ensures InOrder(Plug(p, Survivor(s))) == LeftOf(p, s) + RightOf(p, s)
    ensures Ids(Plug(p, Survivor(s))) == Ids(Plug(p, s)) - {s.id}
    ensures Ordered(keys, LeftOf(p, s) + RightOf(p, s))
  {
    Position(p, s);
    OrderedSlice(keys, LeftOf(p, s), [s.id], RightOf(p, s));
    PlugInOrder(p, Survivor(s));
    var a, b, d, e := CtxBefore(p), InOrder(s.l), InOrder(s.r), CtxAfter(p);
    assert InOrder(Survivor(s)) == b + d;
    Regroup(a, b, [], d, e);
    PlugUnique(p, s);
    PlugIds(p, s);
    PlugIds(p, Survivor(s));
  }

  /** Dropping the entries around `c` inside the middle keeps the rest in order. */
  lemma DropAround(keys: seq<int>, a: seq<nat>, A: seq<nat>, c: nat, B: seq<nat>, e: seq<nat>)
    requires Ordered(keys, a + (A + [c] + B) + e)
    ensures Ordered(keys, a + [c] + e)
  {
    assert a + (A + [c] + B) + e == a + A + ([c] + B + e);
    OrderedSlice(keys, a, A, [c] + B + e);
    assert a + ([c] + B + e) == (a + [c]) + B + e;
    OrderedSlice(keys, a + [c], B, e);
  }

  /** With the survivor's own subtrees cut off, the context keeps its order around the survivor. */
  lemma CutOff(keys: seq<int>, p: Path, s: Tree)
    requires Unique(Plug(p, s)) && Ordered(keys, InOrder(Plug(p, s)))
    requires s.Br? && (s.l.Nil? || s.r.Nil?)
    ensures InOrder(Plug(p, Stripped(s))) == CtxBefore(p) + InOrder(Stripped(s)) + CtxAfter(p)
    ensures Ids(Plug(p, Stripped(s))) == CtxIds(p) + Ids(Stripped(s))
    ensures Ordered(keys, InOrder(Plug(p, Stripped(s))))
  {
    SpliceOut(keys, p, s);
    PlugInOrder(p, Stripped(s));
    PlugIds(p, Stripped(s));
    var c := Survivor(s);
    PlugInOrder(p, c);
    if c.Br? {
      assert InOrder(Stripped(s)) == [c.id];
      DropAround(keys, CtxBefore(p), InOrder(c.l), c.id, InOrder(c.r), CtxAfter(p));
    }
  }

  /** A survivor without grandchildren loses nothing when cut off. */
  lemma ShallowKept(s: Tree)
    requires s.Br? && Shallow(Survivor(s))
    ensures Stripped(s) == Survivor(s)
  {
  }

  /**
   * The nested branch of removeNode (TreeMap.h:493-507, 531-593), corrected: the
   * only child, or nothing, takes `x`'s place, and the walk starts at `x`'s parent.
   * The other nodes stay, in order.
   */
  method Unhook<V>(links: seq<Link>, keys: seq<int>, values: seq<V>, bf: seq<int>, root: int, size: nat,
                   x: nat, ghost p: Path, ghost s: Tree)
    returns (ls: seq<Link>, top: int, bs: seq<int>, st: Status, ghost shape: Tree)
    requires Wellformed(links, keys, values, bf, root, size, Plug(p, s))
    requires s.Br? && s.id == x && (s.l.Nil? || s.r.Nil?)
    ensures Wellformed(ls, keys, values, bs, top, size, shape) && |ls| == |links|
    ensures InOrder(shape) == LeftOf(p, s) + RightOf(p, s) && Ids(shape) == Ids(Plug(p, s)) - {x}
    ensures st == Done || st == Failed(NullDereference)
  {
    Surroundings(p, s, links);
    var up := links[x].parent;
    var y;
    ls, top, y := Detach(links, root, x, p, s);
    bs := bf[x := 0];
    assert Balances(bs);
    SpliceOut(keys, p, s);
    Establish(ls, keys, values, bs, top, size, Plug(p, Survivor(s)));
    ls, top, bs, st, shape := Rebalance(ls, keys, values, bs, top, size, y, up, p, Survivor(s));
  }

  /** The same branch as written: the child that takes `x`'s place loses its own subtrees. */
  method UnhookAsWritten<V>(links: seq<Link>, keys: seq<int>, values: seq<V>, bf: seq<int>, root: int, size: nat,
                            x: nat, ghost p: Path, ghost s: Tree)
    returns (ls: seq<Link>, top: int, bs: seq<int>, st: Status, ghost shape: Tree)
    requires Wellformed(links, keys, values, bf, root, size, Plug(p, s))
    requires s.Br? && s.id == x && (s.l.Nil? || s.r.Nil?)
    ensures Wellformed(ls, keys, values, bs, top, size, shape) && |ls| == |links|
    ensures InOrder(shape) == InOrder(Plug(p, Stripped(s))) == CtxBefore(p) + InOrder(Stripped(s)) + CtxAfter(p)
    ensures Ids(shape) == Ids(Plug(p, Stripped(s))) == CtxIds(p) + Ids(Stripped(s))
    ensures st == Done || st == Failed(NullDereference)
  {
    Surroundings(p, s, links);
    var up := links[x].parent;
    var y;
    ls, top, y := DetachAsWritten(links, root, x, p, s);
    bs := bf[x := 0];
    assert Balances(bs);
    CutOff(keys, p, s);
    Establish(ls, keys, values, bs, top, size, Plug(p, Stripped(s)));
    ls, top, bs, st, shape := Rebalance(ls, keys, values, bs, top, size, y, up, p, Stripped(s));
  }

  // ---------------------------------------------------------------------------
  // removeNode (TreeMap.h:485-597).

  lemma LastAppend(a: seq<nat>, b: seq<nat>)
    requires b != []
    ensures Last(a + b) == Last(b)
  {
    assert (a + b)[|a + b| - 1] == b[|b| - 1];
  }

  /** Where the predecessor of a node with two children sits, and what unhooking it leaves. */
  lemma PredecessorSpot(p: Path, s: Tree)
    requires Unique(Plug(p, s)) && s.Br? && s.l.Br? && s.r.Br?
    ensures Plug(RightSpine(s.l) + [InLeft(s.id, s.r)] + p, Rightmost(s.l)) == Plug(p, s)
    ensures s.id in CtxIds(RightSpine(s.l) + [InLeft(s.id, s.r)] + p)
    ensures Rightmost(s.l).Br? && Rightmost(s.l).r.Nil? && Rightmost(s.l).id != s.id
    ensures Rightmost(s.l).id == Before(InOrder(Plug(p, s)), s.id) == Last(LeftOf(p, s))
  {
    PredecessorPath(p, s);
    RightSpinePlug(s.l);
    Predecessor(p, s);
    InOrderIds(s.l);
    LastAppend(CtxBefore(p), InOrder(s.l));
    PlugUnique(p, s);
    assert Rightmost(s.l).id in InOrder(s.l);
  }

  /**
   * removeNode, corrected: a node with two children is replaced by its in-order
   * predecessor, which is unhooked first; any other node is unhooked itself. The
   * nodes of the whole tree become those before `x` followed by those after it.
   * A null dereference of the walk is reported and ends the walk only.
   */
  method RemoveNode<V>(links: seq<Link>, keys: seq<int>, values: seq<V>, bf: seq<int>, root: int, size: nat,
                       x: nat, ghost p: Path, ghost s: Tree)
    returns (ls: seq<Link>, top: int, bs: seq<int>, st: Status, ghost shape: Tree)
    requires Wellformed(links, keys, values, bf, root, size, Plug(p, s)) && s.Br? && s.id == x
    ensures Wellformed(ls, keys, values, bs, top, size, shape) && |ls| == |links|
    ensures InOrder(shape) == LeftOf(p, s) + RightOf(p, s) && Ids(shape) == Ids(Plug(p, s)) - {x}
    ensures st == Done || st == Failed(NullDereference)
    decreases if s.l.Br? && s.r.Br? then 1 else 0
  {
    Surroundings(p, s, links);
    if links[x].right != Null && links[x].left != Null {
      var w := Previous(links, Plug(p, s), x);
      PredecessorSpot(p, s);
      ghost var pw, sw := RightSpine(s.l) + [InLeft(x, s.r)] + p, Rightmost(s.l);
      var ls1, top1, bs1, st1, shape1 := RemoveNode(links, keys, values, bf, root, size, w, pw, sw);
      ghost var (p2, s2) := Locate(shape1, x);
      assert w == sw.id;
      PlugIds(pw, sw);
      assert w !in Ids(Plug(p2, s2)) && w < |ls1|;
      ls, top := Relocate(ls1, top1, x, w, p2, s2);
      bs, st := bs1, st1;
      shape := Plug(p2, Br(s2.l, w, s2.r));
      Replaced(keys, p, s, pw, sw, p2, s2);
      ReplacedIds(p2, s2, w, x, Ids(Plug(p, s)));
      Establish(ls, keys, values, bs, top, size, shape);
    } else {
      ls, top, bs, st, shape := Unhook(links, keys, values, bf, root, size, x, p, s);
    }
  }

  /** The in-order sequence with `w` in the place of the node at the hole. */
  lemma InOrderReplug(p: Path, s: Tree, w: nat)
    requires s.Br?
    ensures InOrder(Plug(p, Br(s.l, w, s.r))) == LeftOf(p, s) + [w] + RightOf(p, s)
  {
    PlugInOrder(p, Br(s.l, w, s.r));
    Regroup(CtxBefore(p), InOrder(s.l), [w], InOrder(s.r), CtxAfter(p));
  }

  /** The sequence of `x`'s tree with `x` at `|C|`, and its predecessor `w` last in `C`. */
  lemma SwapPositions(p: Path, s: Tree, pw: Path, sw: Tree)
    requires Unique(Plug(p, s)) && s.Br? && s.l.Br?
    requires Plug(pw, sw) == Plug(p, s) && sw.Br? && sw.id == Last(LeftOf(p, s))
    ensures NoDup(InOrder(Plug(p, s))) && LeftOf(p, s) != [] && LeftOf(p, s)[|LeftOf(p, s)| - 1] == sw.id
    ensures InOrder(Plug(p, s)) == LeftOf(p, s) + [s.id] + RightOf(p, s) && s.id !in LeftOf(p, s)
    ensures InOrder(Plug(p, s)) == LeftOf(pw, sw) + [sw.id] + RightOf(pw, sw) && sw.id !in LeftOf(pw, sw)
  {
    Position(p, s);
    Position(pw, sw);
    UniqueNoDup(Plug(p, s));
    InOrderIds(s.l);
  }

  /** Unhooking the predecessor `w` and then putting it in the place of `x` removes `x` from the in-order sequence. */
  lemma Replaced(keys: seq<int>, p: Path, s: Tree, pw: Path, sw: Tree, p2: Path, s2: Tree)
    requires Unique(Plug(p, s)) && Ordered(keys, InOrder(Plug(p, s))) && s.Br? && s.l.Br?
    requires Plug(pw, sw) == Plug(p, s) && sw.Br? && sw.id == Last(LeftOf(p, s))
    requires Unique(Plug(p2, s2)) && s2.Br? && s2.id == s.id
    requires InOrder(Plug(p2, s2)) == LeftOf(pw, sw) + RightOf(pw, sw)
    ensures InOrder(Plug(p2, Br(s2.l, sw.id, s2.r))) == LeftOf(p, s) + RightOf(p, s)
    ensures Ordered(keys, LeftOf(p, s) + RightOf(p, s))
  {
    SwapPositions(p, s, pw, sw);
    Position(p2, s2);
    SwapOut(InOrder(Plug(p, s)), LeftOf(p, s), s.id, RightOf(p, s), LeftOf(pw, sw), sw.id, RightOf(pw, sw), LeftOf(p2, s2), RightOf(p2, s2));
    InOrderReplug(p2, s2, sw.id);
    OrderedSlice(keys, LeftOf(p, s), [s.id], RightOf(p, s));
  }

  /** ... and from the nodes. */
  lemma ReplacedIds(p2: Path, s2: Tree, w: nat, x: nat, I: set<nat>)
    requires Unique(Plug(p2, s2)) && s2.Br? && s2.id == x && Ids(Plug(p2, s2)) == I - {w} && w in I
    ensures Ids(Plug(p2, Br(s2.l, w, s2.r))) == I - {x}
  {
    PlugIds(p2, s2);
    PlugIds(p2, Br(s2.l, w, s2.r));
    PlugUnique(p2, s2);
    assert Ids(s2) == Ids(s2.l) + {x} + Ids(s2.r) && x !in Ids(s2.l) + Ids(s2.r);
  }

  /**
   * The left subtree of a node with two children once its rightmost node is
   * unhooked as written: that node's left child, if any, takes its place alone.
   */
  ghost function TrimmedLeft(s: Tree): Tree
    requires s.Br? && s.l.Br?
  {
    Plug(RightSpine(s.l), Stripped(Rightmost(s.l)))
  }

  /** Whatever fills the predecessor's place, the rest of the tree around it is that of `s`. */
  lemma TrimmedPlug(p: Path, s: Tree, t: Tree)
    requires s.Br? && s.l.Br?
    ensures Plug(RightSpine(s.l) + [InLeft(s.id, s.r)] + p, t) == Plug(p, Br(Plug(RightSpine(s.l), t), s.id, s.r))
  {
    var q, f := RightSpine(s.l), InLeft(s.id, s.r);
    PlugAppend(q + [f], p, t);
    PlugSnoc(q, f, t);
  }

  /** A tree with the same in-order sequence and nodes, where `x` sits, takes `w` into `x`'s place alike. */
  lemma ReplugSame(p: Path, s: Tree, p2: Path, s2: Tree, w: nat)
    requires Unique(Plug(p2, s2)) && s.Br? && s2.Br? && s2.id == s.id
    requires InOrder(Plug(p2, s2)) == InOrder(Plug(p, s))
    ensures InOrder(Plug(p2, Br(s2.l, w, s2.r))) == InOrder(Plug(p, Br(s.l, w, s.r)))
  {
    Position(p2, s2);
    InOrderReplug(p, s, s.id);
    UniqueNoDup(Plug(p2, s2));
    NoDupMiddle(InOrder(Plug(p2, s2)), LeftOf(p, s), s.id, RightOf(p, s));
    SplitUnique(LeftOf(p2, s2), s.id, RightOf(p2, s2), LeftOf(p, s), RightOf(p, s));
    InOrderReplug(p2, s2, w);
    InOrderReplug(p, s, w);
  }

  /** ... and the same nodes. */
  lemma ReplugSameIds(p: Path, s: Tree, p2: Path, s2: Tree, w: nat)
    requires Unique(Plug(p2, s2)) && s.Br? && s2.Br? && s2.id == s.id
    requires s.id !in Ids(s.l) + Ids(s.r) + CtxIds(p)
    requires Ids(Plug(p2, s2)) == Ids(Plug(p, s))
    ensures Ids(Plug(p2, Br(s2.l, w, s2.r))) == Ids(Plug(p, Br(s.l, w, s.r))) == Ids(Plug(p, s)) - {s.id} + {w}
  {
    PlugIds(p2, s2);
    PlugIds(p2, Br(s2.l, w, s2.r));
    PlugUnique(p2, s2);
    PlugIds(p, s);
    PlugIds(p, Br(s.l, w, s.r));
  }

  /** `w` may replace `x` in an ordered sequence when it is not below what precedes `x` nor above what follows. */
  lemma Substitute(keys: seq<int>, a: seq<nat>, x: nat, b: seq<nat>, w: nat)
    requires Ordered(keys, a + [x] + b)
    requires forall n | n in a :: KeyOf(keys, n) <= KeyOf(keys, w)
    requires forall n | n in b :: KeyOf(keys, w) <= KeyOf(keys, n)
    ensures Ordered(keys, a + [w] + b)
  {
    var u, v := a + [x] + b, a + [w] + b;
    forall i, j | 0 <= i < j < |v| ensures KeyOf(keys, v[i]) <= KeyOf(keys, v[j]) {
      if i == |a| {
        assert v[j] == b[j - |a| - 1];
      } else if j == |a| {
        assert v[i] == a[i];
      } else {
        assert v[i] == u[i] && v[j] == u[j];
      }
    }
  }

  /** The nodes of the trimmed left subtree were in the left subtree. */
  lemma TrimmedNodes(s: Tree)
    requires s.Br? && s.l.Br?
    ensures forall n | n in InOrder(TrimmedLeft(s)) :: n in InOrder(s.l)
  {
    var sw, q := Rightmost(s.l), RightSpine(s.l);
    RightSpinePlug(s.l);
    InOrderIds(TrimmedLeft(s));
    InOrderIds(s.l);
    PlugIds(q, Stripped(sw));
    PlugIds(q, sw);
  }

  /** Around the victim, the tree with the trimmed left subtree splits only one way. */
  lemma TrimmedSplit(p: Path, s: Tree, A: seq<nat>, R: seq<nat>)
    requires Unique(Plug(p, s)) && s.Br? && s.l.Br?
    requires A + [s.id] + R == InOrder(Plug(p, Br(TrimmedLeft(s), s.id, s.r))) && s.id !in A
    ensures A == CtxBefore(p) + InOrder(TrimmedLeft(s)) && R == RightOf(p, s)
  {
    var s' := Br(TrimmedLeft(s), s.id, s.r);
    InOrderReplug(p, s', s.id);
    assert s.id !in LeftOf(p, s') by {
      Position(p, s);
      TrimmedNodes(s);
    }
    SplitUnique(A, s.id, R, LeftOf(p, s'), RightOf(p, s));
  }

  /** In an ordered `C + [x] + R`, the last of `C` is not below anything in `C` nor above anything in `R`. */
  lemma LastBounds(keys: seq<int>, C: seq<nat>, x: nat, R: seq<nat>)
    requires Ordered(keys, C + [x] + R) && C != []
    ensures forall n | n in C :: KeyOf(keys, n) <= KeyOf(keys, C[|C| - 1])
    ensures forall n | n in R :: KeyOf(keys, C[|C| - 1]) <= KeyOf(keys, n)
  {
    var u := C + [x] + R;
    forall n | n in C ensures KeyOf(keys, n) <= KeyOf(keys, C[|C| - 1]) {
      var k :| 0 <= k < |C| && C[k] == n;
      assert u[k] == n && u[|C| - 1] == C[|C| - 1];
    }
    forall n | n in R ensures KeyOf(keys, C[|C| - 1]) <= KeyOf(keys, n) {
      var k :| 0 <= k < |R| && R[k] == n;
      assert u[|C| + 1 + k] == n && u[|C| - 1] == C[|C| - 1];
    }
  }

  /**
   * Where the predecessor `w` of `x` lands when `x` is replaced as written: what
   * precedes `x` after the lossy unhooking of `w` preceded `w` before it, and what
   * follows `x` followed `w`.
   */
  lemma TrimmedBounds(keys: seq<int>, p: Path, s: Tree, A: seq<nat>, R: seq<nat>)
    requires Unique(Plug(p, s)) && Ordered(keys, InOrder(Plug(p, s))) && s.Br? && s.l.Br? && s.r.Br?
    requires A + [s.id] + R == InOrder(Plug(p, Br(TrimmedLeft(s), s.id, s.r))) && s.id !in A
    ensures forall n | n in A :: KeyOf(keys, n) <= KeyOf(keys, Rightmost(s.l).id)
    ensures forall n | n in R :: KeyOf(keys, Rightmost(s.l).id) <= KeyOf(keys, n)
  {
    TrimmedSplit(p, s, A, R);
    TrimmedNodes(s);
    Position(p, s);
    PredecessorSpot(p, s);
    LastBounds(keys, LeftOf(p, s), s.id, R);
    assert forall n | n in A :: n in LeftOf(p, s);
  }

  /**
   * After the predecessor `w` of `x` was unhooked as written, leaving `shape1`,
   * putting `w` into `x`'s place gives the tree with the trimmed left subtree and
   * `w` at the victim's place, in order.
   */
  lemma ReplacedAsWritten(keys: seq<int>, p: Path, s: Tree, p2: Path, s2: Tree)
    requires Unique(Plug(p, s)) && Ordered(keys, InOrder(Plug(p, s))) && s.Br? && s.l.Br? && s.r.Br?
    requires Unique(Plug(p2, s2)) && Ordered(keys, InOrder(Plug(p2, s2))) && s2.Br? && s2.id == s.id
    requires InOrder(Plug(p2, s2)) == InOrder(Plug(p, Br(TrimmedLeft(s), s.id, s.r)))
    requires Ids(Plug(p2, s2)) == Ids(Plug(p, Br(TrimmedLeft(s), s.id, s.r)))
    ensures var w := Rightmost(s.l).id;
      InOrder(Plug(p2, Br(s2.l, w, s2.r))) == InOrder(Plug(p, Br(TrimmedLeft(s), w, s.r))) &&
      Ids(Plug(p2, Br(s2.l, w, s2.r))) == Ids(Plug(p, Br(TrimmedLeft(s), w, s.r))) &&
      Ordered(keys, InOrder(Plug(p2, Br(s2.l, w, s2.r))))
  {
    var w, s' := Rightmost(s.l).id, Br(TrimmedLeft(s), s.id, s.r);
    ReplugSame(p, s', p2, s2, w);
    TrimmedIds(p, s);
    ReplugSameIds(p, s', p2, s2, w);
    Position(p2, s2);
    TrimmedBounds(keys, p, s, LeftOf(p2, s2), RightOf(p2, s2));
    Substitute(keys, LeftOf(p2, s2), s.id, RightOf(p2, s2), w);
    InOrderReplug(p2, s2, w);
  }

  /** When the predecessor's left child has no children, the as-written replacement loses only the victim. */
  lemma ShallowReplaced(keys: seq<int>, p: Path, s: Tree, p2: Path, s2: Tree)
    requires Unique(Plug(p, s)) && Ordered(keys, InOrder(Plug(p, s))) && s.Br? && s.l.Br? && s.r.Br?
    requires Shallow(Survivor(Rightmost(s.l)))
    requires Unique(Plug(p2, s2)) && s2.Br? && s2.id == s.id
    requires var pw := RightSpine(s.l) + [InLeft(s.id, s.r)] + p;
      InOrder(Plug(p2, s2)) == InOrder(Plug(pw, Stripped(Rightmost(s.l)))) &&
      Ids(Plug(p2, s2)) == Ids(Plug(pw, Stripped(Rightmost(s.l))))
    ensures var w := Rightmost(s.l).id;
      InOrder(Plug(p2, Br(s2.l, w, s2.r))) == LeftOf(p, s) + RightOf(p, s) &&
      Ids(Plug(p2, Br(s2.l, w, s2.r))) == Ids(Plug(p, s)) - {s.id}
  {
    var pw, sw := RightSpine(s.l) + [InLeft(s.id, s.r)] + p, Rightmost(s.l);
    PredecessorSpot(p, s);
    ShallowKept(sw);
    SpliceOut(keys, pw, sw);
    Replaced(keys, p, s, pw, sw, p2, s2);
    PlugIds(pw, sw);
    ReplacedIds(p2, s2, sw.id, s.id, Ids(Plug(p, s)));
  }

  /**
   * removeNode as written: the unlinking drops the surviving child's subtrees, and
   * the counter is decremented once per call, so twice for a victim with two
   * children (the outer call and the nested one for the predecessor). For such a
   * victim the predecessor `w` takes its place, and where `w` was, its left child
   * stands alone; when that child has no children of its own, nothing is lost.
   * The result `sz` is that counter.
   */
  method RemoveNodeAsWritten<V>(links: seq<Link>, keys: seq<int>, values: seq<V>, bf: seq<int>, root: int, size: nat,
                                x: nat, ghost p: Path, ghost s: Tree)
    returns (ls: seq<Link>, top: int, bs: seq<int>, sz: nat, st: Status, ghost shape: Tree)
    requires Wellformed(links, keys, values, bf, root, size, Plug(p, s)) && s.Br? && s.id == x
    ensures Wellformed(ls, keys, values, bs, top, size, shape) && |ls| == |links| && sz < Wrap
    ensures s.l.Br? && s.r.Br? ==>
      InOrder(shape) == InOrder(Plug(p, Br(TrimmedLeft(s), Rightmost(s.l).id, s.r))) &&
      Ids(shape) == Ids(Plug(p, Br(TrimmedLeft(s), Rightmost(s.l).id, s.r))) && sz == Dec(Dec(size))
    ensures s.l.Br? && s.r.Br? && Shallow(Survivor(Rightmost(s.l))) ==>
      InOrder(shape) == LeftOf(p, s) + RightOf(p, s) && Ids(shape) == Ids(Plug(p, s)) - {x}
    ensures !(s.l.Br? && s.r.Br?) ==>
      InOrder(shape) == InOrder(Plug(p, Stripped(s))) && Ids(shape) == Ids(Plug(p, Stripped(s))) && sz == Dec(size)
    ensures st == Done || st == Failed(NullDereference)
    decreases if s.l.Br? && s.r.Br? then 1 else 0
  {
    Surroundings(p, s, links);
    if links[x].right != Null && links[x].left != Null {
      var w := Previous(links, Plug(p, s), x);
      PredecessorSpot(p, s);
      ghost var pw, sw := RightSpine(s.l) + [InLeft(x, s.r)] + p, Rightmost(s.l);
      var ls1, top1, bs1, sz1, st1, shape1 := RemoveNodeAsWritten(links, keys, values, bf, root, size, w, pw, sw);
      assert w == sw.id;
      CutOff(keys, pw, sw);
      PlugUnique(pw, sw);
      PlugIds(pw, sw);
      ghost var (p2, s2) := Locate(shape1, x);
      assert w !in Ids(Plug(p2, s2)) && w < |ls1|;
      ls, top := Relocate(ls1, top1, x, w, p2, s2);
      bs, st, sz := bs1, st1, Dec(sz1);
      shape := Plug(p2, Br(s2.l, w, s2.r));
      TrimmedPlug(p, s, Stripped(sw));
      ReplacedAsWritten(keys, p, s, p2, s2);
      Establish(ls, keys, values, bs, top, size, shape);
      if Shallow(Survivor(sw)) {
        ShallowReplaced(keys, p, s, p2, s2);
      }
    } else {
      ls, top, bs, st, shape := UnhookAsWritten(links, keys, values, bf, root, size, x, p, s);
      sz := Dec(size);
    }
  }

  /** The victim is not among the nodes around it once its predecessor is trimmed away. */
  lemma TrimmedIds(p: Path, s: Tree)
    requires Unique(Plug(p, s)) && s.Br? && s.l.Br?
    ensures s.id !in Ids(TrimmedLeft(s)) + Ids(s.r) + CtxIds(p)
  {
    var sw := Rightmost(s.l);
    RightSpinePlug(s.l);
    PlugIds(RightSpine(s.l), Stripped(sw));
    PlugIds(RightSpine(s.l), sw);
    PlugUnique(p, s);
  }

  /** With two children, the counter as written ends one below the number of nodes left. */
  lemma CounterDrifts(size: nat, n: nat)
    requires size == n % Wrap && n > 0
    ensures Dec(Dec(size)) != (n - 1) % Wrap
  {
  }

  // ---------------------------------------------------------------------------
  // A map where the unlinking as written loses a node: the arena that inserting
  // the keys 20, 10, 30, 40, 25, 5, 22 builds (ids 0 to 6 in that order), with the
  // balance factors the insertion leaves.

  function LossyLinks(): seq<Link>
  {
    [Link(Null, 4, 1), Link(5, 0, 2), Link(1, 3, Null), Link(Null, Null, 2),
     Link(6, Null, 0), Link(Null, Null, 1), Link(Null, Null, 4)]
  }

  /** The path to node 0 (key 20) and the subtree there. */
  ghost function LossyPath(): Path
  {
    [InRight(Br(Nil, 5, Nil), 1), InLeft(2, Br(Nil, 3, Nil))]
  }

  ghost function LossyVictim(): Tree
  {
    Br(Nil, 0, Br(Br(Nil, 6, Nil), 4, Nil))
  }

  ghost function LossyKeys(): seq<int>
  {
    [20, 10, 30, 40, 25, 5, 22]
  }

  /** Keys in order between neighbours are in order throughout. */
  lemma {:induction false} OrderedByNeighbours(keys: seq<int>, s: seq<nat>)
    requires forall k | 0 <= k < |s| - 1 :: KeyOf(keys, s[k]) <= KeyOf(keys, s[k + 1])
    ensures Ordered(keys, s)
    decreases |s|
  {
    if |s| > 1 {
      var t := s[1..];
      OrderedByNeighbours(keys, t);
      forall i, j | 0 <= i < j < |s| ensures KeyOf(keys, s[i]) <= KeyOf(keys, s[j]) {
        assert s[j] == t[j - 1];
        if i > 0 {
          assert s[i] == t[i - 1];
        } else if j > 1 {
          assert s[1] == t[0];
        }
      }
    }
  }

  lemma LossyOrdered()
    ensures Ordered(LossyKeys(), [5, 1, 0, 6, 4, 2, 3])
  {
    var s: seq<nat> := [5, 1, 0, 6, 4, 2, 3];
    assert KeyOf(LossyKeys(), s[0]) == 5 && KeyOf(LossyKeys(), s[1]) == 10 && KeyOf(LossyKeys(), s[2]) == 20;
    assert KeyOf(LossyKeys(), s[3]) == 22 && KeyOf(LossyKeys(), s[4]) == 25;
    assert KeyOf(LossyKeys(), s[5]) == 30 && KeyOf(LossyKeys(), s[6]) == 40;
    OrderedByNeighbours(LossyKeys(), s);
  }

  lemma LossyLayout()
    ensures Repr(Plug(LossyPath(), LossyVictim()), LossyLinks(), Null) && Unique(Plug(LossyPath(), LossyVictim()))
    ensures InOrder(Plug(LossyPath(), LossyVictim())) == [5, 1, 0, 6, 4, 2, 3]
    ensures Root(Plug(LossyPath(), LossyVictim())) == 2
  {
    var t := Plug(LossyPath(), LossyVictim());
    assert t == Br(Br(Br(Nil, 5, Nil), 1, LossyVictim()), 2, Br(Nil, 3, Nil));
    assert InOrder(LossyVictim()) == [0, 6, 4];
    assert Ids(LossyVictim()) == {0, 4, 6};
  }

  /** The arena is a well-formed map whose key order is 5, 10, 20, 22, 25, 30, 40. */
  lemma LossyWellformed()
    ensures Wellformed(LossyLinks(), LossyKeys(), [0, 0, 0, 0, 0, 0, 0], [-1, -1, 0, 0, 1, 0, 0], 2, 7,
                       Plug(LossyPath(), LossyVictim()))
  {
    LossyLayout();
    LossyOrdered();
    assert Balances([-1, -1, 0, 0, 1, 0, 0]);
    Establish(LossyLinks(), LossyKeys(), [0, 0, 0, 0, 0, 0, 0], [-1, -1, 0, 0, 1, 0, 0], 2, 7, Plug(LossyPath(), LossyVictim()));
  }

  /**
   * Removing the key 20 (node 0, whose only child is node 4) as written leaves a
   * tree without node 6, the key 22, although only node 0 was to go.
   */
  lemma UnlinkLosesKey()
    ensures LossyVictim().r.Br? && LossyVictim().l.Nil?
    ensures 6 in Ids(Plug(LossyPath(), LossyVictim())) - {0}
    ensures 6 !in Ids(Plug(LossyPath(), Stripped(LossyVictim())))
    ensures 6 in Ids(Plug(LossyPath(), Survivor(LossyVictim())))
  {
    assert Plug(LossyPath(), Stripped(LossyVictim())) == Br(Br(Br(Nil, 5, Nil), 1, Br(Nil, 4, Nil)), 2, Br(Nil, 3, Nil));
    assert Plug(LossyPath(), Survivor(LossyVictim())) == Br(Br(Br(Nil, 5, Nil), 1, Br(Br(Nil, 6, Nil), 4, Nil)), 2, Br(Nil, 3, Nil));
    assert Plug(LossyPath(), LossyVictim()) == Br(Br(Br(Nil, 5, Nil), 1, LossyVictim()), 2, Br(Nil, 3, Nil));
  }

  // ---------------------------------------------------------------------------
  // The mirror image of that map: the arena hand-traced from inserting the keys
  // -20, -10, -30, -40, -25, -5, -22 in that order (ids 0 to 6), where the
  // predecessor of -10 has a left child with a child of its own.

  function MirrorLinks(): seq<Link>
  {
    [Link(4, Null, 1), Link(0, 5, 2), Link(3, 1, Null), Link(Null, Null, 2),
     Link(Null, 6, 0), Link(Null, Null, 1), Link(Null, Null, 4)]
  }

  /** The path to node 1 (key -10) and the subtree there. */
  ghost function MirrorPath(): Path
  {
    [InRight(Br(Nil, 3, Nil), 2)]
  }

  ghost function MirrorVictim(): Tree
  {
    Br(Br(Br(Nil, 4, Br(Nil, 6, Nil)), 0, Nil), 1, Br(Nil, 5, Nil))
  }

  ghost function MirrorKeys(): seq<int>
  {
    [-20, -10, -30, -40, -25, -5, -22]
  }

  /** The arena is a well-formed map whose key order is -40, -30, -25, -22, -20, -10, -5. */
  lemma MirrorWellformed()
    ensures Wellformed(MirrorLinks(), MirrorKeys(), [0, 0, 0, 0, 0, 0, 0], [1, 1, 0, 0, -1, 0, 0], 2, 7,
                       Plug(MirrorPath(), MirrorVictim()))
  {
    var t := Plug(MirrorPath(), MirrorVictim());
    assert t == Br(Br(Nil, 3, Nil), 2, MirrorVictim());
    assert InOrder(MirrorVictim()) == [4, 6, 0, 1, 5];
    assert Ids(MirrorVictim()) == {0, 1, 4, 5, 6};
    var order: seq<nat> := [3, 2, 4, 6, 0, 1, 5];
    assert InOrder(t) == order;
    var k := MirrorKeys();
    assert KeyOf(k, order[0]) == -40 && KeyOf(k, order[1]) == -30 && KeyOf(k, order[2]) == -25;
    assert KeyOf(k, order[3]) == -22 && KeyOf(k, order[4]) == -20;
    assert KeyOf(k, order[5]) == -10 && KeyOf(k, order[6]) == -5;
    OrderedByNeighbours(k, order);
    assert Balances([1, 1, 0, 0, -1, 0, 0]);
    Establish(MirrorLinks(), k, [0, 0, 0, 0, 0, 0, 0], [1, 1, 0, 0, -1, 0, 0], 2, 7, t);
  }

  /**
   * Removing the key -10 (node 1, with two children) as written: its predecessor
   * -20 (node 0) takes its place, and node 4 (key -25) keeps the predecessor's
   * place without its child, node 6 (key -22), which leaves the tree.
   */
  lemma TwoChildLosesKey()
    ensures var s := MirrorVictim();
      s.l.Br? && s.r.Br? && !Shallow(Survivor(Rightmost(s.l))) && Rightmost(s.l).id == 0 &&
      6 in Ids(Plug(MirrorPath(), s)) - {1} &&
      6 !in Ids(Plug(MirrorPath(), Br(TrimmedLeft(s), Rightmost(s.l).id, s.r)))
  {
    var s := MirrorVictim();
    assert Rightmost(s.l) == Br(Br(Nil, 4, Br(Nil, 6, Nil)), 0, Nil);
    assert TrimmedLeft(s) == Br(Nil, 4, Nil);
    assert Plug(MirrorPath(), Br(TrimmedLeft(s), 0, s.r)) == Br(Br(Nil, 3, Nil), 2, Br(Br(Nil, 4, Nil), 0, Br(Nil, 5, Nil)));
    assert Plug(MirrorPath(), s) == Br(Br(Nil, 3, Nil), 2, s);
  }

  /** Removing the root key 4 of the map built by inserting 4, 2, 5, 3 as written leaves 3 nodes and a counter of 2. */
  lemma RemoveRootMiscounts()
    ensures var s := SampleShape();
      s.Br? && s.id == 0 && s.l.Br? && s.r.Br? && Shallow(Survivor(Rightmost(s.l))) &&
      |LeftOf([], s) + RightOf([], s)| == 3 && Dec(Dec(4)) == 2
  {
    SampleWellformed();
    var s := SampleShape();
    assert LeftOf([], s) == [1, 3] && RightOf([], s) == [2];
  }

  // ---------------------------------------------------------------------------
  // remove(key) on the arena's fields (TreeMap.h:472-482).

  /** Dropping the node at `|C|` from the in-order sequence drops its entry. */
  lemma EntriesWithout<V>(keys: seq<int>, values: seq<V>, C: seq<nat>, x: nat, D: seq<nat>)
    requires forall k | 0 <= k < |C + [x] + D| :: (C + [x] + D)[k] < |keys| && (C + [x] + D)[k] < |values|
    ensures forall k | 0 <= k < |C + D| :: (C + D)[k] < |keys| && (C + D)[k] < |values|
    ensures x < |keys| && x < |values|
    ensures var E := Entries(keys, values, C + [x] + D);
      Entries(keys, values, C + D) == E[..|C|] + E[|C| + 1..] && E[|C|] == (keys[x], values[x])
  {
    var W := C + [x] + D;
    forall k | 0 <= k < |C + D| ensures (C + D)[k] < |keys| && (C + D)[k] < |values| {
      if k < |C| {
        assert (C + D)[k] == W[k];
      } else {
        assert (C + D)[k] == W[k + 1];
      }
    }
    var E, E' := Entries(keys, values, W), Entries(keys, values, C + D);
    assert W[|C|] == x;
    forall k | 0 <= k < |E'| ensures E'[k] == (E[..|C|] + E[|C| + 1..])[k] {
      if k < |C| {
        assert (C + D)[k] == W[k];
      } else {
        assert (C + D)[k] == W[k + 1];
      }
    }
  }

  /** The arena invariant does not depend on the counter's value below 2^64. */
  lemma Recount<V>(links: seq<Link>, keys: seq<int>, values: seq<V>, bf: seq<int>, root: int, size: nat, t: Tree, size': nat)
    requires Wellformed(links, keys, values, bf, root, size, t) && size' < Wrap
    ensures Wellformed(links, keys, values, bf, root, size', t)
  {
  }

  /**
   * The removal of node `x` that remove(key) performs once `find` has reached it:
   * its entry leaves the sequence of entries at its index `i`, and no other entry
   * changes or moves.
   */
  method Delete<V>(links: seq<Link>, keys: seq<int>, values: seq<V>, bf: seq<int>, root: int, size: nat,
                   ghost shape: Tree, x: nat)
    returns (ls: seq<Link>, top: int, bs: seq<int>, st: Status, ghost shape': Tree, ghost i: nat)
    requires Wellformed(links, keys, values, bf, root, size, shape) && x in Ids(shape)
    ensures Wellformed(ls, keys, values, bs, top, size, shape') && |ls| == |links|
    ensures i < |InOrder(shape)| && InOrder(shape)[i] == x && |InOrder(shape')| == |InOrder(shape)| - 1
    ensures Entries(keys, values, InOrder(shape')) ==
      Entries(keys, values, InOrder(shape))[..i] + Entries(keys, values, InOrder(shape))[i + 1..]
    ensures Ids(shape') == Ids(shape) - {x}
    ensures st == Done || st == Failed(NullDereference)
  {
    ghost var (p, s) := Locate(shape, x);
    Position(p, s);
    EntriesWithout(keys, values, LeftOf(p, s), x, RightOf(p, s));
    i := |LeftOf(p, s)|;
    ls, top, bs, st, shape' := RemoveNode(links, keys, values, bf, root, size, x, p, s);
  }
}
