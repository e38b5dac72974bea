/**
 * The TreeMap class itself: the arena's fields, updated in place by the
 * operations of TreeMap.h, each of which stores what the module-level arena
 * methods compute.
 */
module TreeMapClass {
  import opened TreeShape
  import opened TreeMaps
  import opened TreeIterators
  import opened TreeRemoval
  import opened Outcomes
  import opened SizeT

  class TreeMap<V> {
    var links: seq<Link>
    var keys: seq<int>
    var values: seq<V>
    var bf: seq<int>
    var root: int
    var size: nat
    ghost var shape: Tree
    /** The value `mapped_type{}` that operator[] stores for a new key. */
    const blank: V

    /** Pointer consistency, distinct nodes, in-order key order and the range of `bf`. */
    ghost predicate Valid()
      reads this
    {
      Wellformed(links, keys, values, bf, root, size, shape)
    }

    /** `size` counts the nodes of the tree, modulo 2^64. */
    ghost predicate Counted()
      reads this
    {
      size == |InOrder(shape)| % Wrap
    }

    /** The map's entries in iteration order. */
    ghost function Items(): (r: seq<(int, V)>)
      reads this
      requires Valid()
      ensures |r| == |InOrder(shape)|
      ensures forall k | 0 <= k < |r| ::
        InOrder(shape)[k] < |links| && r[k] == (keys[InOrder(shape)[k]], values[InOrder(shape)[k]])
    {
      Entries(keys, values, InOrder(shape))
    }

    ghost function Keys(): (r: seq<int>)
      reads this
      requires Valid()
      ensures |r| == |Items()| && forall k | 0 <= k < |r| :: r[k] == Items()[k].0
    {
      var items := Items();
      seq(|items|, k requires 0 <= k < |items| => items[k].0)
    }

    /** The ids of the live nodes; any node of the arena outside it is garbage. */
    ghost function Nodes(): set<nat>
      reads this
    {
      Ids(shape)
    }

    lemma KeysSorted()
      requires Valid()
      ensures SortedKeys(Keys())
    {
      forall i, j | 0 <= i < j < |Keys()| ensures Keys()[i] <= Keys()[j] {
        assert KeyOf(keys, InOrder(shape)[i]) <= KeyOf(keys, InOrder(shape)[j]);
      }
    }

    /** A key is in the map exactly when some live node holds it. */
    lemma KeysHolds(key: int)
      requires Valid()
      ensures key in Keys() <==> exists n | n in Ids(shape) :: keys[n] == key
    {
      InOrderIds(shape);
      ReprBounds(shape, links, Null);
      if key in Keys() {
        var k :| 0 <= k < |Keys()| && Keys()[k] == key;
        assert InOrder(shape)[k] in Ids(shape);
      }
      if exists n | n in Ids(shape) :: keys[n] == key {
        var n :| n in Ids(shape) && keys[n] == key;
        var k :| 0 <= k < |InOrder(shape)| && InOrder(shape)[k] == n;
        assert Keys()[k] == key;
      }
    }

    constructor (blank: V)
      ensures Valid() && Counted() && Items() == []
      ensures this.blank == blank && links == [] && size == 0
    {
      links, keys, values, bf := [], [], [], [];
      root, size := Null, 0;
      shape := Nil;
      this.blank := blank;
    }

    /** isEmpty: compares the counter, not the tree. */
    function IsEmpty(): (r: bool)
      reads this
      ensures Valid() && Counted() && |Items()| < Wrap ==> (r <==> Items() == [])
    {
      size == 0
    }

    function GetSize(): (r: nat)
      reads this
      ensures Valid() && Counted() ==> r == |Items()| % Wrap
    {
      size
    }

    /**
     * find: a descent from the root by key comparison. It answers a node holding
     * `key` exactly when one exists, and the end position otherwise.
     */
    method Find(key: int) returns (it: Cursor)
      requires Valid()
      ensures it.root == root
      ensures it.current != Null ==> it.current in Ids(shape) && keys[it.current] == key
      ensures it.current == Null <==> key !in Keys()
    {
      KeysHolds(key);
      if root == Null {
        return Cursor(root, Null);
      }
      var node: nat := root;
      ghost var sub := shape;
      ghost var par := Null;
      while keys[node] != key
        invariant sub.Br? && node == sub.id && Repr(sub, links, par)
        invariant Ids(sub) <= Ids(shape) && Ordered(keys, InOrder(sub))
        invariant (forall n | n in Ids(sub) :: keys[n] != key) ==> (forall n | n in Ids(shape) :: keys[n] != key)
        decreases sub
      {
        ReprBounds(sub, links, par);
        OrderedSplit(keys, sub);
        if key < keys[node] {
          if links[node].left != Null {
            par, node, sub := node, links[node].left, sub.l;
          } else {
            return Cursor(root, Null);
          }
        }
        if key > keys[node] {
          ReprBounds(sub, links, par);
          OrderedSplit(keys, sub);
          if links[node].right != Null {
            par, node, sub := node, links[node].right, sub.r;
          } else {
            return Cursor(root, Null);
          }
        }
      }
      return Cursor(root, node);
    }

    /**
     * insert: the entry goes after every entry whose key is not greater, so an
     * existing key gets a second entry, and `size` grows by one (modulo 2^64).
     */
    method Insert(key: int, value: V)
      requires Valid()
      modifies this
      ensures Valid()
      ensures Items() == InsertSorted(old(Items()), key, value)
      ensures keys == old(keys) + [key] && values == old(values) + [value]
      ensures Nodes() == old(Nodes()) + {old(|links|)}
      ensures size == Inc(old(size)) && (old(Counted()) ==> Counted())
    {
      links, keys, values, bf, root, shape := Place(links, keys, values, bf, root, size, shape, key, value);
      IncMod(|InOrder(shape)| - 1);
      size := Inc(size);
    }

    /**
     * operator[]: the value of the entry `find` reaches for `key`; for a missing key
     * an entry `(key, blank)` is inserted first and its value is the answer. `node`
     * is the entry's node, which the returned reference points into.
     */
    method Index(key: int) returns (node: nat, v: V)
      requires Valid()
      modifies this
      ensures Valid() && node in Nodes() && keys[node] == key && values[node] == v
      ensures old(key in Keys()) ==> Items() == old(Items()) && size == old(size) && unchanged(this)
      ensures old(key !in Keys()) ==>
        Items() == InsertSorted(old(Items()), key, blank) && v == blank && size == Inc(old(size)) &&
        node == old(|links|)
      ensures key in Keys()
    {
      var it := Find(key);
      if it.current == Null {
        ghost var before := Nodes();
        KeysHolds(key);
        Insert(key, blank);
        InsertSortedHas(old(Items()), key, blank);
        it := Find(key);
        KeysHolds(key);
        node := it.current;
        assert node !in before;
      } else {
        node := it.current;
      }
      KeysHolds(key);
      v := values[node];
    }

    /**
     * valueOf: throws when the counter is zero, then when `find` reaches no entry
     * for `key`; otherwise the value of the entry it reaches.
     */
    method ValueOf(key: int) returns (r: Result<V>)
      requires Valid()
      ensures size == 0 ==> r == Err(CollectionEmpty)
      ensures size != 0 && key !in Keys() ==> r == Err(KeyNotFound)
      ensures size != 0 && key in Keys() ==> r.Ok? && (key, r.value) in Items()
    {
      if IsEmpty() {
        return Err(CollectionEmpty);
      }
      var it := Find(key);
      if it.current == Null {
        return Err(KeyNotFound);
      }
      InOrderIds(shape);
      assert it.current in InOrder(shape);
      ghost var k :| 0 <= k < |InOrder(shape)| && InOrder(shape)[k] == it.current;
      assert Items()[k] == (key, values[it.current]);
      return Ok(values[it.current]);
    }

    /**
     * rotateRR: the right child `b` of `a` takes `a`'s place, `a` becomes `b`'s left
     * child and `b`'s old left subtree becomes `a`'s right one.
     */
    method RotateRR(a: nat, ghost p: Path, ghost s: Tree)
      requires Valid() && shape == Plug(p, s) && s.Br? && s.id == a && s.r.Br?
      modifies this
      ensures Valid() && shape == Plug(p, ShapeRR(s))
      ensures InOrder(shape) == old(InOrder(shape)) && Ids(shape) == old(Ids(shape))
      ensures keys == old(keys) && values == old(values) && size == old(size) && |links| == old(|links|)
      ensures a < |bf| && s.r.id < |bf| && |bf| == old(|bf|)
      ensures bf == if old(bf[s.r.id]) == 0 then old(bf)[s.r.id := -1][a := 1] else old(bf)[s.r.id := 0][a := 0]
    {
      links, root, bf := RotateRRArena(links, keys, values, bf, root, size, a, p, s);
      shape := Plug(p, ShapeRR(s));
    }

    /**
     * rotateLL: the left child `b` of `a` takes `a`'s place, `a` becomes `b`'s right
     * child and `b`'s old right subtree becomes `a`'s left one.
     */
    method RotateLL(a: nat, ghost p: Path, ghost s: Tree)
      requires Valid() && shape == Plug(p, s) && s.Br? && s.id == a && s.l.Br?
      modifies this
      ensures Valid() && shape == Plug(p, ShapeLL(s))
      ensures InOrder(shape) == old(InOrder(shape)) && Ids(shape) == old(Ids(shape))
      ensures keys == old(keys) && values == old(values) && size == old(size) && |links| == old(|links|)
      ensures a < |bf| && s.l.id < |bf| && |bf| == old(|bf|)
      ensures bf == if old(bf[s.l.id]) == 0 then old(bf)[s.l.id := 1][a := -1] else old(bf)[s.l.id := 0][a := 0]
    {
      links, root, bf := RotateLLArena(links, keys, values, bf, root, size, a, p, s);
      shape := Plug(p, ShapeLL(s));
    }

    /**
     * rotateRL: `c`, the left child of `a`'s right child `b`, takes `a`'s place with
     * `a` and `b` as its children; `c`'s balance becomes 0 and those of `a` and `b`
     * follow the table on `c`'s old balance.
     */
    method RotateRL(a: nat, ghost p: Path, ghost s: Tree)
      requires Valid() && shape == Plug(p, s) && s.Br? && s.id == a && s.r.Br? && s.r.l.Br?
      modifies this
      ensures Valid() && shape == Plug(p, ShapeRL(s))
      ensures InOrder(shape) == old(InOrder(shape)) && Ids(shape) == old(Ids(shape))
      ensures keys == old(keys) && values == old(values) && size == old(size) && |links| == old(|links|)
      ensures a < |bf| && s.r.id < |bf| && s.r.l.id < |bf| && |bf| == old(|bf|)
      ensures bf == old(bf)[a := if old(bf[s.r.l.id]) < 0 then 1 else 0]
                           [s.r.id := if old(bf[s.r.l.id]) > 0 then -1 else 0]
                           [s.r.l.id := 0]
    {
      links, root, bf := RotateRLArena(links, keys, values, bf, root, size, a, p, s);
      shape := Plug(p, ShapeRL(s));
    }

    /**
     * rotateLR: `c`, the right child of `a`'s left child `b`, takes `a`'s place with
     * `b` and `a` as its children; `c`'s balance becomes 0 and those of `a` and `b`
     * follow the table on `c`'s old balance.
     */
    method RotateLR(a: nat, ghost p: Path, ghost s: Tree)
      requires Valid() && shape == Plug(p, s) && s.Br? && s.id == a && s.l.Br? && s.l.r.Br?
      modifies this
      ensures Valid() && shape == Plug(p, ShapeLR(s))
      ensures InOrder(shape) == old(InOrder(shape)) && Ids(shape) == old(Ids(shape))
      ensures keys == old(keys) && values == old(values) && size == old(size) && |links| == old(|links|)
      ensures a < |bf| && s.l.id < |bf| && s.l.r.id < |bf| && |bf| == old(|bf|)
      ensures bf == old(bf)[a := if old(bf[s.l.r.id]) > 0 then 1 else 0]
                           [s.l.id := if old(bf[s.l.r.id]) < 0 then -1 else 0]
                           [s.l.r.id := 0]
    {
      links, root, bf := RotateLRArena(links, keys, values, bf, root, size, a, p, s);
      shape := Plug(p, ShapeLR(s));
    }

    /**
     * The removal of the node `x` that remove(key) reaches with `find`: its entry
     * leaves the sequence of entries at its place, and `size` goes down by one
     * (TreeMap.h:481, 485-597).
     */
    method Erase(x: nat) returns (r: Status)
      requires Valid() && x in Nodes()
      modifies this
      ensures Valid() && (r == Done || r == Failed(NullDereference))
      ensures size == Dec(old(size)) && (old(Counted()) ==> Counted())
      ensures exists i | 0 <= i < |old(Items())| ::
        old(InOrder(shape))[i] == x && Items() == old(Items())[..i] + old(Items())[i + 1..]
    {
      var ls, top, bs, st, sh, i := Delete(links, keys, values, bf, root, size, shape, x);
      DecMod(|InOrder(shape)|);
      Recount(ls, keys, values, bs, top, size, sh, Dec(size));
      links, root, bf, size, shape, r := ls, top, bs, Dec(size), sh, st;
    }

    /**
     * remove(key): throws when the tree is empty, then when `find` reaches no node
     * for `key`; otherwise the node `find` reaches is removed, its entry leaves the
     * sequence of entries at its place, and `size` goes down by one. A null
     * dereference of the rebalancing walk is reported after the removal is complete.
     */
    method Remove(key: int) returns (r: Status)
      requires Valid()
      modifies this
      ensures Valid()
      ensures old(Items()) == [] ==> r == Failed(CollectionEmpty) && unchanged(this)
      ensures old(Items()) != [] && old(key !in Keys()) ==> r == Failed(KeyNotFound) && unchanged(this)
      ensures old(Items()) != [] && old(key in Keys()) ==>
        (r == Done || r == Failed(NullDereference)) && size == Dec(old(size)) &&
        (old(Counted()) ==> Counted()) &&
        exists i | 0 <= i < |old(Items())| :: old(Items())[i].0 == key && Items() == old(Items())[..i] + old(Items())[i + 1..]
    {
      InOrderIds(shape);
      if root == Null {
        return Failed(CollectionEmpty);
      }
      var it := Find(key);
      if it.current == Null {
        return Failed(KeyNotFound);
      }
      r := Erase(it.current);
    }

    /**
     * remove(iterator): the key under the iterator is removed as by remove(key).
     * Reading that key checks only that the root stored in the iterator is not
     * null, so an iterator made before later insertions still removes its key.
     */
    method RemoveAt(it: Cursor) returns (r: Status)
      requires Valid() && (it.current == Null || it.current in Nodes())
      modifies this
      ensures Valid()
      ensures it.root == Null ==> r == Failed(CollectionEmpty) && unchanged(this)
      ensures it.root != Null && it.current == Null ==> r == Failed(OutOfRange) && unchanged(this)
      ensures it.root != Null && it.current != Null ==>
        (r == Done || r == Failed(NullDereference)) && size == Dec(old(size)) &&
        (old(Counted()) ==> Counted()) &&
        exists i | 0 <= i < |old(Items())| ::
          old(Items())[i].0 == old(keys[it.current]) && Items() == old(Items())[..i] + old(Items())[i + 1..]
    {
      var d := Deref(links, keys, values, bf, root, size, shape, it);
      if d.Err? {
        return Failed(d.error);
      }
      InOrderIds(shape);
      assert it.current in InOrder(shape);
      r := Remove(d.value.0);
    }
  }
}
