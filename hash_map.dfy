/**
 * HashMap.h: a chained hash table. `table` holds `buckets` lists of entries; an
 * entry with key `k` lives in list `k % HASH`, where the key is first converted
 * to `size_t` (so a negative key wraps modulo 2^64). The counter `addedElements`
 * is a `size_t` too. Lists are modelled as sequences, in list order.
 */
module HashMaps {
  import opened Outcomes
  import opened SizeT

  /** The bucket of `key` when the table hashes modulo `hash`. */
  function Bucket(key: int, hash: nat): (b: nat)
    requires hash > 0
    ensures b < hash && (0 <= key < Wrap ==> b == key % hash)
  {
    (key % Wrap) % hash
  }

  /** DEF_CAPACITY: the default HASH and bucket count. */
  const DefCapacity := 1024

  /** A position in the table: a bucket and an index into its list. */
  datatype HashCursor = HashCursor(bucket: nat, position: nat)

  /** The index of the first entry of `list` with key `key`, or `|list|` when there is none. */
  ghost function Lookup<V>(list: seq<(int, V)>, key: int): (r: nat)
    ensures r <= |list| && (r < |list| ==> list[r].0 == key)
    ensures forall j | 0 <= j < r :: list[j].0 != key
    decreases |list|
  {
    if list == [] then 0
    else if list[0].0 == key then 0
    else 1 + Lookup(list[1..], key)
  }

  /** All entries, bucket after bucket. */
  ghost function Flatten<V>(t: seq<seq<(int, V)>>): seq<(int, V)>
    decreases |t|
  {
    if t == [] then [] else t[0] + Flatten(t[1..])
  }

  /** Every entry sits in the bucket its key hashes to. */
  ghost predicate Placed<V>(t: seq<seq<(int, V)>>, hash: nat)
    requires hash > 0
  {
    forall i, j | 0 <= i < |t| && 0 <= j < |t[i]| :: Bucket(t[i][j].0, hash) == i
  }

  lemma {:induction false} FlattenHas<V>(t: seq<seq<(int, V)>>, e: (int, V))
    ensures e in Flatten(t) <==> exists i | 0 <= i < |t| :: e in t[i]
    decreases |t|
  {
    if t != [] {
      FlattenHas(t[1..], e);
      if exists i | 0 <= i < |t[1..]| :: e in t[1..][i] {
        var i :| 0 <= i < |t[1..]| && e in t[1..][i];
        assert e in t[i + 1];
      }
      if exists i | 0 <= i < |t| :: e in t[i] {
        var i :| 0 <= i < |t| && e in t[i];
        if i > 0 {
          assert e in t[1..][i - 1];
        }
      }
    }
  }

  /** Appending `e` to one bucket adds exactly `e` to the contents. */
  lemma {:induction false} FlattenAppend<V>(t: seq<seq<(int, V)>>, b: nat, e: (int, V))
    requires b < |t|
    ensures multiset(Flatten(t[b := t[b] + [e]])) == multiset(Flatten(t)) + multiset{e}
    ensures |Flatten(t[b := t[b] + [e]])| == |Flatten(t)| + 1
    decreases |t|
  {
    var t' := t[b := t[b] + [e]];
    if b == 0 {
      assert t'[1..] == t[1..];
    } else {
      assert t'[1..] == t[1..][b - 1 := t[1..][b - 1] + [e]];
      FlattenAppend(t[1..], b - 1, e);
    }
  }

  class HashMap<V> {
    /** HASH: the modulus of the hash. */
    const hash: nat
    /** The number of buckets in `table`. */
    const buckets: nat
    var addedElements: nat
    var table: seq<seq<(int, V)>>
    /** The value `mapped_type{}` that operator[] stores for a new key. */
    const blank: V

    /** The table has its buckets, the hash indexes into them, and entries sit in their buckets. */
    ghost predicate Valid()
      reads this
    {
      0 < hash <= buckets && |table| == buckets && buckets < Wrap && addedElements < Wrap &&
      Placed(table, hash)
    }

    /** `addedElements` counts the entries, modulo 2^64. */
    ghost predicate Counted()
      reads this
    {
      addedElements == |Flatten(table)| % Wrap
    }

    /** The default constructor: HASH and `buckets` are both DEF_CAPACITY. */
    constructor Default(blank: V)
      ensures Valid() && Counted() && Flatten(table) == []
      ensures hash == DefCapacity && buckets == DefCapacity && this.blank == blank
      ensures addedElements == 0 && forall i | 0 <= i < |table| :: table[i] == []
    {
      hash, buckets, this.blank := DefCapacity, DefCapacity, blank;
      addedElements := 0;
      table := seq(DefCapacity, i => []);
      new;
      EmptyFlatten(table);
    }

    /** The constructor HashMap(HASH, buckets): `buckets` empty lists. */
    constructor (hash: nat, buckets: nat, blank: V)
      requires 0 < hash <= buckets < Wrap
      ensures Valid() && Counted() && Flatten(table) == []
      ensures this.hash == hash && this.buckets == buckets && this.blank == blank
      ensures addedElements == 0 && forall i | 0 <= i < |table| :: table[i] == []
    {
      this.hash, this.buckets, this.blank := hash, buckets, blank;
      addedElements := 0;
      table := seq(buckets, i => []);
      new;
      EmptyFlatten(table);
    }

    static lemma {:induction false} EmptyFlatten(t: seq<seq<(int, V)>>)
      requires forall i | 0 <= i < |t| :: t[i] == []
      ensures Flatten(t) == []
      decreases |t|
    {
      if t != [] {
        EmptyFlatten(t[1..]);
      }
    }

    /** cend: the position one past the last bucket, which holds no entry. */
    function CEnd(): (r: HashCursor)
      reads this
      ensures Valid() ==> r.bucket == |table| && forall key :: r.bucket != Bucket(key, hash)
    {
      HashCursor(buckets, 0)
    }

    /**
     * insert: the entry goes to the back of the list of its key's bucket, without
     * looking for the key, and the counter grows by one.
     */
    method Insert(key: int, value: V)
      requires Valid()
      modifies this
      ensures Valid()
      ensures table == old(table)[Bucket(key, hash) := old(table)[Bucket(key, hash)] + [(key, value)]]
      ensures multiset(Flatten(table)) == multiset(Flatten(old(table))) + multiset{(key, value)}
      ensures addedElements == Inc(old(addedElements)) && (old(Counted()) ==> Counted())
    {
      var index := Bucket(key, hash);
      FlattenAppend(table, index, (key, value));
      IncMod(|Flatten(table)|);
      table := table[index := table[index] + [(key, value)]];
      addedElements := Inc(addedElements);
    }

    /**
     * lastHashEntry: the scan from the last bucket down to bucket 1 for a non-empty
     * list; bucket 0 is never looked at. `buckets` when every scanned list is empty.
     */
    method LastHashEntry() returns (r: nat)
      requires Valid()
      ensures r == buckets <==> forall i | 1 <= i < buckets :: table[i] == []
      ensures r != buckets ==> 1 <= r < buckets && table[r] != [] && forall i | r < i < buckets :: table[i] == []
    {
      r := buckets;
      var i := buckets - 1;
      while i > 0
        invariant 0 <= i < buckets && r == buckets
        invariant forall k | i < k < buckets :: table[k] == []
        decreases i
      {
        if |table[i]| != 0 {
          r := i;
          break;
        }
        i := i - 1;
      }
    }

    /** firstHashEntry: the first bucket with a non-empty list, or `buckets` when all are empty. */
    method FirstHashEntry() returns (r: nat)
      requires Valid()
      ensures r == buckets <==> forall i | 0 <= i < buckets :: table[i] == []
      ensures r != buckets ==> r < buckets && table[r] != [] && forall i | 0 <= i < r :: table[i] == []
    {
      r := buckets;
      var i := 0;
      while i < buckets
        invariant 0 <= i <= buckets && r == buckets
        invariant forall k | 0 <= k < i :: table[k] == []
      {
        if |table[i]| != 0 {
          r := i;
          break;
        }
        i := i + 1;
      }
    }

    /** isEmpty: compares the counter, not the table. */
    function IsEmpty(): (r: bool)
      reads this
      ensures Valid() && Counted() && |Flatten(table)| < Wrap ==> (r <==> Flatten(table) == [])
    {
      addedElements == 0
    }

    function GetSize(): (r: nat)
      reads this
      ensures Valid() && Counted() ==> r == |Flatten(table)| % Wrap
    {
      addedElements
    }

    /**
     * find: a scan of the list of `key`'s bucket only. The position of its first
     * entry with `key`, or the end position when it has none.
     */
    method Find(key: int) returns (it: HashCursor)
      requires Valid()
      ensures var b := Bucket(key, hash);
        it == if Lookup(table[b], key) < |table[b]| then HashCursor(b, Lookup(table[b], key)) else CEnd()
      ensures it == CEnd() <==> !Has(key)
      ensures it != CEnd() ==>
        it.bucket < |table| && it.position < |table[it.bucket]| && table[it.bucket][it.position].0 == key
    {
      HasInBucket(key);
      var index := Bucket(key, hash);
      var i := 0;
      while i < |table[index]|
        invariant 0 <= i <= |table[index]| && i <= Lookup(table[index], key)
      {
        if table[index][i].0 == key {
          return HashCursor(index, i);
        }
        i := i + 1;
      }
      return CEnd();
    }

    /** The key has an entry somewhere in the table. */
    ghost predicate Has(key: int)
      reads this
    {
      exists e | e in Flatten(table) :: e.0 == key
    }

    /** Looking in the key's own bucket is enough: a key is in the map exactly when its bucket has it. */
    lemma HasInBucket(key: int)
      requires Valid()
      ensures Has(key) <==> Lookup(table[Bucket(key, hash)], key) < |table[Bucket(key, hash)]|
    {
      var b := Bucket(key, hash);
      var n := Lookup(table[b], key);
      if n < |table[b]| {
        FlattenHas(table, table[b][n]);
      }
      if Has(key) {
        var e :| e in Flatten(table) && e.0 == key;
        FlattenHas(table, e);
        var i :| 0 <= i < |table| && e in table[i];
        var j :| 0 <= j < |table[i]| && table[i][j] == e;
        assert Bucket(e.0, hash) == i;
      }
    }

    /**
     * operator[]: for a key `find` does not reach, `(key, blank)` is inserted and the
     * answer is the value at the back of the key's bucket; otherwise the value of
     * the entry `find` reaches, and nothing changes.
     */
    method Index(key: int) returns (v: V)
      requires Valid()
      modifies this
      ensures Valid()
      ensures var b := Bucket(key, hash); var n := Lookup(old(table)[b], key);
        if n < |old(table)[b]| then unchanged(this) && v == old(table)[b][n].1
        else (table == old(table)[b := old(table)[b] + [(key, blank)]] &&
              addedElements == Inc(old(addedElements)) && v == blank)
      ensures old(Has(key)) ==> unchanged(this)
      ensures old(Counted()) ==> Counted()
      ensures Has(key) && Lookup(table[Bucket(key, hash)], key) < |table[Bucket(key, hash)]|
    {
      var it := Find(key);
      if it == CEnd() {
        Insert(key, blank);
        var b := Bucket(key, hash);
        v := table[b][|table[b]| - 1].1;
        HasInBucket(key);
      } else {
        v := table[it.bucket][it.position].1;
      }
    }

    /** valueOf: the value of the entry `find` reaches; a key `find` does not reach throws. */
    method ValueOf(key: int) returns (r: Result<V>)
      requires Valid()
      ensures var b := Bucket(key, hash); var n := Lookup(table[b], key);
        r == if n < |table[b]| then Ok(table[b][n].1) else Err(KeyNotFound)
      ensures r.Ok? <==> Has(key)
      ensures r.Ok? ==> (key, r.value) in Flatten(table)
      ensures r.Err? ==> r.error == KeyNotFound
    {
      var it := Find(key);
      if it == CEnd() {
        return Err(KeyNotFound);
      }
      FlattenHas(table, table[it.bucket][it.position]);
      return Ok(table[it.bucket][it.position].1);
    }

    /** remove(key): not implemented; it always throws and changes nothing. */
    method Remove(key: int) returns (r: Status)
      ensures r == Failed(NotImplemented)
    {
      return Failed(NotImplemented);
    }

    /** remove(iterator): not implemented either. */
    method RemoveAt(it: HashCursor) returns (r: Status)
      ensures r == Failed(NotImplemented)
    {
      return Failed(NotImplemented);
    }
  }
}
