# AISDI maps in Dafny

This project models the two containers of the AISDI maps library:

- `TreeMap.h`: an ordered map kept as a binary search tree. Nodes carry parent pointers and an AVL-style balance factor `bf`.
- `HashMap.h`: a chained hash table, covering the part of it that works.

## TreeMap

**Nodes as an arena.** A node is an index into parallel sequences:
- `links` holds `left`, `right` and `parent`, with `-1` for `nullptr`;
- `keys`, `values` and `bf` hold the rest.

**Ghost shape.** Beside the arena sits a ghost `Tree` (`Nil | Br(l, id, r)`). `TreeShape.Repr` ties it to the pointers:
- every child's `parent` is its parent;
- the root's parent is null;
- `Unique` says that no node occurs twice.

The map's contents are the in-order sequence `InOrder(shape)`. `TreeMaps.Wellformed` collects the invariants:
- link consistency;
- BST order: the in-order keys never decrease;
- every `bf` is in -1..1;
- `size` is below 2^64.

**Paths.** A `Path` (`seq<Frame>`, innermost frame first) records where a subtree sits in the whole tree. `Plug(p, s)` puts the subtree back. Pointer surgery is proved on the few nodes it touches, and then lifted through `Plug`.

**Rotations.** The four rotations (`rotateRR`, `rotateLL`, `rotateRL`, `rotateLR`) are shape transforms `ShapeRR`, …, `ShapeLR`. They keep the in-order sequence and the node set. Their `bf` assignments are modelled exactly as written.

**Insert.** The insert is the BST descent, then the hang, then the upward `bf` walk and the four-way dispatch. It is proved to put the new entry where `InsertSorted` says: after every entry with a smaller or equal key. Duplicate keys are accepted, as in the code.

**Deletion.** Deletion (`removeNode`) is modelled step by step:
1. unlink;
2. move the predecessor into the victim's slot;
3. walk up and rebalance with cases 3A/3B/3C.

Two versions are given. The as-written one keeps the defects listed under Findings; the corrected one is what the class uses.

**Iterators.** An iterator is a value `Cursor(root, current)`. `root` is the root node the iterator was made from; the code never updates it, so after later inserts rotate the tree it may be any node. `++`, `--`, `*` and `==` are methods or functions over it, and errors are `Err(...)` values.

**The class.** `TreeMapClass.TreeMap` is the map object itself. Its fields are the arena, `root`, `size` and the ghost shape, and its methods update them in place.

**Exceptions.** Thrown exceptions become `Result`/`Status` values from `Outcomes`:

| error | thrown by |
|---|---|
| `CollectionEmpty` | "Collection is empty" |
| `KeyNotFound` | the missing-key cases |
| `OutOfRange` | an iterator out of range |
| `NotImplemented` | `HashMap::remove` |
| `NullDereference` | the model's guard where the code would dereference a null pointer |

**Counters.** `size` and `addedElements` are `size_t`. `SizeT.Inc`/`SizeT.Dec` wrap modulo 2^64.

## HashMap

`HashMaps.HashMap` holds:
- `table: seq<seq<(int, V)>>`, one sequence per `std::list`, in list order;
- the constants `hash` (HASH) and `buckets`;
- the counter `addedElements`.

A key's bucket is `key % HASH` after the key is converted to `size_t`, so a negative key wraps modulo 2^64 first. The invariant `Valid` also records the precondition `0 < HASH <= buckets`: the table is sized by `buckets` but indexed modulo `HASH`.

**The find iterator.** `find` returns a `HashCursor(bucket, position)`, and `cend()` is `HashCursor(buckets, 0)`. In the C++, `ConstIterator::operator==` and `operator*` have empty bodies, and `find` passes an integer where a list iterator is expected. The model therefore gives them their evident meaning:
- `==` is equality of bucket and position;
- `->second` is the value stored at that position.

## Model

| member | source | states |
|---|---|---|
| `SizeT.Inc` | TreeMap.h:149 | `++size` on a 64-bit counter: one more below the top, 0 after 2^64 - 1 |
| `SizeT.Dec` | TreeMap.h:595 | `--size` on a 64-bit counter: one less above 0, 2^64 - 1 after 0 |
| `SizeT.IncMod` | HashMap.h:46 | incrementing a counter that holds a count modulo 2^64 gives the count plus one, modulo 2^64 |
| `SizeT.DecMod` | TreeMap.h:595 | decrementing such a counter gives the count minus one, modulo 2^64 |
| `TreeShape.InOrderIds` | TreeMap.h:33-51 | the in-order sequence lists exactly the nodes of the tree, and is empty exactly for the empty tree |
| `TreeShape.UniqueNoDup` | TreeMap.h:33-51 | a tree in which no node occurs twice has an in-order sequence without repetitions |
| `TreeShape.ReprBounds` | TreeMap.h:33-51 | every node reached through the links is a valid node of the arena |
| `TreeShape.PlugInOrder` | TreeMap.h:33-51 | the in-order sequence of a whole tree is the nodes before a subtree, the subtree's own sequence, then the nodes after it |
| `TreeShape.PlugIds` | TreeMap.h:33-51 | the nodes of a whole tree are the nodes of a subtree plus those of its context |
| `TreeShape.PlugUnique` | TreeMap.h:33-51 | a whole tree has no repeated node iff its subtree and its context have none and share none |
| `TreeShape.PlugRepr` | TreeMap.h:33-51 | the links spell out a whole tree iff they spell out the subtree under its parent and the context around the subtree's root |
| `TreeShape.Locate` | TreeMap.h:33-51 | every node of a tree sits at the top of some subtree, with a path to the root |
| `TreeShape.HoleSide` | TreeMap.h:522-529 | the parent's `left` points at a subtree exactly when the subtree is a left child (or both slots are null) |
| `TreeShape.ShapeRRKeepsOrder` | TreeMap.h:152-181 | the RR rotation's shape change keeps the in-order sequence, the node set and uniqueness |
| `TreeShape.ShapeLLKeepsOrder` | TreeMap.h:183-212 | the LL rotation's shape change keeps the in-order sequence, the node set and uniqueness |
| `TreeShape.ShapeRLKeepsOrder` | TreeMap.h:214-261 | the RL rotation's shape change, with `c` as the new subtree root, keeps the in-order sequence, node set and uniqueness |
| `TreeShape.ShapeLRKeepsOrder` | TreeMap.h:263-310 | the LR rotation's shape change, with `c` as the new subtree root, keeps the in-order sequence, node set and uniqueness |
| `TreeShape.PlugKeepsOrder` | TreeMap.h:152-310 | replacing a subtree by one with the same in-order sequence keeps the whole tree's in-order sequence |
| `TreeShape.Replug` | TreeMap.h:152-310 | relinking a subtree in place, touching only its nodes and its parent's slot, keeps the rest of the tree linked |
| `TreeShape.PlugReplace` | TreeMap.h:522-529 | a subtree swapped for a disjoint one, with the parent's slot redirected, leaves a well-linked tree |
| `Rotations.RaiseRight` | TreeMap.h:152-172 | the pointer updates of rotateRR: `b` takes `a`'s place under `a`'s parent, `a` becomes `b`'s left child, `b`'s old left subtree moves under `a`, nothing else changes |
| `Rotations.RaiseLeft` | TreeMap.h:183-203 | the mirror updates of rotateLL |
| `Rotations.TurnUnderRight` | TreeMap.h:219-224 | the first half of rotateRL: `b` becomes `c`'s right child and takes `c`'s old right subtree as its left |
| `Rotations.TurnUnderLeft` | TreeMap.h:268-273 | the first half of rotateLR: `b` becomes `c`'s left child and takes `c`'s old left subtree as its right |
| `Rotations.RelinkRR` | TreeMap.h:152-172 | after rotateRR's pointer updates the links spell out the rotated shape, with only four nodes changed |
| `Rotations.RelinkLL` | TreeMap.h:183-203 | after rotateLL's pointer updates the links spell out the rotated shape, with only four nodes changed |
| `Rotations.RelinkRL` | TreeMap.h:214-242 | after rotateRL's pointer updates the links spell out the rotated shape, with only six nodes changed |
| `Rotations.RelinkLR` | TreeMap.h:263-291 | after rotateLR's pointer updates the links spell out the rotated shape, with only six nodes changed |
| `TreeMaps.OrderedSplit` | TreeMap.h:76-91 | in a BST-ordered tree, the keys of the left subtree are at most the root's key and the keys of the right subtree at least it |
| `TreeMaps.MaxNode` | TreeMap.h:312-317 | maxNode returns the last node of the subtree's in-order sequence |
| `TreeMaps.MinNode` | TreeMap.h:318-323 | minNode as written: null for an empty tree, the root when it has no left child, otherwise the root's in-order predecessor |
| `TreeMaps.Leftmost` | TreeMap.h:318-323 | the intended minNode: the first node of the in-order sequence |
| `TreeMaps.RotateRRArena` | TreeMap.h:152-181 | rotateRR keeps the map wellformed, the in-order sequence and the node set; `bf` becomes (-1, 1) when `b` was balanced, else (0, 0) |
| `TreeMaps.RotateLLArena` | TreeMap.h:183-212 | rotateLL keeps the map wellformed, the in-order sequence and the node set; `bf` becomes (1, -1) when `b` was balanced, else (0, 0) |
| `TreeMaps.RotateRLArena` | TreeMap.h:214-261 | rotateRL keeps the map wellformed, the in-order sequence and the node set; `c.bf` is 0 and `a.bf`, `b.bf` follow the three-case table on `c`'s old `bf` |
| `TreeMaps.RotateLRArena` | TreeMap.h:263-310 | rotateLR keeps the map wellformed, the in-order sequence and the node set; `c.bf` is 0 and `a.bf`, `b.bf` follow its three-case table |
| `TreeMaps.Entries` | TreeMap.h:33-51 | the map's entries: one (key, value) pair per node of the in-order sequence |
| `TreeMaps.InsertSortedBetween` | TreeMap.h:76-91 | inserting a key after all smaller-or-equal keys and before all larger ones is what InsertSorted does |
| `TreeMaps.Descend` | TreeMap.h:67-94 | the descent stops at a node with a free slot on the side the key goes to (left iff key < node key); every node before the slot has a key <= key, every node after it a larger key |
| `TreeMaps.Attach` | TreeMap.h:68-95 | the new node hangs as a leaf in that slot, its `parent` is `p`, only `p` changes among old nodes |
| `TreeMaps.HangOrder` | TreeMap.h:67-95 | the new leaf lands between its in-order neighbours and BST order still holds |
| `TreeMaps.HangEntries` | TreeMap.h:65-95 | the entries after the hang are the old entries with the new pair inserted after every smaller-or-equal key |
| `TreeMaps.Walked` | TreeMap.h:110-125 | the ascent's `bf` updates: each ancestor passed is set to +1 or -1 by the side it was reached from |
| `TreeMaps.WalkedBalances` | TreeMap.h:110-125 | the ascent's updates keep every `bf` in -1..1 |
| `TreeMaps.Retrace` | TreeMap.h:97-125 | the parent's `bf` is reset or set (lines 97-105), then the walk sets `bf` of the balanced ancestors and stops at the first unbalanced one or at the root; the result is the `Walked` table |
| `TreeMaps.Climb` | TreeMap.h:107-125 | the loop of the walk: every ancestor passed had `bf` 0 and is set by the side the walk came from; it stops at the first ancestor with nonzero `bf`, unchanged, or at the root |
| `TreeMaps.Fixup` | TreeMap.h:127-147 | the four-way dispatch: a balanced outcome sets `r.bf` to 0, otherwise LR/LL/RL/RR rotation by the signs of `r.bf` and `p.bf`; the in-order sequence and the node set are kept |
| `TreeMaps.Hang` | TreeMap.h:67-95 | descent plus hang: wellformed, one more node, entries are InsertSorted of the old entries |
| `TreeMaps.Settle` | TreeMap.h:96-147 | the `bf` update, the ascent and the dispatch keep the map wellformed and keep the in-order sequence and node set |
| `TreeMaps.Place` | TreeMap.h:65-148 | the whole insert on the arena: the new node is the next index, the entries become InsertSorted of the old ones, even for an existing key |
| `TreeMaps.InsertSortedHas` | TreeMap.h:65-150 | an insert adds the new pair, keeps every old entry and grows the entries by exactly one |
| `TreeIterators.Position` | TreeMap.h:686-748 | a node splits the in-order sequence into its left part, itself and its right part, occurring once |
| `TreeIterators.Successor` | TreeMap.h:693-707 | the in-order successor is the leftmost node of the right subtree, or else the first node after the subtree in its context |
| `TreeIterators.Predecessor` | TreeMap.h:325-344 | the in-order predecessor is the rightmost node of the left subtree, or else the last node before the subtree in its context |
| `TreeIterators.LeftmostOf` | TreeMap.h:693-698 | the loop down the left links reaches the first node of the subtree |
| `TreeIterators.RightmostOf` | TreeMap.h:331-335 | the loop down the right links reaches the last node of the subtree |
| `TreeIterators.ClimbFromRight` | TreeMap.h:699-707 | climbing while coming from a right child reaches the in-order successor of a node without a right child (null after the maximum) |
| `TreeIterators.ClimbFromLeft` | TreeMap.h:739-745 | the climb of `--`: going up while the node is its parent's left child reaches the last node before its subtree, the in-order predecessor of a node without a left child (null before the minimum) |
| `TreeIterators.Previous` | TreeMap.h:325-344 | previous returns the in-order predecessor, null for the minimum, and null for null |
| `TreeIterators.Next` | TreeMap.h:686-710 | `++`: out of range at the end, "collection is empty" for a null root, otherwise the in-order successor (null after the maximum) |
| `TreeIterators.PrevAsWritten` | TreeMap.h:719-748 | `--` as written, from the root stored in the iterator (any node of the tree once later inserts have rotated): "collection is empty" for a null stored root, out of range at the leftmost node of the stored root's subtree, that subtree's rightmost node from the end, the LEFT CHILD itself when there is one, and otherwise the in-order predecessor in the whole tree |
| `TreeIterators.PrevFixed` | TreeMap.h:719-748 | `--` as intended: the same errors and the same step from the end as written, otherwise the in-order predecessor |
| `TreeIterators.Deref` | TreeMap.h:757-765 | `*`: "collection is empty" when the root stored in the iterator is null (whatever the map's root is now), out of range for the end, otherwise exactly the key and value stored at the node, which are one of the map's entries |
| `TreeIterators.Same` | TreeMap.h:772-775 | `==` holds iff both root and current agree |
| `TreeIterators.CBegin` | TreeMap.h:638-641 | cbegin as written via minNode: when the root has a left subtree it starts at the root's predecessor, not at the minimum |
| `TreeIterators.CBeginFixed` | TreeMap.h:638-641 | cbegin as intended: the first node in order |
| `TreeIterators.CEnd` | TreeMap.h:643-646 | cend: the same root, current null |
| `TreeIterators.SampleWellformed` | TreeMap.h:65-150 | the arena, hand-traced as the result of inserting 4, 2, 5, 3, is a wellformed map with in-order nodes 1, 3, 0, 2 |
| `TreeIterators.BeginMissesLeast` | TreeMap.h:318-323 | on that tree cbegin starts at key 3 while the least key is 2 |
| `TreeIterators.DecrementSkips` | TreeMap.h:735-736 | on that tree `--` from the root goes to its left child (key 2), skipping the predecessor (key 3) |
| `TreeIterators.StaleEndStepsBack` | TreeMap.h:727-733 | an end iterator made on the map {1} keeps node 0 as its root; in the arena hand-traced from then inserting 2 and 3, node 0 is a leaf below the new root, so `--` from that iterator reaches the key 1 and not the greatest key 3 |
| `TreeRemoval.Rightmost` | TreeMap.h:331-335 | the rightmost subtree of a tree has no right child |
| `TreeRemoval.RightSpinePlug` | TreeMap.h:331-335 | the rightmost subtree, plugged back along the right spine, gives the tree, and its root is the tree's last node in order |
| `TreeRemoval.PredecessorPath` | TreeMap.h:489-491 | the predecessor of a node with a left child sits in that left subtree, below the node |
| `TreeRemoval.Detach` | TreeMap.h:494-529 | unlinking a node with at most one child, keeping the child's own subtrees: the child takes the node's place |
| `TreeRemoval.DetachAsWritten` | TreeMap.h:494-529 | the unlink as written: the child takes the node's place with its own children overwritten by the node's (nulled) links, so its subtrees fall off |
| `TreeRemoval.Adopt` | TreeMap.h:509-520 | `y` takes `x`'s links and `x`'s children point up to `y`; only those nodes change |
| `TreeRemoval.Relocate` | TreeMap.h:509-529 | the predecessor is moved into the victim's slot: the links spell out the same tree with `w` in place of `x` |
| `TreeRemoval.Establish` | TreeMap.h:33-51 | the wellformedness invariant from its parts |
| `TreeRemoval.Rebalanced` | TreeMap.h:538-552 | setting one `bf` to a value in -1..1 keeps the map wellformed |
| `TreeRemoval.Restore` | TreeMap.h:554-587 | one rotation step of the deletion walk (3A: single rotation and stop; 3B: single rotation and go on from `t`; 3C: double rotation and go on from the new subtree root): keeps wellformedness, the in-order sequence and the node set; a null `t` or a missing inner grandchild stops the walk with NullDereference |
| `TreeRemoval.Rebalance` | TreeMap.h:532-591 | the whole deletion walk keeps the map wellformed, the in-order sequence and the node set, and ends Done or NullDereference |
| `TreeRemoval.SpliceOut` | TreeMap.h:494-529 | after splicing out a node with at most one child, the in-order sequence is the old one without that node, still ordered |
| `TreeRemoval.CutOff` | TreeMap.h:494-529 | after the as-written unlink, the in-order sequence is the context around the child alone, still ordered |
| `TreeRemoval.ShallowKept` | TreeMap.h:513-519 | when the child has no children of its own, the as-written unlink loses nothing |
| `TreeRemoval.Unhook` | TreeMap.h:494-591 | the corrected one-child removal: the in-order sequence loses exactly the node, the node set loses exactly it, order and links hold |
| `TreeRemoval.UnhookAsWritten` | TreeMap.h:494-591 | the as-written one-child removal: the in-order sequence and node set are those of the tree with the child's subtrees dropped |
| `TreeRemoval.PredecessorSpot` | TreeMap.h:489-491 | a two-child victim's predecessor is the rightmost node of its left subtree, has no right child, and is the last node before the victim in order |
| `TreeRemoval.Replaced` | TreeMap.h:489-529 | after the predecessor is removed and moved into the victim's slot, the in-order sequence is the old one without the victim, still ordered |
| `TreeRemoval.ReplacedIds` | TreeMap.h:489-529 | after that move the node set is the old one without the victim |
| `TreeRemoval.RemoveNode` | TreeMap.h:484-597 | corrected removeNode: the in-order sequence loses exactly the victim, the node set loses it, order and links hold, the walk ends Done or NullDereference |
| `TreeRemoval.RemoveNodeAsWritten` | TreeMap.h:484-597 | removeNode as written: a two-child victim is replaced by its predecessor, whose own place is taken by its left child alone, that child's subtrees dropped (nothing is lost when that child has no children), and `size` drops by two; for a victim with at most one child, the child's subtrees are dropped and `size` drops by one |
| `TreeRemoval.CounterDrifts` | TreeMap.h:491 | for every nonempty count, two decrements leave the counter off by one from the true count |
| `TreeRemoval.LossyWellformed` | TreeMap.h:65-150 | the arena, hand-traced as the result of inserting 20, 10, 30, 40, 25, 5, 22 (with the `bf` values the code assigns), is a wellformed map |
| `TreeRemoval.UnlinkLosesKey` | TreeMap.h:513-519 | on that tree, removing 20 as written drops node 22, which the corrected unlink keeps |
| `TreeRemoval.ShallowReplaced` | TreeMap.h:489-529 | when the predecessor's left child has no children, the as-written two-child removal leaves the old in-order sequence and node set without the victim |
| `TreeRemoval.ReplacedAsWritten` | TreeMap.h:489-529 | after the as-written unlink of the predecessor and its move into the victim's slot, the in-order sequence and node set are those of the tree with the trimmed left subtree and the predecessor in the victim's place, still ordered |
| `TreeRemoval.MirrorWellformed` | TreeMap.h:65-150 | the arena, hand-traced as the result of inserting -20, -10, -30, -40, -25, -5, -22, is a wellformed map |
| `TreeRemoval.TwoChildLosesKey` | TreeMap.h:489-520 | on that map, removing the two-child key -10 as written moves its predecessor -20 into its place and drops node 6 (key -22) |
| `TreeRemoval.RemoveRootMiscounts` | TreeMap.h:595 | removing the two-child root of the 4, 2, 5, 3 tree leaves three nodes but a size of two |
| `TreeRemoval.EntriesWithout` | TreeMap.h:484-597 | removing one node from the in-order sequence removes exactly its entry from the entries |
| `TreeRemoval.Delete` | TreeMap.h:484-597 | removal of a node on the arena: the entries lose exactly the victim's entry at its in-order index, the node set loses it |
| `TreeMapClass.TreeMap.Items` | TreeMap.h:33-51 | the map's entries in key order, one per node |
| `TreeMapClass.TreeMap.KeysSorted` | TreeMap.h:65-95 | the keys of a wellformed map are sorted |
| `TreeMapClass.TreeMap.KeysHolds` | TreeMap.h:439-465 | a key is among the map's keys iff some node holds it |
| `TreeMapClass.TreeMap.constructor` | TreeMap.h:349-351 | a new map is empty with size 0 |
| `TreeMapClass.TreeMap.IsEmpty` | TreeMap.h:403-406 | isEmpty holds iff there are no entries (while the count is below 2^64) |
| `TreeMapClass.TreeMap.GetSize` | TreeMap.h:604-607 | getSize is the number of entries modulo 2^64 |
| `TreeMapClass.TreeMap.Find` | TreeMap.h:439-465 | find changes nothing; it returns the end iterator iff no node holds the key, otherwise a node holding the key |
| `TreeMapClass.TreeMap.Insert` | TreeMap.h:65-150 | insert adds one node with the pair, the entries become InsertSorted of the old entries (also for a present key), size grows by one |
| `TreeMapClass.TreeMap.Index` | TreeMap.h:408-417 | operator[]: a present key leaves the map unchanged and yields its value; an absent key inserts (key, default) and grows size by one; afterwards the key is present |
| `TreeMapClass.TreeMap.ValueOf` | TreeMap.h:419-437 | valueOf: "collection is empty" when size is 0, missing key otherwise when absent, else a value stored with the key |
| `TreeMapClass.TreeMap.RotateRR` | TreeMap.h:152-181 | rotateRR on the map object: same entries, new shape, `bf` as written |
| `TreeMapClass.TreeMap.RotateLL` | TreeMap.h:183-212 | rotateLL on the map object: same entries, new shape, `bf` as written |
| `TreeMapClass.TreeMap.RotateRL` | TreeMap.h:214-261 | rotateRL on the map object: same entries, new shape, `bf` as written |
| `TreeMapClass.TreeMap.RotateLR` | TreeMap.h:263-310 | rotateLR on the map object: same entries, new shape, `bf` as written |
| `TreeMapClass.TreeMap.Erase` | TreeMap.h:481-597 | removing a node: its entry is removed from its in-order position, size drops by exactly one |
| `TreeMapClass.TreeMap.Remove` | TreeMap.h:472-482 | remove: "collection is empty" or missing key leave the map unchanged; otherwise one entry with the key is removed and size drops by one |
| `TreeMapClass.TreeMap.RemoveAt` | TreeMap.h:599-602 | remove(iterator), for an iterator with any stored root: a null stored root or the end position fail and leave the map unchanged; otherwise one entry with the key at the iterator's node is removed, size drops by one and stays the exact count |
| `HashMaps.Bucket` | HashMap.h:44 | the bucket index is below HASH and is `key % HASH` for keys within size_t |
| `HashMaps.Lookup` | HashMap.h:173-178 | the first position in a list holding the key, or the list's length |
| `HashMaps.FlattenHas` | HashMap.h:39 | an entry is in the table iff it is in one of its lists |
| `HashMaps.FlattenAppend` | HashMap.h:45 | appending to one list adds exactly that entry to the table's contents |
| `HashMaps.HashMap.Default` | HashMap.h:81-84 | the default map: HASH = buckets = 1024, all lists empty, count 0 |
| `HashMaps.HashMap.constructor` | HashMap.h:86-89 | HashMap(HASH, buckets): `buckets` empty lists, count 0 |
| `HashMaps.HashMap.EmptyFlatten` | HashMap.h:83 | a table of empty lists has no entries |
| `HashMaps.HashMap.CEnd` | HashMap.h:261-264 | cend is one past the last bucket, where no key hashes |
| `HashMaps.HashMap.Insert` | HashMap.h:42-47 | insert appends the pair to the back of its key's list, changes no other list, adds exactly that entry (no duplicate check) and increments addedElements |
| `HashMaps.HashMap.LastHashEntry` | HashMap.h:49-62 | lastHashEntry: the largest non-empty bucket among 1..buckets-1, or `buckets` when those are all empty; bucket 0 is never inspected |
| `HashMaps.HashMap.FirstHashEntry` | HashMap.h:64-77 | firstHashEntry: the smallest non-empty bucket, or `buckets` when all are empty |
| `HashMaps.HashMap.IsEmpty` | HashMap.h:137-140 | isEmpty holds iff the table has no entries (while the count is below 2^64) |
| `HashMaps.HashMap.GetSize` | HashMap.h:211-214 | getSize is the number of entries modulo 2^64 |
| `HashMaps.HashMap.Find` | HashMap.h:169-180 | find scans only the key's bucket and returns the first position holding the key; it returns cend iff the key is nowhere in the table |
| `HashMaps.HashMap.HasInBucket` | HashMap.h:169-180 | a key is in the table iff its own bucket holds it |
| `HashMaps.HashMap.Index` | HashMap.h:142-152 | operator[]: a present key leaves the map unchanged and yields its first value; an absent key appends (key, default) to its bucket, increments the count and yields the new back entry's value |
| `HashMaps.HashMap.ValueOf` | HashMap.h:154-162 | valueOf: the value of the first entry with the key in its bucket, or "key doesn't exist" when the key is absent |
| `HashMaps.HashMap.Remove` | HashMap.h:187-202 | remove(key) always fails with "TODO" and changes nothing |
| `HashMaps.HashMap.RemoveAt` | HashMap.h:204-209 | remove(iterator) always fails with "TODO" and changes nothing |

## Left out

- Memory management is not modelled: `new`, `delete`, `deleteTree` and the destructors. A removed node stays in the arena but is no longer reachable from the root. The map's node set is the ghost `Ids(shape)`.
- An iterator whose stored root or node has since been removed points to deleted memory, and using it is undefined behaviour. The iterator members require both to be null or nodes of the current tree. Any such node is accepted as the stored root, not only the map's current root.
- Copy and move constructors, both assignments, the initializer-list constructors and `TreeMap::operator==`/`!=` are not modelled. They replay inserts over `begin()` or move whole containers; they are thin glue.
- `Iterator` only forwards to `ConstIterator` through `const_cast`, in both maps. The model has `ConstIterator` only. The postfix `++(int)`/`--(int)` forms return a copy taken before the prefix step.
- `TreeMap::begin()`/`end()` are not modelled separately. They are `cbegin()`/`cend()`.
- HashMap's iterator is not modelled:
  - `operator++` and `operator--` are left out; `operator--` contains an empty infinite loop.
  - `operator*` and `operator==` have empty bodies; `find`, `operator[]` and `valueOf` get the evident meaning of a (bucket, position) pair, as described above.
- `HashMap::begin()`/`end()` throw instead of returning. `cbegin()` can run off its end without returning a value. `HashMap::operator==` never advances its iterator. None of these are modelled.
- `HashMap::find` returns `cend()` for an absent key; `valueOf` compares that against `end()` on a const map, which is the same.
- The non-const `find` and `valueOf`, and `operator[]` through `find`, forward to the const ones via `static_cast<const HashMap>(*this)` (HashMap.h:164-167, 182-185). That cast runs the copy constructor (HashMap.h:97-100), which iterates with the `ConstIterator` whose `==` and `*` have empty bodies, and the result refers into the temporary copy. This is undefined behaviour. The model replaces it with a read of the map itself.
- main.cpp is a demonstration program and is not part of this model.
- AVL balance is not proved, and neither is agreement of `bf` with real subtree heights. The code's `bf` updates do not keep them (for example the rotations' balanced-child cases). The model keeps only `bf` in -1..1 and assigns every `bf` exactly as the code does.
- TreeRemoval.Rebalance: states the map invariants, in-order sequence and node set after the walk, but not the individual `bf` values, which follow the code's updates step by step.
- TreeRemoval.Restore: the deletion walk dereferences `t` (TreeMap.h:560) and `c` inside rotateLR/rotateRL. These are non-null only when `bf` matches the real heights. The model guards them: the walk stops with `NullDereference`, and the removal itself completes.
- `removeNode` never copies `x->bf` into the node moved into `x`'s slot (TreeMap.h:509-520). The model does not copy it either.
- TreeMapClass.TreeMap.RemoveAt: removes the key under the iterator through `find`, as the code does. With duplicate keys this may remove a different node holding the same key.
- TreeMapClass.TreeMap.Erase: uses the corrected removal (see Findings). The size drops by one and no subtree is lost.
- TreeMapClass.TreeMap.Remove: uses the corrected removal through Erase, for the same reason.
- TreeMapClass.TreeMap.Index: returns the node and the value. The reference the code returns, which a caller could write through, is not modelled.
- HashMaps.HashMap.Index: returns the value rather than a reference into the list.
- Keys are `int`, and key comparison is integer comparison. The templates accept any key type with `<`, `>`, `==` and `%`.

## Findings

| source | as written | input that shows it | evidently intended | confidence | as-written member | corrected member |
|---|---|---|---|---|---|---|
| TreeMap.h:318-323, 638-641 | `minNode` returns `maxNode(node->left)`, so `cbegin` starts at the root's in-order predecessor | insert 4, 2, 5, 3: cbegin is at 3, the least key is 2 | `cbegin` at the leftmost node | not executed | `TreeIterators.CBegin`, `TreeIterators.BeginMissesLeast` | `TreeIterators.CBeginFixed` |
| TreeMap.h:735-736 | `--` on a node with a left child steps to that child | insert 4, 2, 5, 3, then `--` from 4: the result is 2, skipping 3 | the maximum of the left subtree | not executed | `TreeIterators.PrevAsWritten`, `TreeIterators.DecrementSkips` | `TreeIterators.PrevFixed` |
| TreeMap.h:513-519 | the one-child unlink overwrites the child's own `left`/`right` with the victim's nulled links, dropping the child's subtrees | insert 20, 10, 30, 40, 25, 5, 22 (the code's `bf` updates skip a rotation, so 20 ends up with only a right child 25, whose left child is 22), then remove 20: key 22 is lost | the child keeps its subtrees | not executed | `TreeRemoval.DetachAsWritten`, `TreeRemoval.UnhookAsWritten`, `TreeRemoval.UnlinkLosesKey` | `TreeRemoval.Detach`, `TreeRemoval.Unhook`, `TreeRemoval.RemoveNode` |
| TreeMap.h:489-520 | a two-child victim's predecessor is unhooked by the same one-child unlink, so the predecessor's left child loses its own subtrees | insert -20, -10, -30, -40, -25, -5, -22, then remove -10: -20 takes its place, -25 takes the place of -20, and key -22 is lost | the predecessor's left child keeps its subtrees | not executed | `TreeRemoval.RemoveNodeAsWritten`, `TreeRemoval.TwoChildLosesKey` | `TreeRemoval.RemoveNode` |
| TreeMap.h:491, 595 | a two-child victim's removal decrements `size` in the recursive call and again at the end | insert 4, 2, 5, 3, then remove 4: three entries remain, getSize gives 2 | one decrement per removed entry | not executed | `TreeRemoval.RemoveNodeAsWritten`, `TreeRemoval.CounterDrifts`, `TreeRemoval.RemoveRootMiscounts` | `TreeRemoval.RemoveNode`, `TreeMapClass.TreeMap.Erase` |
