# Nonblocking sets, mound priority queues and mindicators, modelled in Dafny

This project models the core data structures of the `nonblocking`
repository, running one operation at a time.

- **Hash sets.** There are three of them:
  - the Java adaptive wait-free array hash set (`hash/AdaptiveArrayHashSetOpt.java`);
  - its lock-free C++ counterpart (`tsx_acceleration/chash/hash.hpp`);
  - the hardware-transactional variant (`tsx_acceleration/chash/hash_htm.hpp`).

  Each keeps a head table of immutable buckets. A bucket is a duplicate-free
  array of keys, published by a compare-and-swap. Each table may also keep a
  link to the previous, smaller or larger, generation. Buckets are frozen
  with a mark bit (`chash/common.hpp`) and migrated lazily, by splitting or
  merging the old buckets, when a resize installs a new head. The modules are:
  - `MarkBits`: the mark bit and the counted pointer;
  - `Buckets`: the bucket helpers and the migration of a generation, on values;
  - `LengthPrefixed`: the C++ length-prefixed arrays, as methods over `array<int>`;
  - `BucketTables`: the table invariant shared by the two C++ sets;
  - `AdaptiveHashSet`, `ChashSet` and `HtmHashSet`: the sets themselves.

  Every set's `Contents()` is the set of keys in its head table, with buckets
  not yet migrated read through the old generation. Insert, remove and
  contains are proved against that abstraction.
- **Mound priority queues.** These are the queues of `tsx_acceleration/mound`:
  - the sequential array heap (`heap_inline.hpp`);
  - the heap of sorted lists (`heap_seq.hpp`);
  - the sorted list (`list_seq.hpp`);
  - the lock-based mound (`mound_RTM_cgl.hpp`);
  - the flat-combining mound (`mound_fc.hpp`);
  - the counter and swap machinery of Hunt et al.'s concurrent heap (`heap_hunt.hpp`).

  The first five are proved against a multiset of their elements: add
  inserts one copy, and remove takes out a least element, or reports
  `UINT_MAX` when the queue is empty. For `heap_hunt.hpp` only the
  bit-reversed counter and the two swaps are modelled: the counter is proved
  to hand out every slot once, level by level, with the decrement undoing
  the increment, and the swaps to trade exactly the two slots' contents.
  `BinaryHeap`, `MoundTree` and `MoundCommon` hold the shared invariants:
  the array heap order, the mound tree order, and the answers of a sequence
  of removes.
- **Powers of two.** `Powers` holds `1 << k` and its monotonicity, which
  the hash-set generations, the mound levels and the hunt heap's highbit
  all use.
- **Mindicators.** These are the structures of `mindicator`:
  - the tree geometry shared by every mindicator (`common.hpp`, in `MindicatorCommon`);
  - the lock-free W-way tree's layout and its constructor (`Mindicator.hpp`);
  - the tree of values, locked per node (`lockmin.hpp`);
  - the tree whose nodes cache their children's minima (`lockcache.hpp`);
  - the sorted-list mindicator (`list.hpp`).

  The tree of values, the tree of cached minima and the sorted list
  are each proved to report the least value that an arrived thread holds,
  or `INT_MAX` when no thread has arrived. For `common.hpp` the model proves
  the tree's sizes and index arithmetic and the packing of a node's word.
  For `Mindicator.hpp` it proves the constructor's wiring, and that a query
  of the tree just built answers `INT_MAX`; its arrive and depart are
  left out. `MinTree` states the tree invariant.

The model is sequential.
- A compare-and-swap is a conditional assignment. With nothing running
  beside it, the compare succeeds wherever the source expects it to.
- A lock or a committed transaction is a plain block of statements.
- Whether a hardware transaction starts is a boolean parameter (`htm`).
- Allocation is a fresh object, or a fresh array for the C++ buckets.
- The random probes of the mound take their index as a parameter.

Nothing performs I/O.

Machine integers keep their width where the source relies on it:
- the queues' `uint32_t` values are `u32`;
- the mindicators' `int32_t` values are `i32`;
- counters and the mark bits are `bv32` and `bv64`.

Every other integer is unbounded.

## Model

| member | source | states |
|---|---|---|
| MarkBits.IsMarked | tsx_acceleration/chash/common.hpp:10 | the result is 0 or 1, and 0 exactly when the word's low bit is clear |
| MarkBits.RefMarked | tsx_acceleration/chash/common.hpp:11 | the result is marked and agrees with the word on every bit above bit 0 |
| MarkBits.RefUnmarked | tsx_acceleration/chash/common.hpp:12 | the result is unmarked and agrees with the word on every bit above bit 0 |
| MarkBits.UnmarkMarked | tsx_acceleration/chash/common.hpp:11-12 | unmarking a marked aligned pointer gives the pointer back |
| MarkBits.MarkIdempotent | tsx_acceleration/chash/common.hpp:11 | marking twice is marking once |
| MarkBits.UnmarkIdempotent | tsx_acceleration/chash/common.hpp:12 | unmarking twice is unmarking once |
| MarkBits.MarkNoop | tsx_acceleration/chash/common.hpp:10-12 | marking a marked word, or unmarking an unmarked one, leaves it as it is |
| MarkBits.MakeCPtr | tsx_acceleration/chash/common.hpp:33 | the counted pointer carries exactly the given pointer and counter |
| MarkBits.All | tsx_acceleration/chash/common.hpp:22-31 | the union's 64-bit view holds the pointer in its low 32 bits and the counter in its high 32 bits |
| MarkBits.FromAll | tsx_acceleration/chash/common.hpp:22-31 | the fields read back from a 64-bit word are its low and high halves |
| MarkBits.AllRoundTrip | tsx_acceleration/chash/common.hpp:22-31 | writing the fields and reading the word, or the converse, loses nothing |
| MarkBits.NextCtr | tsx_acceleration/chash/hash_htm.hpp:321 | the next counter differs from the old one: one more, wrapping to 0 after 2^32 - 1 |
| MarkBits.NextWordDiffers | tsx_acceleration/chash/hash_htm.hpp:321 | a word installed with the next counter differs from the word it replaces whatever pointer it carries, so a stale compare-and-set fails |
| MindicatorCommon.Power | tsx_acceleration/mindicator/common.hpp:49-59 | for Num at least 1, Power<Num, Exp> is positive, and at least Num from Exp 1 on |
| MindicatorCommon.GeoSum | tsx_acceleration/mindicator/common.hpp:61-78 | for a scalar of at least 2, GeoSum<First, Scalar, Terms> is First times 1 + Scalar + ... + Scalar^(Terms-1), so its division is exact |
| MindicatorCommon.ShapeCounts | tsx_acceleration/mindicator/lockmin.hpp:95-97 | NUM_NODES = FIRST_LEAF + MAX_THREADS, NUM_NODES = FIRST_LEAF * WAY + 1, and there is at least one leaf |
| MindicatorCommon.ToI32 | tsx_acceleration/mindicator/common.hpp:148-151 | a uint32_t stored in the int32_t min field keeps its 32 bits |
| MindicatorCommon.ToU32 | tsx_acceleration/mindicator/common.hpp:148 | an int32_t passed as a uint32_t keeps its 32 bits |
| MindicatorCommon.I32RoundTrip | tsx_acceleration/mindicator/common.hpp:148-151 | int32_t to uint32_t and back is the identity |
| MindicatorCommon.ReinitWord | tsx_acceleration/mindicator/common.hpp:126-127 | the word written has steady bit s, version v and minimum d, each cut to its bit-field |
| MindicatorCommon.ReinitReadsBack | tsx_acceleration/mindicator/common.hpp:148-153 | a word built from values that fit their fields reads those values back |
| MindicatorCommon.ChildOf | tsx_acceleration/mindicator/lockcache.hpp:189-208 | every node but the root comes after its parent and is child relative_index of it |
| MindicatorCommon.ParentOf | tsx_acceleration/mindicator/lockcache.hpp:189-208 | child r of node p has parent p and relative index r |
| MindicatorCommon.ParentInternal | tsx_acceleration/mindicator/lockcache.hpp:180-193 | the parent of every node but the root is an internal node |
| MindicatorCommon.ChildrenInside | tsx_acceleration/mindicator/lockcache.hpp:180-201 | a node's WAY children lie inside the array exactly when the node is internal |
| MindicatorCommon.Parent | tsx_acceleration/mindicator/lockcache.hpp:189-193 | (index - 1) / WAY: the root maps to itself, and every other node's parent comes before it |
| MindicatorCommon.Rel | tsx_acceleration/mindicator/lockcache.hpp:204-208 | (index - 1) % WAY: -1 for the root; for every other node a child number below WAY, and the node is that child of its parent |
| MindicatorCommon.FirstChild | tsx_acceleration/mindicator/lockcache.hpp:198-202 | index * WAY + 1: the first child comes after the node, and the WAY children end at (index + 1) * WAY |
| MindicatorCommon.IsLeaf | tsx_acceleration/mindicator/lockcache.hpp:180-184 | FIRST_LEAF <= index < NUM_NODES holds, in a shaped tree, exactly when the node's children would lie past the end of the array |
| MinTree.MinSeq | tsx_acceleration/mindicator/lockmin.hpp:224-231 | the minimum of the children, computed front to back as depart's loop does, is at most every entry and is one of them |
| MinTree.MinLowered | tsx_acceleration/mindicator/lockmin.hpp:192-200 | lowering entries to at most n, one of them to min(entry, n), lowers the minimum to min(old minimum, n) |
| MinTree.MinRaised | tsx_acceleration/mindicator/lockmin.hpp:234-238 | raising entries never lowers the minimum |
| MinTree.MinSnoc | tsx_acceleration/mindicator/lockmin.hpp:227-231 | one more iteration of depart's loop takes the smaller of the running minimum and the next child |
| MinTree.MinTop | tsx_acceleration/mindicator/lockmin.hpp:109 | the minimum is INT_MAX exactly when every entry is INT_MAX |
| MinTree.AncLe | tsx_acceleration/mindicator/lockmin.hpp:192-200 | in a tree where every internal node holds its children's minimum, no ancestor holds more than its descendant |
| MinTree.Descend | tsx_acceleration/mindicator/lockmin.hpp:224-237 | every node's value is held by some leaf below it |
| MinTree.RootIsLeast | tsx_acceleration/mindicator/lockmin.hpp:136-139 | query's root value is the least leaf value |
| MinTree.TreeUnique | tsx_acceleration/mindicator/lockmin.hpp:183-246 | two trees keeping the invariant that agree on their leaves agree on every node |
| MinTree.AllTop | tsx_acceleration/mindicator/lockmin.hpp:104-111 | the constructor's all-INT_MAX tree keeps the invariant |
| LockMin.Arrived | tsx_acceleration/mindicator/lockmin.hpp:182-210 | after n arrives at node i, i and each of its ancestors hold the smaller of their value and n, and every other node is as it was |
| LockMin.ArriveNoop | tsx_acceleration/mindicator/lockmin.hpp:191-192 | when the node is already at most n, arriving changes nothing, since its ancestors are at most n too |
| LockMin.ArriveKeeps | tsx_acceleration/mindicator/lockmin.hpp:182-210 | arriving at a leaf keeps every internal node at its children's minimum, and changes that leaf alone, to min(leaf, n) |
| LockMin.DepartStep | tsx_acceleration/mindicator/lockmin.hpp:234-241 | once a node is raised to its children's minimum, its parent is in the state depart expects |
| LockMin.DepartNoop | tsx_acceleration/mindicator/lockmin.hpp:234-235 | a node already at its children's minimum ends depart with the invariant restored |
| LockMin.LeafDepartPost | tsx_acceleration/mindicator/lockmin.hpp:212-246 | departing from a leaf keeps the invariant and sets that leaf, and no other, to INT_MAX |
| LockMin.Tree.constructor | tsx_acceleration/mindicator/lockmin.hpp:104-111 | every node is INT_MAX, every leaf reads INT_MAX, and the invariant holds |
| LockMin.Tree.GetNode | tsx_acceleration/mindicator/lockmin.hpp:116-119 | thread index's node is a leaf, the index-th one |
| LockMin.Tree.Arrive | tsx_acceleration/mindicator/lockmin.hpp:122-125 | the invariant holds again, and the thread's leaf becomes min(leaf, n) with every other leaf unchanged |
| LockMin.Tree.ArriveAt | tsx_acceleration/mindicator/lockmin.hpp:182-210 | the node's arrive leaves the tree the Arrived function describes |
| LockMin.Tree.Depart | tsx_acceleration/mindicator/lockmin.hpp:128-131 | the invariant holds again, and the thread's leaf becomes INT_MAX with every other leaf unchanged |
| LockMin.Tree.DepartAt | tsx_acceleration/mindicator/lockmin.hpp:212-246 | the node's depart restores the invariant, sets the node to its children's minimum, and touches no node outside it and its ancestors |
| LockMin.Tree.MinChildren | tsx_acceleration/mindicator/lockmin.hpp:218-232 | mvc is the least value of the node's WAY children |
| LockMin.Tree.Query | tsx_acceleration/mindicator/lockmin.hpp:136-139 | the root value is the least leaf, and it is INT_MAX exactly when every leaf is INT_MAX |
| LockCache.LeafValues | tsx_acceleration/mindicator/lockcache.hpp:73-76 | the values of the threads, in thread order: thread k's is slot 0 of its leaf, which is also that leaf's min |
| LockCache.MinFirst | tsx_acceleration/mindicator/lockcache.hpp:133-135 | a leaf whose spare slots are INT_MAX has slot 0 as its min |
| LockCache.MinRaiseOther | tsx_acceleration/mindicator/lockcache.hpp:261-262 | raising a slot that did not hold the min leaves the min as it was, so depart can stop there |
| LockCache.CacheKids | tsx_acceleration/mindicator/lockcache.hpp:101-102 | with every link up to date, an internal node's cache is exactly its children's mins |
| LockCache.MinsTree | tsx_acceleration/mindicator/lockcache.hpp:101-102 | the nodes' mins form a lockmin.hpp tree, every internal node at its children's minimum, whose leaves are the threads' values |
| LockCache.CacheRoot | tsx_acceleration/mindicator/lockcache.hpp:162-165 | the root's min is the least of the threads' values |
| LockCache.CacheUnique | tsx_acceleration/mindicator/lockcache.hpp:214-280 | two consistent trees holding the same threads' values are the same tree |
| LockCache.Lowered | tsx_acceleration/mindicator/lockcache.hpp:224-237 | node i with n in slot r keeps its other slots and gets min(old min, n) as its min |
| LockCache.ArriveHere | tsx_acceleration/mindicator/lockcache.hpp:224-237 | where arrive does not go up, storing n in the slot and the min is everything arrive does at that node |
| LockCache.ArriveUp | tsx_acceleration/mindicator/lockcache.hpp:224-228 | where arrive goes up, the parent finds what arrive expects, in this node's relative index |
| LockCache.ArriveStepC | tsx_acceleration/mindicator/lockcache.hpp:224-237 | after the parent's arrive, storing n in this node's slot and min leaves what arrive promises at this node |
| LockCache.ArriveLeaf | tsx_acceleration/mindicator/lockcache.hpp:73-76 | arriving at a leaf keeps the invariant and sets that thread's value, and no other, to n |
| LockCache.LinkClosed | tsx_acceleration/mindicator/lockcache.hpp:275 | a child's link holds again once its parent's slot holds the child's min |
| LockCache.DepartStore | tsx_acceleration/mindicator/lockcache.hpp:256-271 | depart's store keeps everything consistent except this node's own link, which still holds when the min did not change |
| LockCache.DepartHere | tsx_acceleration/mindicator/lockcache.hpp:256-276 | where depart does not go up, because the slot did not hold the min or this is the root, the store is everything depart does |
| LockCache.Refreshed | tsx_acceleration/mindicator/lockcache.hpp:264-271 | slot r of the cache becomes n and no other slot changes; the new min is a slot of the cache, no larger than any slot, at most n, and either n or a slot the cache held before |
| LockCache.DepartUp | tsx_acceleration/mindicator/lockcache.hpp:273-275 | where depart goes up, the parent finds what depart expects, with this node's new min in its slot |
| LockCache.DepartChain | tsx_acceleration/mindicator/lockcache.hpp:250-280 | what the parent's depart leaves is what depart promises at this node |
| LockCache.LeafDepartPost | tsx_acceleration/mindicator/lockcache.hpp:81-84 | departing from a leaf keeps the invariant and sets that thread's value, and no other, to INT_MAX |
| LockCache.AllTopCache | tsx_acceleration/mindicator/lockcache.hpp:128-137 | a tree with every slot and every min at INT_MAX keeps the invariant |
| LockCache.Tree.constructor | tsx_acceleration/mindicator/lockcache.hpp:128-137 | every min and every cache slot is INT_MAX, the invariant holds and every thread's value is INT_MAX |
| LockCache.Tree.GetNode | tsx_acceleration/mindicator/lockcache.hpp:142-145 | thread index's node is a leaf, the index-th one |
| LockCache.Tree.Arrive | tsx_acceleration/mindicator/lockcache.hpp:148-151 | the invariant holds again and the thread's value becomes n, every other thread's value unchanged |
| LockCache.Tree.ArriveAt | tsx_acceleration/mindicator/lockcache.hpp:214-247 | node i gets n in slot r and min min(old min, n); no node outside i and its ancestors changes; everything except child r's link is consistent |
| LockCache.Tree.Depart | tsx_acceleration/mindicator/lockcache.hpp:154-157 | the invariant holds again and the thread's value becomes INT_MAX, every other thread's value unchanged |
| LockCache.Tree.DepartAt | tsx_acceleration/mindicator/lockcache.hpp:249-280 | node i gets n in slot r; the invariant holds; no node outside i and its ancestors changes |
| LockCache.Tree.RecomputeMin | tsx_acceleration/mindicator/lockcache.hpp:266-271 | the loop's result is the least of the node's WAY cache slots |
| LockCache.Tree.Query | tsx_acceleration/mindicator/lockcache.hpp:162-165 | the root's min is the least thread value, and it is INT_MAX exactly when every thread has departed |
| Mindicator.WiredParent | tsx_acceleration/mindicator/Mindicator.hpp:80-82 | after the constructor every node but the root points at an internal parent whose first_child .. last_child range contains it |
| Mindicator.WiredChildren | tsx_acceleration/mindicator/Mindicator.hpp:80-82 | every child an internal node points at is inside the array and points back at that node |
| Mindicator.WiredLeaf | tsx_acceleration/mindicator/Mindicator.hpp:119-123 | is_leaf holds exactly for the nodes whose last_child lies past the end of the array |
| Mindicator.Tree.constructor | tsx_acceleration/mindicator/Mindicator.hpp:70-85 | NUM_NODES and FIRST_LEAF are the GeoSums of WAY and DEPTH; every node's word is (STEADY, 0, INT_MAX); its my_parent is get_parent, first_child is children and last_child is children + WAY - 1; the root's parent is NULL |
| Mindicator.Tree.GetNode | tsx_acceleration/mindicator/Mindicator.hpp:88-91 | thread index's node is the index-th one after FIRST_LEAF, and it is a leaf exactly when index is below the number of leaves |
| Mindicator.Tree.IsLeafNode | tsx_acceleration/mindicator/Mindicator.hpp:119-123 | a node is a leaf exactly when its children would lie past the end of the array |
| Mindicator.Tree.Query | tsx_acceleration/mindicator/Mindicator.hpp:113-116 | the root's min, which is INT_MAX on the tree the constructor builds |
| ListMindicator.InsertPos | tsx_acceleration/mindicator/list.cpp:18-23 | where arrive's scan stops: after every value below n and before the first value that is not below n |
| ListMindicator.FirstOr | tsx_acceleration/mindicator/list.hpp:65-74 | the first value after the head: INT_MAX, the tail's value, when nobody has arrived, and otherwise the first arrived value |
| ListMindicator.ArriveValues | tsx_acceleration/mindicator/list.cpp:27-34 | linking n in where the scan stopped keeps the values sorted, followed by the tail's INT_MAX; the first value becomes n exactly when the node went in first |
| ListMindicator.DepartValues | tsx_acceleration/mindicator/list.cpp:50-57 | unlinking a node keeps the values sorted and followed by INT_MAX |
| ListMindicator.ArriveThenDepart | tsx_acceleration/mindicator/list.cpp:13-63 | a depart right after an arrive takes out exactly the value the arrive put in, giving back the old values |
| ListMindicator.ArriveFirst | tsx_acceleration/mindicator/list.cpp:33-34 | after arrive(n) the first value, which min caches, is the smaller of n and the old first value |
| ListMindicator.Splice | tsx_acceleration/mindicator/list.cpp:28-31 | the four link stores leave a well-formed doubly linked list with the node between left and right, its values sorted, and the node first exactly when left is the head |
| ListMindicator.SpliceLinks | tsx_acceleration/mindicator/list.cpp:28-31 | after the four stores the run with the node between left and right is doubly linked and without repeats, its values are the old ones with the node's put there, and the node follows the first node exactly when left is that first node |
| ListMindicator.SpliceStores | tsx_acceleration/mindicator/list.cpp:28-31 | the four stores link left, the node and right in that order between the run before and the run after, and change no node's value |
| ListMindicator.Unlink | tsx_acceleration/mindicator/list.cpp:53-54 | the two link stores leave a well-formed list without the node, whose first value is the first of the remaining values |
| ListMindicator.UnlinkLinks | tsx_acceleration/mindicator/list.cpp:53-54 | the two stores leave the run doubly linked and without repeats with the node left out, its values the old ones minus the node's, and the two ends' outer links unchanged |
| ListMindicator.LNode.constructor | tsx_acceleration/mindicator/list.cpp:10 | a thread's node starts unlinked, with prev and next NULL |
| ListMindicator.Indicator.constructor | tsx_acceleration/mindicator/list.hpp:65-74 | head is linked to the tail, which holds INT_MAX; nobody has arrived; min is INT_MAX |
| ListMindicator.Indicator.GetNode | tsx_acceleration/mindicator/list.hpp:79-82 | the list itself, whatever the index |
| ListMindicator.Indicator.Arrive | tsx_acceleration/mindicator/list.cpp:13-38 | the thread's node is linked in at the sorted position of n, the arrived values are the old ones with n inserted there, and the list invariant holds, with min the least arrived value |
| ListMindicator.Indicator.Scan | tsx_acceleration/mindicator/list.cpp:18-23 | left and right are adjacent, with every arrived value before right below n and right's value, if it is not the tail, at least n |
| ListMindicator.Indicator.LinkIn | tsx_acceleration/mindicator/list.cpp:25-31 | the node is linked in between left and right; the nodes and values gain it at the scan position; min is untouched; the node is first exactly when the scan stopped at the head |
| ListMindicator.Indicator.NoteFirst | tsx_acceleration/mindicator/list.cpp:33-34 | when the new node is first, min becomes n, which restores the invariant |
| ListMindicator.Indicator.SetValue | tsx_acceleration/mindicator/list.cpp:27 | writing n into the thread's node, which is not in the list, keeps the list invariant |
| ListMindicator.Indicator.ArriveIndexed | tsx_acceleration/mindicator/list.hpp:100-103 | all of arrive(n)'s guarantees |
| ListMindicator.Indicator.Depart | tsx_acceleration/mindicator/list.cpp:40-63 | an unlinked node returns with nothing changed; a linked node leaves the list with prev and next NULL and its value removed from the arrived values; the invariant holds either way |
| ListMindicator.Indicator.UnlinkOut | tsx_acceleration/mindicator/list.cpp:50-57 | the node leaves the list with its value, and min again holds the first value |
| ListMindicator.Indicator.DepartLinked | tsx_acceleration/mindicator/list.cpp:48-62 | a linked node leaves the list and its value leaves the arrived values, at the node's position; its prev and next become NULL and the invariant holds |
| ListMindicator.Indicator.Refresh | tsx_acceleration/mindicator/list.cpp:56-57 | min becomes the first value after the head, which restores the invariant |
| ListMindicator.Indicator.Detach | tsx_acceleration/mindicator/list.cpp:62 | the departed node's prev and next become NULL |
| ListMindicator.Indicator.DepartIndexed | tsx_acceleration/mindicator/list.hpp:113-116 | all of depart()'s guarantees |
| ListMindicator.Indicator.Query | tsx_acceleration/mindicator/list.hpp:87-90 | INT_MAX when nobody has arrived, and otherwise the least arrived value |
| ListSeq.InsertAt | tsx_acceleration/mound/list_seq.hpp:67-74 | the sequence with n put at position k: one longer, with the same multiset plus n |
| ListSeq.InsertAtIndex | tsx_acceleration/mound/list_seq.hpp:67-74 | position by position, the values before k stay, n is at k, and the values from k on move up by one |
| ListSeq.DataInsert | tsx_acceleration/mound/list_seq.hpp:67-74 | linking a cell in at position k puts its data at position k of the list's data |
| ListSeq.InsertSorted | tsx_acceleration/mound/list_seq.hpp:60-65 | putting n after the smaller values and before the rest keeps a sorted list sorted |
| ListMindicator.RemoveSorted | tsx_acceleration/mindicator/list.cpp:53-54 | taking one value out of a sorted list leaves it sorted |
| ListSeq.SetNext | tsx_acceleration/mound/list_seq.hpp:71-72 | prev->next = node puts node into the chain right after prev |
| ListSeq.SortedList.constructor | tsx_acceleration/mound/list_seq.hpp:43-47 | the empty list |
| ListSeq.SortedList.Add | tsx_acceleration/mound/list_seq.hpp:53-77 | the list stays sorted and holds the old values plus n |
| ListSeq.SortedList.Link | tsx_acceleration/mound/list_seq.hpp:67-74 | the new cell goes in at the position Find found, so the values are the old ones with n inserted there |
| ListSeq.SortedList.LinkAfter | tsx_acceleration/mound/list_seq.hpp:71-72 | prev->next = node puts the new cell in as the k-th cell, so the values are the old ones with n inserted at k and stay sorted |
| ListSeq.SortedList.LinkFront | tsx_acceleration/mound/list_seq.hpp:73-74 | head = node puts the new cell in front, so the values are n followed by the old ones and stay sorted |
| ListSeq.SortedList.Find | tsx_acceleration/mound/list_seq.hpp:57-65 | curr is the first cell whose data is not below n, or NULL, and prev the cell before it, or NULL |
| ListSeq.SortedList.Remove | tsx_acceleration/mound/list_seq.hpp:79-93 | UINT_MAX on the empty list; otherwise the head's data, which is the least, and the list loses its first value |
| BinaryHeap.Parent | tsx_acceleration/mound/heap_inline.hpp:66-67 | c / 2: every slot but 0 has its parent before it, and is one of that parent's children 2p and 2p + 1 |
| BinaryHeap.Swap | tsx_acceleration/mound/heap_inline.hpp:73-75 | the two slots trade values and every other slot keeps its own |
| BinaryHeap.SwapBag | tsx_acceleration/mound/heap_inline.hpp:73-75 | a swap inside the heap keeps the heap's values |
| BinaryHeap.RootIsMin | tsx_acceleration/mound/heap_inline.hpp:97 | in heap order no slot holds less than the root |
| BinaryHeap.RootIsMinOfBag | tsx_acceleration/mound/heap_inline.hpp:97 | the root of a non-empty heap is one of its values and a smallest one |
| BinaryHeap.UpStart | tsx_acceleration/mound/heap_inline.hpp:61-63 | storing n at slot counter starts the sift-up there, and the values are the old ones plus n |
| BinaryHeap.UpStep | tsx_acceleration/mound/heap_inline.hpp:69-77 | swapping a slot smaller than its parent with that parent moves the sift-up one level up |
| BinaryHeap.UpDone | tsx_acceleration/mound/heap_inline.hpp:65-70 | a sift-up that reaches the root, or a parent no larger, has restored heap order |
| BinaryHeap.DownStart | tsx_acceleration/mound/heap_inline.hpp:97-103 | moving the last value to the root of the shrunk heap starts the sift-down at the root, with the root's value removed |
| BinaryHeap.ChildrenOf | tsx_acceleration/mound/heap_inline.hpp:67 | slot k has parent p exactly when k is 2p or 2p + 1 |
| BinaryHeap.DownStep | tsx_acceleration/mound/heap_inline.hpp:128-137 | swapping a slot with its smaller, strictly smaller child moves the sift-down to that child and keeps the values |
| BinaryHeap.DownDone | tsx_acceleration/mound/heap_inline.hpp:112-130 | a sift-down that stops at a slot no larger than its children has restored heap order |
| BinaryHeap.DownRound | tsx_acceleration/mound/heap_inline.hpp:107-138 | one round of remove's loop either ends with heap order or moves on to the smaller child, and a swap with the only child ends it |
| HeapInline.Heap.constructor | tsx_acceleration/mound/heap_inline.hpp:42-48 | an array of HEAP_MAX_SIZE slots and counter 1: the empty heap |
| HeapInline.Heap.Add | tsx_acceleration/mound/heap_inline.hpp:56-84 | heap order holds, counter grows by one, and the values are the old ones plus n |
| HeapInline.Heap.Insert | tsx_acceleration/mound/heap_inline.hpp:60-78 | storing n at slot top and sifting it up gives a heap on one more slot holding the old values plus n |
| HeapInline.Heap.Remove | tsx_acceleration/mound/heap_inline.hpp:86-142 | UINT_MAX and no change on the empty heap; otherwise a smallest value, which leaves the heap, and counter shrinks by one |
| HeapInline.Heap.Extract | tsx_acceleration/mound/heap_inline.hpp:96-138 | the root, a smallest value, leaves, and heap order holds on one slot fewer |
| HeapInline.Heap.SiftUp | tsx_acceleration/mound/heap_inline.hpp:65-78 | add's loop restores heap order and keeps the values |
| HeapInline.Heap.SiftDown | tsx_acceleration/mound/heap_inline.hpp:107-138 | remove's loop restores heap order and keeps the values |
| HeapInline.Heap.SiftDownRound | tsx_acceleration/mound/heap_inline.hpp:108-137 | one iteration keeps the values and either ends with heap order or moves on to a later slot w, with heap order holding everywhere except between w and its children |
| HeapInline.Heap.Drain | tsx_acceleration/mound/moundtest.cpp:210-219 | count removes in a row: while values remain each answer is a smallest remaining value, which leaves; past the last value each answer is UINT_MAX |
| HeapInline.DrainStep | tsx_acceleration/mound/moundtest.cpp:210-212 | one more remove, answering as Remove promises, extends the answers Drain has collected |
| HeapSeq.Keys | tsx_acceleration/mound/heap_seq.hpp:73 | the priorities of the slots: each cell's data |
| HeapSeq.KeysSwap | tsx_acceleration/mound/heap_seq.hpp:77-79 | swapping two pointers swaps their priorities |
| HeapSeq.KeysUpdate | tsx_acceleration/mound/heap_seq.hpp:65 | storing a cell in a slot stores its priority there |
| HeapSeq.Heap.constructor | tsx_acceleration/mound/heap_seq.hpp:43-49 | an array of HEAP_MAX_SIZE pointers and counter 1: the empty heap |
| HeapSeq.Heap.Add | tsx_acceleration/mound/heap_seq.hpp:57-88 | heap order on the cells' data holds, counter grows by one, and the values are the old ones plus n |
| HeapSeq.Heap.Insert | tsx_acceleration/mound/heap_seq.hpp:64-82 | the new cell goes in slot top and sifts up: a heap on one more slot holding the old values plus n |
| HeapSeq.Heap.Remove | tsx_acceleration/mound/heap_seq.hpp:90-147 | UINT_MAX and no change on the empty heap; otherwise a smallest value, which leaves the heap, and counter shrinks by one |
| HeapSeq.Heap.Extract | tsx_acceleration/mound/heap_seq.hpp:100-143 | the root's data, a smallest value, leaves, and heap order holds on one slot fewer |
| HeapSeq.Heap.SiftUp | tsx_acceleration/mound/heap_seq.hpp:69-82 | add's loop restores heap order and keeps the values |
| HeapSeq.Heap.SiftDown | tsx_acceleration/mound/heap_seq.hpp:112-143 | remove's loop restores heap order and keeps the values |
| HeapSeq.Heap.SiftDownRound | tsx_acceleration/mound/heap_seq.hpp:113-142 | one iteration keeps the values and either ends with heap order or moves on to a later slot w, with heap order holding everywhere except between w and its children |
| MoundCommon.SortedHeadIsMin | tsx_acceleration/mound/list_seq.hpp:87 | the first value of a sorted non-empty list is a smallest one |
| MoundCommon.AnsweredSnoc | tsx_acceleration/mound/moundtest.cpp:210-212 | one more remove answering a smallest remaining value extends a run of answers |
| MoundCommon.AnsweredBag | tsx_acceleration/mound/moundtest.cpp:210-219 | the answers and what is left together are exactly what the queue held |
| MoundCommon.AnsweredSorted | tsx_acceleration/mound/moundtest.cpp:210-219 | successive answers come in non-decreasing order, and none is larger than what is left |
| MoundCommon.AnsweredUnique | tsx_acceleration/mound/moundtest.cpp:197-221 | two queues holding the same values give the same answers to the same number of removes, and are left holding the same values |
| Powers.Pow2 | tsx_acceleration/mound/mound_RTM_cgl.hpp:493 | 1 << k is positive |
| Powers.Pow2Monotone | tsx_acceleration/mound/mound_RTM_cgl.hpp:493 | a deeper level has more nodes |
| MoundTree.ShrTwice | tsx_acceleration/mound/mound_RTM_cgl.hpp:257 | two right shifts are one shift by their sum |
| MoundTree.ShrBound | tsx_acceleration/mound/mound_RTM_cgl.hpp:257 | an index of level a + b shifted right by b is an index of level a |
| MoundTree.Ancestor | tsx_acceleration/mound/mound_RTM_cgl.hpp:255-266 | shifting the index of an ancestor of a leaf gives the leaf's ancestor on the higher level |
| MoundTree.PathAncestor | tsx_acceleration/mound/mound_RTM_cgl.hpp:255-266 | the binary search's candidate nodes stay on the path from the leaf to the root |
| MoundTree.PathParent | tsx_acceleration/mound/mound_RTM_cgl.hpp:255 | when the search stops at adjacent levels, its two nodes are parent and child |
| MoundTree.NodeOps | tsx_acceleration/mound/mound_RTM_cgl.hpp:59-81 | peek reads what push put in front; pop undoes push; on an empty list peek and pop answer UINT_MAX and pop changes nothing; push adds exactly its value |
| MoundTree.Push | tsx_acceleration/mound/mound_RTM_cgl.hpp:63-69 | push(n) puts n where peek reads it, and a pop takes it off again, giving back the old list |
| MoundTree.Pop | tsx_acceleration/mound/mound_RTM_cgl.hpp:72-81 | pop answers what peek shows and leaves one value fewer, or no change on an empty list |
| MoundTree.Cat | tsx_acceleration/mound/mound_RTM_cgl.hpp:92 | the levels laid out in heap order: 2^depth slots with the unused slot 0 empty |
| MoundTree.CatAt | tsx_acceleration/mound/mound_RTM_cgl.hpp:417-422 | node (l, i) is heap slot 2^l + i |
| MoundTree.CatSet | tsx_acceleration/mound/mound_RTM_cgl.hpp:472-474 | writing node (l, i) writes heap slot 2^l + i and no other |
| MoundTree.Heads | tsx_acceleration/mound/mound_RTM_cgl.hpp:60 | each slot's head as peek reads it |
| MoundTree.BagUpdate | tsx_acceleration/mound/mound_RTM_cgl.hpp:63-81 | replacing a node's list trades that list's values for the new list's |
| MoundTree.BagMember | tsx_acceleration/mound/mound_RTM_cgl.hpp:52-57 | every value the mound holds sits in some node's list |
| MoundTree.BagHas | tsx_acceleration/mound/mound_RTM_cgl.hpp:52-57 | every value in a node's list is held by the mound |
| MoundTree.BagGrow | tsx_acceleration/mound/mound_RTM_cgl.hpp:486-503 | a level of empty nodes adds no value |
| MoundTree.SwapKeeps | tsx_acceleration/mound/mound_RTM_cgl.hpp:472-474 | swapping two nodes' lists keeps every list sorted, keeps the values and swaps the heads |
| MoundTree.ChildSlots | tsx_acceleration/mound/mound_RTM_cgl.hpp:453-455 | node (l, i) above the bottom has children (l+1, 2i) and (l+1, 2i+1), heap slots 2p and 2p + 1 |
| MoundTree.NoChildSlots | tsx_acceleration/mound/mound_RTM_cgl.hpp:444-445 | a node on the bottom level has no children |
| MoundTree.ParentSlot | tsx_acceleration/mound/mound_RTM_cgl.hpp:257 | the parent of node (l, i) is node (l-1, i/2) |
| MoundTree.PushBelow | tsx_acceleration/mound/mound_RTM_cgl.hpp:255-267 | pushing n on a node whose head is at least n and whose parent's head is below n keeps the lists sorted and the heads ordered, and adds n |
| MoundTree.Winner | tsx_acceleration/mound/mound_RTM_cgl.hpp:456-465 | the child restore_invariants picks has the smaller head, the left one on a tie |
| MoundTree.DownTree | tsx_acceleration/mound/mound_RTM_cgl.hpp:468-478 | a round of restore_invariants either finds the heads ordered or swaps and moves the exemption to the picked child |
| MoundTree.ExemptStep | tsx_acceleration/mound/mound_RTM_cgl.hpp:441-479 | each round keeps the lists sorted and the values, and either ends ordered or goes down one level |
| MoundTree.PullUp | tsx_acceleration/mound/mound_RTM_cgl.hpp:472-474 | moving the picked child's head to the parent's list keeps the lists sorted and the values, and exempts only the child |
| MoundTree.PullHeads | tsx_acceleration/mound/mound_RTM_cgl.hpp:472-474 | after PullUp's move, only the picked child is exempt from the head order |
| MoundTree.PullSorted | tsx_acceleration/mound/mound_RTM_cgl.hpp:472-474 | after PullUp's move every list is sorted |
| MoundTree.PullBag | tsx_acceleration/mound/mound_RTM_cgl.hpp:472-474 | PullUp's move keeps the values held |
| MoundTree.RootIsLeast | tsx_acceleration/mound/mound_RTM_cgl.hpp:286 | the root's head is no larger than any value the mound holds |
| MoundTree.PopRoot | tsx_acceleration/mound/mound_RTM_cgl.hpp:286-287 | popping the root answers a smallest value, or UINT_MAX when the mound holds nothing else, and leaves what restore_invariants(0, 0) expects |
| MoundTree.PushAt | tsx_acceleration/mound/mound_RTM_cgl.hpp:251-267 | pushing n where it is no larger than the head and no smaller than the parent's head keeps the mound ordered and sorted, and adds n |
| MoundTree.EmptyLevel | tsx_acceleration/mound/mound_RTM_cgl.hpp:496-498 | grow() allocates a level of exactly k nodes |
| MoundTree.GrowKeeps | tsx_acceleration/mound/mound_RTM_cgl.hpp:486-503 | a new bottom level of empty nodes keeps the order, the sorted lists and the values |
| MoundCgl.NewLevel | tsx_acceleration/mound/mound_RTM_cgl.hpp:496-498 | a fresh level of size nodes, each with an empty list |
| MoundCgl.Mound.LevelSize | tsx_acceleration/mound/mound_RTM_cgl.hpp:493-502 | level l has 2^l nodes, and different levels are different arrays |
| MoundCgl.Mound.FlatAt | tsx_acceleration/mound/mound_RTM_cgl.hpp:417-422 | node (l, i) is slot 2^l + i of the heap view |
| MoundCgl.Mound.constructor | tsx_acceleration/mound/mound_RTM_cgl.hpp:111-124 | level 0 has one empty node, the bottom is 0 and nothing is held |
| MoundCgl.Mound.SetNode | tsx_acceleration/mound/mound_RTM_cgl.hpp:63-81 | storing a list in node (l, i) changes slot 2^l + i of the view and nothing else |
| MoundCgl.Mound.SwapNodes | tsx_acceleration/mound/mound_RTM_cgl.hpp:472-474 | exchanging two nodes' lists swaps their slots in the view |
| MoundCgl.Mound.Grow | tsx_acceleration/mound/mound_RTM_cgl.hpp:486-503 | the bottom goes one level down, to a new level of 2^bottom empty nodes; the old levels and the values are kept |
| MoundCgl.Mound.Probe | tsx_acceleration/mound/mound_RTM_cgl.hpp:212-227 | found exactly when one of the 8*bottom probes hits a bottom node whose head is at least n, and leaf is such a node |
| MoundCgl.Mound.Search | tsx_acceleration/mound/mound_RTM_cgl.hpp:248-266 | the binary search stops at a node on the leaf's path whose head is at least n and whose parent's head is below n |
| MoundCgl.Mound.PeekNode | tsx_acceleration/mound/mound_RTM_cgl.hpp:60 | the head of node (l, i), UINT_MAX for an empty list |
| MoundCgl.Mound.Add | tsx_acceleration/mound/mound_RTM_cgl.hpp:202-274 | the mound stays ordered and holds the old values plus n; it grows a level exactly when no probe hits; n goes in front of the root's list when it is no larger than the root's head |
| MoundCgl.Mound.Place | tsx_acceleration/mound/mound_RTM_cgl.hpp:248-268 | pushing n at the root, or on the node the search finds, keeps the mound ordered and adds n |
| MoundCgl.Mound.Remove | tsx_acceleration/mound/mound_RTM_cgl.hpp:289-301 | an empty root answers UINT_MAX and changes nothing, and then every value held is UINT_MAX; otherwise the answer is the root's head, a smallest value held, which leaves the mound |
| MoundCgl.Mound.RestoreInvariants | tsx_acceleration/mound/mound_RTM_cgl.hpp:437-480 | the loop restores the head order from the exempt node down, keeping the values and the levels |
| MoundCgl.Mound.RestoreRound | tsx_acceleration/mound/mound_RTM_cgl.hpp:441-479 | one round keeps the levels: it ends with the head order restored and the values kept, or swaps and moves the exempt node to the picked child on the next level |
| MoundCgl.Mound.DownOne | tsx_acceleration/mound/mound_RTM_cgl.hpp:450-478 | one round: done exactly when the picked child's head is not below this node's head; otherwise the two lists are swapped |
| MoundCgl.Mound.GetListSize | tsx_acceleration/mound/mound_RTM_cgl.hpp:386-396 | the number of cells in the node's list |
| MoundCgl.Mound.GetListTotal | tsx_acceleration/mound/mound_RTM_cgl.hpp:374-384 | the sum of the values in the node's list |
| MoundFc.NodesPow2 | tsx_acceleration/mound/mound_fc.hpp:108 | the 1048576-node array is 2^20 nodes |
| Powers.Pow2Le | tsx_acceleration/mound/mound_fc.hpp:139 | 2^a <= 2^b when a <= b |
| MoundFc.BitLength | tsx_acceleration/mound/mound_fc.hpp:132 | 32 - clz(x) is 0 for 0, and otherwise the k >= 1 with x in [2^(k-1), 2^k) |
| MoundFc.BitLengthOrder | tsx_acceleration/mound/mound_fc.hpp:194 | a node on a higher level than another has a smaller index |
| MoundFc.ShrBits | tsx_acceleration/mound/mound_fc.hpp:139 | shifting right by j drops j significant bits and stays a node index no larger than x |
| MoundFc.ChildBits | tsx_acceleration/mound/mound_fc.hpp:203-204 | children 2i and 2i+1 are one level below i |
| MoundFc.ChildrenInRange | tsx_acceleration/mound/mound_fc.hpp:194-206 | a node above the level of counter has both children inside the array |
| MoundFc.ChildrenBeyond | tsx_acceleration/mound/mound_fc.hpp:194-195 | the children of a node on counter's level lie right of counter |
| MoundFc.NodeStored | tsx_acceleration/mound/mound_fc.hpp:52-82 | on a node whose list ends in the UINT_MAX sentinel, peek, push and pop act as the list operations on the values held, keep the sentinel, and pop undoes push |
| MoundFc.Node.Push | tsx_acceleration/mound/mound_fc.hpp:56-66 | push(n) makes n the value peek reads, and a pop takes it off again, giving back the old node |
| MoundFc.Node.Pop | tsx_acceleration/mound/mound_fc.hpp:69-82 | pop answers what peek shows and drops one cell, or none when there is none; a node whose list ends in the UINT_MAX sentinel still does |
| MoundFc.View | tsx_acceleration/mound/mound_fc.hpp:94-95 | one list of values per node of the array, node 0 empty |
| MoundFc.ViewUpdate | tsx_acceleration/mound/mound_fc.hpp:134 | writing node i changes the values of node i only |
| MoundFc.ViewAt | tsx_acceleration/mound/mound_fc.hpp:53 | node i holds the values of its full list minus the sentinel, headed by its inline value |
| MoundFc.InvFrom | tsx_acceleration/mound/mound_fc.hpp:88-91 | sorted lists whose heads are heap ordered make the mound invariant |
| MoundFc.ExemptedFrom | tsx_acceleration/mound/mound_fc.hpp:182-188 | heads ordered except below node p make restore_invariants' precondition |
| MoundFc.HeadAt | tsx_acceleration/mound/mound_fc.hpp:53 | the head the order reads at node i is its inline value |
| MoundFc.CellsUpdate | tsx_acceleration/mound/mound_fc.hpp:56-66 | writing a node at or left of counter keeps the sentinels and the fresh nodes to the right |
| MoundFc.EmptyMound | tsx_acceleration/mound/mound_fc.hpp:105-113 | the array the constructor builds is a valid mound with no values |
| MoundFc.PushKeeps | tsx_acceleration/mound/mound_fc.hpp:133-149 | pushing n on a node whose head is at least n and whose parent's is at most n keeps the mound valid and adds n in front of that node's values |
| MoundFc.PopKeeps | tsx_acceleration/mound/mound_fc.hpp:172-173 | popping the root exempts only the root; an empty root answers UINT_MAX with every value held UINT_MAX, otherwise the answer is a smallest value and leaves |
| MoundFc.StopKeeps | tsx_acceleration/mound/mound_fc.hpp:194-195 | stopping on counter's level restores the order, the nodes below being fresh |
| MoundFc.Pick | tsx_acceleration/mound/mound_fc.hpp:209-214 | the picked child is 2p or 2p+1 and has the smaller head, the left one on a tie |
| MoundFc.PullKeeps | tsx_acceleration/mound/mound_fc.hpp:200-245 | one round: if the picked head is not smaller the order is back; otherwise the pull keeps the values and exempts only the picked child |
| MoundFc.PullStop | tsx_acceleration/mound/mound_fc.hpp:217-218 | a head no larger than both children's ends the repair with the order restored |
| MoundFc.PullMove | tsx_acceleration/mound/mound_fc.hpp:225-245 | moving the picked child's head up keeps the values and exempts only that child |
| MoundFc.Mound.constructor | tsx_acceleration/mound/mound_fc.hpp:105-113 | a valid mound holding nothing, counter 1 |
| MoundFc.Mound.Add | tsx_acceleration/mound/mound_fc.hpp:121-167 | the mound stays valid and holds the old values plus n; counter moves one step exactly when its head is below n; n goes in front of the root's values when no larger than the root's head |
| MoundFc.Mound.Advance | tsx_acceleration/mound/mound_fc.hpp:123-127 | counter stops at the first node from it whose head is at least n, at most one step on |
| MoundFc.Mound.Place | tsx_acceleration/mound/mound_fc.hpp:129-150 | pushing n at the root or at the searched ancestor keeps the mound valid and adds n |
| MoundFc.Mound.Search | tsx_acceleration/mound/mound_fc.hpp:137-148 | the search ends at an ancestor of counter whose head is at least n and whose parent's head is below n |
| MoundFc.Mound.Remove | tsx_acceleration/mound/mound_fc.hpp:170-180 | an empty mound answers UINT_MAX and keeps its values, all UINT_MAX; otherwise the answer is the root's head, a smallest value held, which leaves |
| MoundFc.Mound.RestoreInvariants | tsx_acceleration/mound/mound_fc.hpp:189-247 | from a mound exempted below idx, the loop restores a valid mound with the same values |
| MoundFc.Mound.PullRound | tsx_acceleration/mound/mound_fc.hpp:200-245 | done exactly when the picked child's head is not below idx's, with nothing changed; otherwise the nodes become the pulled array |
| MoundFc.AncestorUp | tsx_acceleration/mound/mound_fc.hpp:138-139 | midx = cidx >> (clvl - mlvl) is counter's ancestor on level mlvl |
| MoundFc.SearchEnd | tsx_acceleration/mound/mound_fc.hpp:137 | when the levels are adjacent the two nodes are parent and child |
| HuntHeap.HighBit | tsx_acceleration/mound/heap_hunt.hpp:102-118 | highbit never exceeds the counter it belongs to |
| HuntHeap.Rev | tsx_acceleration/mound/heap_hunt.hpp:102-135 | the low k bits of the counter read backwards fit in k bits |
| HuntHeap.Reversed | tsx_acceleration/mound/heap_hunt.hpp:102-135 | the slot that counter n >= 1 names lies on n's level, in [highbit, 2*highbit) |
| HuntHeap.RInc | tsx_acceleration/mound/heap_hunt.hpp:108-114 | the increment's toggle loop on k bits below highbit stays within k bits, and it carries out to 0 exactly when all k bits were set |
| HuntHeap.RDec | tsx_acceleration/mound/heap_hunt.hpp:123-129 | the decrement's toggle loop on k bits below highbit stays within k bits, and it borrows out to all ones exactly when all k bits were clear |
| HuntHeap.AndPow | tsx_acceleration/mound/heap_hunt.hpp:111 | reverse & bit, for bit = 1 << j, is nonzero exactly when bit j of reverse is set |
| HuntHeap.XorPow | tsx_acceleration/mound/heap_hunt.hpp:110 | reverse ^= bit clears bit j when set and sets it otherwise |
| HuntHeap.RevInjective | tsx_acceleration/mound/heap_hunt.hpp:102-118 | different low bits of two counters give different reversed slots |
| HuntHeap.RevSucc | tsx_acceleration/mound/heap_hunt.hpp:108-114 | adding one to the counter's low bits is the top-down carrying toggle loop on their reversal |
| HuntHeap.RevPred | tsx_acceleration/mound/heap_hunt.hpp:123-129 | taking one from the counter's low bits is the top-down borrowing toggle loop on their reversal |
| HuntHeap.LevelOf | tsx_acceleration/mound/heap_hunt.hpp:102-118 | a counter in [2^L, 2^(L+1)) has level L and highbit 2^L |
| HuntHeap.LevelBounds | tsx_acceleration/mound/heap_hunt.hpp:102-118 | every counter of at least 1 lies in [highbit, 2*highbit) |
| HuntHeap.BitFlip | tsx_acceleration/mound/heap_hunt.hpp:110-111 | one toggle of bit k-1 flips it, and the following test sees the new bit |
| HuntHeap.FlipBit | tsx_acceleration/mound/heap_hunt.hpp:110-111 | one round of either loop: reverse gains the bit when it was clear and loses it when set, and the test reports which |
| HuntHeap.StateAt | tsx_acceleration/mound/heap_hunt.hpp:102-135 | with counter at least 1, highbit is 2^level and both counter and reverse lie in [highbit, 2*highbit) |
| HuntHeap.StateBits | tsx_acceleration/mound/heap_hunt.hpp:102-135 | with counter at least 1, reverse is highbit plus the counter's bits below highbit read backwards |
| HuntHeap.StateOf | tsx_acceleration/mound/heap_hunt.hpp:102-135 | a counter in [h, 2h) for h = 2^L, with reverse h plus its bits below h read backwards, is the state of that counter |
| HuntHeap.IncWithin | tsx_acceleration/mound/heap_hunt.hpp:108-114 | an increment whose loop breaks at bit k-1 leaves the state of counter + 1 on the same level |
| HuntHeap.IncCarry | tsx_acceleration/mound/heap_hunt.hpp:115-116 | an increment whose loop clears every bit leaves reverse = highbit <<= 1, the state of counter + 1 |
| HuntHeap.DecWithin | tsx_acceleration/mound/heap_hunt.hpp:123-129 | a decrement whose loop breaks at bit k-1 leaves the state of counter - 1 on the same level |
| HuntHeap.DecBorrow | tsx_acceleration/mound/heap_hunt.hpp:130-133 | a decrement whose loop sets every bit leaves reverse = counter and highbit >>= 1, the state of counter - 1 |
| HuntHeap.LevelStart | tsx_acceleration/mound/heap_hunt.hpp:115-116 | counter 2^L names slot 2^L and has highbit 2^L |
| HuntHeap.LevelEnd | tsx_acceleration/mound/heap_hunt.hpp:130-133 | counter 2^L - 1 names slot 2^L - 1 and has highbit 2^(L-1) |
| HuntHeap.SlotRange | tsx_acceleration/mound/heap_hunt.hpp:231-237 | counter 1 names slot 1, and no other counter does |
| HuntHeap.LevelBelow | tsx_acceleration/mound/heap_hunt.hpp:165-166 | a counter on a lower level names a smaller slot than one on a higher level |
| HuntHeap.SameLevel | tsx_acceleration/mound/heap_hunt.hpp:165-166 | two counters that name the same slot are on the same level, with the same highbit |
| HuntHeap.SlotInjective | tsx_acceleration/mound/heap_hunt.hpp:165-166 | different counters name different slots, so add never hands out a slot twice |
| HuntHeap.SwapItems | tsx_acceleration/mound/heap_hunt.hpp:138-147 | the swapped slot sequence has the same length |
| HuntHeap.SwapItemsSpec | tsx_acceleration/mound/heap_hunt.hpp:138-147 | the two slots trade tag and priority, every lock and every other slot stay, and a second swap undoes the first |
| HuntHeap.Heap.constructor | tsx_acceleration/mound/heap_hunt.hpp:80-94 | counter, reverse and highbit are 1, the counter invariant holds, and all HEAP_MAX_SIZE + 1 slots are zeroed |
| HuntHeap.Heap.Increment | tsx_acceleration/mound/heap_hunt.hpp:102-118 | counter goes up by one, reverse and highbit become that counter's slot and level, and the answer is the new reverse |
| HuntHeap.Heap.Decrement | tsx_acceleration/mound/heap_hunt.hpp:120-135 | counter goes down by one, and reverse and highbit become that counter's slot and level, so the decrement undoes an increment |
| HuntHeap.Heap.IsEmpty | tsx_acceleration/mound/heap_hunt.hpp:231 | reverse == 1 exactly when counter is 1, the empty heap |
| HuntHeap.Heap.SwapSlots | tsx_acceleration/mound/heap_hunt.hpp:138-147 | the slot array becomes SwapItems of the old one |
| HuntHeap.Swap | tsx_acceleration/mound/heap_hunt.hpp:149-155 | the two values trade places |
| Buckets.ArrayContains | hash/AdaptiveArrayHashSetOpt.java:410-417 | true exactly when the key is in the bucket |
| Buckets.Without | hash/AdaptiveArrayHashSetOpt.java:434-440 | the copy loop keeps exactly the keys other than the removed one, and is no longer than the bucket |
| Buckets.Split | hash/AdaptiveArrayHashSetOpt.java:384-397 | exactly the bucket's keys with key % size == remainder, and no more of them than the bucket has |
| Buckets.InsertSpec | hash/AdaptiveArrayHashSetOpt.java:419-428 | arrayInsert returns the same bucket exactly when the key is present, else the bucket with the key appended; it holds the old keys and the key, and stays duplicate-free |
| Buckets.WithoutLength | hash/AdaptiveArrayHashSetOpt.java:430-441 | on a duplicate-free bucket, removing drops exactly one key when present and none otherwise, and stays duplicate-free |
| Buckets.RemoveSpec | hash/AdaptiveArrayHashSetOpt.java:430-441 | arrayRemove returns the same bucket exactly when the key is absent, else a bucket one shorter holding every other key |
| Buckets.WithoutAppended | hash/AdaptiveArrayHashSetOpt.java:434-440 | filtering out a key just appended gives the old bucket back |
| Buckets.WithoutIdentity | hash/AdaptiveArrayHashSetOpt.java:432-433 | filtering out an absent key changes nothing |
| Buckets.InsertRemoveRoundTrip | hash/AdaptiveArrayHashSetOpt.java:419-441 | inserting an absent key and removing it again gives the same bucket |
| Buckets.SplitAppend | hash/AdaptiveArrayHashSetOpt.java:384-397 | split of two buckets laid end to end is the concatenation of their splits |
| Buckets.SplitAll | hash/AdaptiveArrayHashSetOpt.java:384-397 | a bucket all of whose keys have the remainder is split into itself |
| Buckets.SplitNoDup | hash/AdaptiveArrayHashSetOpt.java:384-397 | split of a duplicate-free bucket is duplicate-free |
| Buckets.AppendNoDup | hash/AdaptiveArrayHashSetOpt.java:423-426 | appending an absent key keeps a bucket duplicate-free |
| Buckets.ModDouble | hash/AdaptiveArrayHashSetOpt.java:292-294 | key % 2m is key % m or key % m + m, and reduces to key % m |
| Buckets.SplitHalves | hash/AdaptiveArrayHashSetOpt.java:292-294 | when growing, the splits of one bucket into slots j and j + m together hold exactly its keys |
| Buckets.Migrated | hash/AdaptiveArrayHashSetOpt.java:286-302 | the generation helpResize fills slot by slot: size slots, each the migrated slot |
| Buckets.GrownKeys | hash/AdaptiveArrayHashSetOpt.java:292-294 | when growing, new slots j and j + m of a range hold the keys of old slot j of that range |
| Buckets.ShrunkKeys | hash/AdaptiveArrayHashSetOpt.java:296-299 | when shrinking, new slot i holds the keys of old slots i and i + size |
| Buckets.MigrationPreservesKeys | hash/AdaptiveArrayHashSetOpt.java:286-302 | a fully migrated generation is well placed and holds exactly the keys of the old one, as a multiset |
| Buckets.MigratedKeys | hash/AdaptiveArrayHashSetOpt.java:286-302 | migration keeps the multiset of keys |
| Buckets.GrownAllKeys | hash/AdaptiveArrayHashSetOpt.java:292-294 | growing keeps the multiset of keys |
| Buckets.GrownHalves | hash/AdaptiveArrayHashSetOpt.java:292-294 | growing puts the keys of old slot j exactly into new slots j and j + m |
| Buckets.ShrunkAllKeys | hash/AdaptiveArrayHashSetOpt.java:296-299 | shrinking keeps the multiset of keys |
| Buckets.ShrunkSlot | hash/AdaptiveArrayHashSetOpt.java:296-299 | when shrinking, new slot i is the merge of old slots i and i + size |
| Buckets.GrownSlot | hash/AdaptiveArrayHashSetOpt.java:292-294 | when growing, new slot j + q*m is split from old slot j |
| Buckets.MigratedWellPlaced | hash/AdaptiveArrayHashSetOpt.java:286-302 | after migration every key sits in its home slot key % size |
| Buckets.MigratedSlotHome | hash/AdaptiveArrayHashSetOpt.java:286-302 | each migrated slot holds only keys whose home it is |
| Buckets.MigratedSlotNoDup | hash/AdaptiveArrayHashSetOpt.java:286-302 | each migrated slot is duplicate-free when the old buckets are |
| Buckets.MemberHome | hash/AdaptiveArrayHashSetOpt.java:141-152 | in a well-placed generation a key is held exactly when its home bucket key % size holds it |
| Buckets.UpdateHome | hash/AdaptiveArrayHashSetOpt.java:359-369 | replacing the home bucket of a key with one that differs only in that key keeps every key at home |
| Buckets.InsertKeySet | hash/AdaptiveArrayHashSetOpt.java:363-364 | arrayInsert on the home bucket adds exactly the key to the set |
| Buckets.RemoveKeySet | hash/AdaptiveArrayHashSetOpt.java:365 | arrayRemove on the home bucket removes exactly the key from the set |
| Buckets.MigrationKeySet | hash/AdaptiveArrayHashSetOpt.java:286-302 | migration keeps the set of keys and the placement |
| Buckets.MigrationNoDup | hash/AdaptiveArrayHashSetOpt.java:286-302 | migration keeps every bucket duplicate-free |
| Buckets.MigratedHome | hash/AdaptiveArrayHashSetOpt.java:144-151 | an empty head slot and the old generation's home slot agree on every key |
| Buckets.ResolvedSlot | hash/AdaptiveArrayHashSetOpt.java:359-369 | applying insert or remove to the home bucket keeps the generation well placed and the bucket duplicate-free |
| Buckets.MigrationGood | hash/AdaptiveArrayHashSetOpt.java:279 | the new generation, once migrated, is good for its size and holds the same keys |
| Buckets.Pow2Sixteen | hash/AdaptiveArrayHashSetOpt.java:93 | MAX_BUCKET_NUM = 1 << 16 is 65536 |
| Buckets.Pow2Bounds | hash/AdaptiveArrayHashSetOpt.java:262-266 | for levels 0..16, the size reaches MAX_BUCKET_NUM only at level 16 and MIN_BUCKET_NUM only at level 0 |
| BucketTables.InitialTables | tsx_acceleration/chash/hash.hpp:78-83 | the constructor's one slot with an empty bucket and no previous generation meets the invariant with no keys |
| BucketTables.TablesInstall | tsx_acceleration/chash/hash.hpp:179-181 | installing a bucket in a head slot keeps the invariant and sets that slot's keys |
| BucketTables.TablesFreeze | tsx_acceleration/chash/hash.hpp:275-284 | marking a slot of the previous generation keeps the invariant |
| BucketTables.TablesDropOld | tsx_acceleration/chash/hash.hpp:203-205 | with every head slot filled, dropping the previous generation keeps the invariant |
| BucketTables.TablesSwitch | tsx_acceleration/chash/hash.hpp:208-213 | installing an empty generation of double or half the size keeps the invariant and the keys |
| LengthPrefixed.Elems | tsx_acceleration/chash/hash.hpp:286-293 | the keys arr[1..arr[0]], arr[0] of them |
| LengthPrefixed.AllocLength | tsx_acceleration/chash/hash_htm.hpp:65-71 | alloc_fset allocates max(MIN_ALLOC_LEN + 1, len + 1) ints, which is len + 1 in hash.hpp |
| LengthPrefixed.AllocFset | tsx_acceleration/chash/hash.hpp:52-57 | a fresh array of AllocLength ints whose length word is len |
| LengthPrefixed.ArrayContains | tsx_acceleration/chash/hash.hpp:286-293 | true exactly when the key is among arr[1..arr[0]] |
| LengthPrefixed.ArrayInsert | tsx_acceleration/chash/hash.hpp:295-304 | the same bucket exactly when the key is present; otherwise a fresh bucket one key longer whose keys are arrayInsert's |
| LengthPrefixed.ArrayRemove | tsx_acceleration/chash/hash.hpp:306-317 | the same bucket exactly when the key is absent; otherwise a fresh bucket one key shorter whose keys are arrayRemove's |
| LengthPrefixed.CopyWithout | tsx_acceleration/chash/hash.hpp:311-315 | the copy loop writes every other key, in order, after the length word |
| LengthPrefixed.WithoutStep | tsx_acceleration/chash/hash.hpp:311-315 | each step of the copy loop stays inside the new bucket |
| LengthPrefixed.PrefixWithoutLength | tsx_acceleration/chash/hash.hpp:311-315 | the copied prefix never has more keys than the whole result |
| LengthPrefixed.Split | tsx_acceleration/chash/hash.hpp:247-261 | a fresh bucket whose keys are those with key % size == remainder, in order |
| LengthPrefixed.CopySplit | tsx_acceleration/chash/hash.hpp:255-259 | the second loop of split writes the counted keys in order |
| LengthPrefixed.PrefixSplitLength | tsx_acceleration/chash/hash.hpp:249-252 | the keys split from a prefix never outnumber the count of the first loop |
| LengthPrefixed.Merge | tsx_acceleration/chash/hash.hpp:263-273 | a fresh bucket of p[0] + q[0] keys: those of p, then those of q |
| LengthPrefixed.CopyKeys | tsx_acceleration/chash/hash.hpp:268-271 | one copy loop of merge writes src's keys after position at and leaves the earlier words |
| LengthPrefixed.Rebuild | tsx_acceleration/chash/hash.hpp:176 | insert ? arrayInsert : arrayRemove, the same bucket exactly when nothing changes |
| AdaptiveHashSet.WFArrayOp.constructor | hash/AdaptiveArrayHashSetOpt.java:224 | a fresh operation record with its key and type, priority 0 and no response |
| AdaptiveHashSet.WFArrayOp.Finish | hash/AdaptiveArrayHashSetOpt.java:366-367 | the response is recorded and the priority becomes Long.MAX_VALUE |
| AdaptiveHashSet.FSet.constructor | hash/AdaptiveArrayHashSetOpt.java:73-76 | a bucket holding the given key array and no operation |
| AdaptiveHashSet.HNode.constructor | hash/AdaptiveArrayHashSetOpt.java:21-27 | a generation of s empty slots with clear freeze flags, linked to the previous generation |
| AdaptiveHashSet.HasMember | hash/AdaptiveArrayHashSetOpt.java:372-382 | with no attached operation on the key, true exactly when the key array holds it |
| AdaptiveHashSet.HasMemberResolved | hash/AdaptiveArrayHashSetOpt.java:372-382 | hasMember answers as if the attached operation had taken effect |
| AdaptiveHashSet.HashSet.constructor | hash/AdaptiveArrayHashSetOpt.java:110-124 | one empty bucket at level 0, no keys |
| AdaptiveHashSet.HashSet.GetBucketSize | hash/AdaptiveArrayHashSetOpt.java:177-180 | the head's size, 2^level, between MIN_BUCKET_NUM and MAX_BUCKET_NUM |
| AdaptiveHashSet.HashSet.Contains | hash/AdaptiveArrayHashSetOpt.java:141-153 | true exactly when the key is in the set |
| AdaptiveHashSet.HashSet.OldHomeSlot | hash/AdaptiveArrayHashSetOpt.java:144-151 | for an empty head slot, the old generation's home slot holds the key exactly when the slot's logical bucket does |
| AdaptiveHashSet.HashSet.FreezeBucket | hash/AdaptiveArrayHashSetOpt.java:335-339 | the slot's flag is raised and its bucket frozen; the answer is its keys |
| AdaptiveHashSet.HashSet.DoFreeze | hash/AdaptiveArrayHashSetOpt.java:341-357 | the bucket ends frozen, an already frozen bucket is untouched, and the answer is its keys |
| AdaptiveHashSet.HashSet.HelpResize | hash/AdaptiveArrayHashSetOpt.java:286-303 | an empty head slot gets a fresh bucket holding its migrated keys; a filled one and every other slot stay |
| AdaptiveHashSet.HashSet.FreezeSources | hash/AdaptiveArrayHashSetOpt.java:290-300 | the source buckets are frozen and the keys are the split when growing or the merge when shrinking |
| AdaptiveHashSet.HashSet.HelpFinish | hash/AdaptiveArrayHashSetOpt.java:359-370 | an attached insert or remove takes effect in the slot, the operation is resolved, and its response is the new length plus one, negative when the array came back unchanged |
| AdaptiveHashSet.HashSet.Publish | hash/AdaptiveArrayHashSetOpt.java:301 | a fresh bucket with the keys is installed exactly when the slot still holds the expected one |
| AdaptiveHashSet.HashSet.CasBucket | hash/AdaptiveArrayHashSetOpt.java:29-32 | the slot is replaced exactly when it holds the expected bucket, and only that slot changes |
| AdaptiveHashSet.HashSet.CasOp | hash/AdaptiveArrayHashSetOpt.java:319-321 | attaching op to a bucket with no operation succeeds and leaves every other head bucket without one, as helpFinish needs |
| AdaptiveHashSet.HashSet.Invoke | hash/AdaptiveArrayHashSetOpt.java:310-333 | the operation is attached and resolved: the key is added or removed, and the response is positive exactly when the set changed |
| AdaptiveHashSet.HashSet.Apply | hash/AdaptiveArrayHashSetOpt.java:220-238 | the key is added or removed; the result is positive exactly when the set changed, and its magnitude is the home bucket's new length plus one |
| AdaptiveHashSet.HashSet.Insert | hash/AdaptiveArrayHashSetOpt.java:126-133 | the key is added, the answer says it was absent, and the table grows one level exactly when the home bucket then holds at least two keys and the level is below 16 |
| AdaptiveHashSet.HashSet.Remove | hash/AdaptiveArrayHashSetOpt.java:135-139 | the key is removed, the answer says it was present, and the size stays |
| AdaptiveHashSet.HashSet.Resize | hash/AdaptiveArrayHashSetOpt.java:262-284 | refused at the size bounds or for a stale head; otherwise the keys stay and a new empty generation one level up or down is installed over the old head |
| AdaptiveHashSet.HashSet.SwitchGeneration | hash/AdaptiveArrayHashSetOpt.java:275-281 | the old generation is dropped and a new empty one of double or half the size is installed, with the same keys |
| AdaptiveHashSet.HashSet.CasHead | hash/AdaptiveArrayHashSetOpt.java:305-308 | the new generation becomes the head over the old one, its logical buckets become the migration of the old ones, and the invariant holds |
| AdaptiveHashSet.HashSet.SwitchShape | hash/AdaptiveArrayHashSetOpt.java:279-280 | the new generation over the old head meets the invariant and holds the same keys |
| AdaptiveHashSet.HashSet.Grow | hash/AdaptiveArrayHashSetOpt.java:165-169 | succeeds exactly below level 16, and then goes one level up with the same keys |
| AdaptiveHashSet.HashSet.Shrink | hash/AdaptiveArrayHashSetOpt.java:171-175 | succeeds exactly above level 0, and then goes one level down with the same keys |
| ChashSet.HNode.constructor | tsx_acceleration/chash/hash.hpp:28-36 | a generation of s NULL slots linked to the previous generation |
| ChashSet.HashSet.constructor | tsx_acceleration/chash/hash.hpp:78-83 | one empty bucket at level 0 with no previous generation, and no keys |
| ChashSet.HashSet.Contains | tsx_acceleration/chash/hash.hpp:104-119 | true exactly when the key is in the set |
| ChashSet.HashSet.CasBucket | tsx_acceleration/chash/hash.hpp:179 | the slot is replaced exactly when it holds the expected bucket, and only that slot changes |
| ChashSet.HashSet.Apply | tsx_acceleration/chash/hash.hpp:163-188 | the key is added or removed; the result is positive exactly when the set changed, and its magnitude is the home bucket's new key count plus one |
| ChashSet.HashSet.Enlist | tsx_acceleration/chash/hash.hpp:175-185 | the rebuilt bucket is installed unless it is the same one; the answer is -(n[0] + 1) then, n[0] + 1 otherwise |
| ChashSet.HashSet.Insert | tsx_acceleration/chash/hash.hpp:85-94 | the key is added, the answer says it was absent, and the table grows one level exactly when the home bucket then holds at least two keys and the level is below 16 |
| ChashSet.HashSet.Remove | tsx_acceleration/chash/hash.hpp:96-102 | the key is removed, the answer says it was present, and the size stays |
| ChashSet.HashSet.Grow | tsx_acceleration/chash/hash.hpp:121-128 | succeeds exactly below level 16, and then goes one level up with the same keys |
| ChashSet.HashSet.Shrink | tsx_acceleration/chash/hash.hpp:130-137 | succeeds exactly above level 0, and then goes one level down with the same keys |
| ChashSet.HashSet.Resize | tsx_acceleration/chash/hash.hpp:190-217 | refused at the size bounds or for a stale head; otherwise the keys stay and a new empty generation one level up or down is installed over the old head |
| ChashSet.HashSet.FillSlots | tsx_acceleration/chash/hash.hpp:198-201 | every empty slot of the head is filled, keeping the keys |
| ChashSet.HashSet.DropOld | tsx_acceleration/chash/hash.hpp:203-205 | the previous generation is dropped and nothing else changes |
| ChashSet.HashSet.SwitchGeneration | tsx_acceleration/chash/hash.hpp:208-213 | a new empty generation of double or half the size is installed over t, with the same keys |
| ChashSet.HashSet.CasHead | tsx_acceleration/chash/hash.hpp:210 | the new generation becomes the head and the keys stay |
| ChashSet.HashSet.HelpResize | tsx_acceleration/chash/hash.hpp:219-237 | an empty head slot gets a bucket holding its migrated keys; a filled one and every other slot stay |
| ChashSet.HashSet.FreezeSources | tsx_acceleration/chash/hash.hpp:223-233 | the source buckets are frozen and the new bucket is the split when growing or the merge when shrinking |
| ChashSet.HashSet.FreezeBucket | tsx_acceleration/chash/hash.hpp:275-284 | the slot's mark bit is set, nothing else changes, and the answer is the unmarked bucket with that slot's keys |
| HtmHashSet.HNode.constructor | tsx_acceleration/chash/hash_htm.hpp:38-46 | a generation of s zero words (NULL, counter 0) linked to the previous generation |
| HtmHashSet.HashSet.constructor | tsx_acceleration/chash/hash_htm.hpp:90-101 | one empty bucket with counter 0 at level 0 and no previous generation, and no keys |
| HtmHashSet.HashSet.Contains | tsx_acceleration/chash/hash_htm.hpp:233-250 | true exactly when the key is in the set |
| HtmHashSet.HashSet.CasBucket | tsx_acceleration/chash/hash_htm.hpp:322 | the slot word is replaced exactly when it equals the expected word, and only that slot changes |
| HtmHashSet.HashSet.Enlist | tsx_acceleration/chash/hash_htm.hpp:315-330 | the rebuilt bucket is installed with the counter one larger unless it is the same one; the answer is -(n[0] + 1) then, n[0] + 1 otherwise |
| HtmHashSet.HashSet.Publish | tsx_acceleration/chash/hash_htm.hpp:320-324 | the rebuilt bucket goes into its slot with the counter one larger, the other slots stay, the view changes in that slot alone, and the answer is the new key count plus one |
| HtmHashSet.HashSet.FastPath | tsx_acceleration/chash/hash_htm.hpp:111-133 | the transaction commits exactly when the home slot holds an unmarked bucket; it then adds or removes the key as apply does, and otherwise writes nothing |
| HtmHashSet.HashSet.Update | tsx_acceleration/chash/hash_htm.hpp:110-151 | the transaction or the slow path: either adds or removes the key and answers as apply does |
| HtmHashSet.HashSet.Apply | tsx_acceleration/chash/hash_htm.hpp:299-333 | the key is added or removed; the result is positive exactly when the set changed, and its magnitude is the home bucket's new key count plus one |
| HtmHashSet.HashSet.Insert | tsx_acceleration/chash/hash_htm.hpp:103-156 | the key is added, the answer says it was absent, and the table grows one level exactly when the home bucket then holds at least two keys and the level is below 16 |
| HtmHashSet.HashSet.GrowIfFull | tsx_acceleration/chash/hash_htm.hpp:135-136 | a full home bucket moves the table up one level exactly when t is still the head and the level is below 16; the keys stay |
| HtmHashSet.HashSet.Remove | tsx_acceleration/chash/hash_htm.hpp:158-202 | the key is removed, the answer says it was present, and the size stays |
| HtmHashSet.HashSet.Grow | tsx_acceleration/chash/hash_htm.hpp:253-260 | succeeds exactly below level 16, and then goes one level up with the same keys |
| HtmHashSet.HashSet.Shrink | tsx_acceleration/chash/hash_htm.hpp:262-269 | succeeds exactly above level 0, and then goes one level down with the same keys |
| HtmHashSet.HashSet.Resize | tsx_acceleration/chash/hash_htm.hpp:335-364 | refused at the size bounds or for a stale head; otherwise the keys stay and a new generation of zero words one level up or down is installed over the old head |
| HtmHashSet.HashSet.FillSlots | tsx_acceleration/chash/hash_htm.hpp:343-348 | every NULL slot of the head is filled, keeping the keys |
| HtmHashSet.HashSet.DropOld | tsx_acceleration/chash/hash_htm.hpp:350-352 | the previous generation is dropped and nothing else changes |
| HtmHashSet.HashSet.SwitchGeneration | tsx_acceleration/chash/hash_htm.hpp:355-361 | a new generation of zero words of double or half the size is installed over t, with the same keys |
| HtmHashSet.HashSet.CasHead | tsx_acceleration/chash/hash_htm.hpp:357 | the new generation becomes the head and the keys stay |
| HtmHashSet.HashSet.HelpResize | tsx_acceleration/chash/hash_htm.hpp:366-390 | a NULL head slot gets a bucket holding its migrated keys with the counter one larger; a filled one and every other slot stay |
| HtmHashSet.HashSet.FreezeBucket | tsx_acceleration/chash/hash_htm.hpp:428-445 | the slot's mark bit is set with the counter one larger, a marked slot is left alone, and the answer is the unmarked bucket with that slot's keys |
| HtmHashSet.HashSet.FreezeSources | tsx_acceleration/chash/hash_htm.hpp:374-384 | the source buckets are frozen and the new bucket is the split when growing or the merge when shrinking |

## Left out

- LockCache.Tree.Arrive: requires `n <= Leaves()[index]`, that is, that a thread arrives with a value no greater than its leaf's current one. This is the arrive-after-depart protocol its callers follow. `lockcache.hpp:214-247` accepts any `n`, but after two arrivals of 5 and then 7 at one leaf, the cached minimum no longer matches the leaves.
- HeapInline.Heap.Add: requires `counter < HEAP_MAX_SIZE`. The source writes `heap[counter]` with no bounds test, and an add to a full heap writes past the array.
- HeapSeq.Heap.Add: requires `counter < HEAP_MAX_SIZE`, for the same reason as HeapInline.Heap.Add.
- MoundCgl.Mound.Add: requires that when the tree already has 32 levels, the probe at the given index hits a leaf that can take `n`. The source then grows past its fixed array of 32 levels.
- MoundCgl.Mound.Probe: the probe index is a parameter, in place of the `rand_r_32` stream; the thread-local seed is not modelled.
- MoundCgl.Mound.GetListTotal: sums in an unbounded `int`, not in the source's `uint64_t`, whose wrap-around is not modelled.
- MoundFc.Mound.Add: requires that a value larger than the last node's minimum only arrives while the node array has room for one more node. The source then writes past `NODES`.
- MoundFc.Mound.Advance: carries the same requirement as MoundFc.Mound.Add.
- ListMindicator.Indicator.Arrive: requires `me !in All()`, because each thread owns one node that it never links twice. This is the thread-local-node protocol of `list.hpp`.
- ListMindicator.Indicator.Depart: requires that a node which is not linked has a `null` previous pointer, as the thread-local-node protocol leaves it.
- AdaptiveHashSet.HashSet.Insert: requires `key >= 0`. Java's `key % t.size` is negative for a negative key, and the source's bucket lookup then throws. The 32-bit width of `int` keys is not modelled.
- AdaptiveHashSet.HashSet.Remove: requires `key >= 0`, for the same reason as Insert.
- AdaptiveHashSet.HashSet.Contains: requires `key >= 0`, for the same reason as Insert.
- ChashSet.HashSet.Insert: requires `key >= 0`. C++'s `key % t->size` is negative for a negative key, and indexing with it is undefined. The `int` key width is not modelled.
- ChashSet.HashSet.Remove: requires `key >= 0`, for the same reason as ChashSet.HashSet.Insert.
- ChashSet.HashSet.Contains: requires `key >= 0`, for the same reason as ChashSet.HashSet.Insert.
- HtmHashSet.HashSet.Insert: requires `key >= 0`, for the same reason as ChashSet.HashSet.Insert.
- HtmHashSet.HashSet.Remove: requires `key >= 0`, for the same reason as ChashSet.HashSet.Insert.
- HtmHashSet.HashSet.Contains: requires `key >= 0`. Only the lock-free slow path (`hash_htm.hpp:233-250`) is modelled; the transactional fast path of `contains` (lines 204-223) is not.
- LengthPrefixed.ArrayRemove: requires the source bucket to be duplicate-free, which every published bucket is. For a bucket with duplicates, the source's length word would count a slot it never writes.
- Buckets.ArrayInsert: the Java copy loop is a function on `seq<int>`, not a loop over `int[]`. The same holds for Buckets.ArrayRemove, Buckets.ArrayContains, Buckets.Split and Buckets.Merge.
- The helping machinery of the adaptive hash set is not modelled: the announcement array, `applySlow`, the `HelpRecord` priorities and the trial bound. Sequentially, every operation completes by its own fast path.
- The flat-combining hand-off of `mound_fc.hpp` is not modelled: the `fflags` announcement slots, the combiner election and the invoker's retry loop. Each operation runs as the combiner would run it.
- The transactional paths are not modelled: lines 180-200 of `mound_RTM_cgl.hpp`, and the HTM retry loops of `hash_htm.hpp`. A committed transaction is a sequential block, and whether it starts is the `htm` parameter.
- Test-and-test-and-set locks, `CFENCE` and the other memory fences have no meaning one operation at a time.
- The lock-free arrive and depart of `Mindicator.hpp` (steady and tentative words, versions, compare-and-swap on a node's word) are not modelled; only its layout, constructor and query are. The parent and child pointers of `lockmin.hpp` and `lockcache.hpp` are index arithmetic, and their per-node locks are not modelled.
- The add and remove bodies of `heap_hunt.hpp` are not modelled: their per-slot locks and pid tags are a thread protocol. Only the bit-reversed counter, the slot swaps and the empty test are.
- Memory reclamation is not modelled: `wbmm`, `free`, `mound_list_pool` and the C++ deletes. A discarded node or bucket simply becomes unreachable.
- Debugging and statistics code is not modelled: `print`, `toString`, `analyze` and the averaging functions.
- The benchmark drivers and test harnesses are cited only as evidence of what callers expect, for example the drain loop in `moundtest.cpp:210-219`.
- The other hash sets and list implementations in the repository are not part of this model.
