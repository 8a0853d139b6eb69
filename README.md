# Containers: a copy-on-write vector, an ordered set and a hash set

This project models three header-only C++ containers and proves properties of them in Dafny.

- **`vector<T>`** (vector.h). A handle holds one of three things: nothing, one element stored inline, or a pointer to a heap block. A block records its capacity, its size and the number of owners that share it. Copying a handle shares its block. Every structural change builds a private block first, so the other owners keep their elements.
- **`set<T>`** (set.h). An unbalanced binary search tree whose nodes carry parent links. A sentinel node stands for `end()`, and its left child is the root. Iterators are node pointers, and `++`/`--` walk the tree.
- **`unordered_set<T>`** (unordered_set.h). A vector of `set`s used as buckets, with a running `size` and a rebuild threshold `maxsize`. A key lives in bucket `hash(key) % bucket count`.

## Files

- `sorted_seq.dfy`, module `SortedSeq`. The abstract value of an ordered set is an ascending sequence. This module holds the lower and upper bound, sorted insertion and removal by index.
- `bst_tree.dfy`, module `BstTree`. This module covers the following:
  - a ghost `Tree` and its zipper `Ctx`;
  - a node arena, held as the parallel sequences `key`, `left`, `right` and `parent`;
  - the link invariant that ties an arena to a tree;
  - the in-order successor and predecessor.
- `bst_set.dfy`, module `BstSet`. The class `TreeSet` holds the arena. Node 0 is the sentinel and `-1` is the null pointer. The class's methods are proved against the functions of `SortedSeq` and `BstTree`. The pointer edits of `erase` are pure arena functions, and lemmas show that each edit keeps the tree linked.
- `vector.dfy`, module `CowVector`. It has the classes `Block` (the `shared_array`) and `Vec` (the handle). Each block carries a ghost set of the handles that reference it, and its owner count equals that set's size. Every `Vec` method proves that the other valid handles keep their contents.
- `hash_set.dfy`, module `HashSet`. The class `UnorderedSet` stores its buckets as a `seq<seq<int>>`, each bucket being an ascending sequence. An iterator is a bucket index plus a slot within that bucket.

Some behaviours of the hash set are modelled exactly as the code does them:
- `insert` increments `size` before it checks for a duplicate. `size` therefore counts calls, not keys. The invariant is `|keys| <= size <= maxsize`.
- The rebuild passes `storage.size() << 1` to the constructor, and that constructor takes an exponent. A table of n buckets is therefore rebuilt with 2^(2n) buckets.
- The `maxsize *= THRESHOLD` that comes before the rebuild is always overwritten when the rebuilt table is swapped in. The model leaves out this dead store.

## Model

| member | source | states |
|---|---|---|
| SortedSeq.LowerBoundIndex | set.h:217-224 | every element before the returned index is below v, and the element at it (if any) is not |
| SortedSeq.LowerBoundAt | set.h:217-224 | the lower bound is the only index with that property |
| SortedSeq.UpperBoundIndex | set.h:212-215 | every element before the returned index is at most v, and the element at it (if any) is above v |
| SortedSeq.LowerBoundSplits | set.h:226-230 | in an ascending sequence, everything from the lower bound on is at least v; v is present iff it sits at the lower bound (what find tests) |
| SortedSeq.UpperFromLower | set.h:212-215 | upper_bound is lower_bound, stepped once past an element equal to v |
| SortedSeq.InsertSorted | set.h:194-210 | the elements gain exactly v; ascending order is kept; the sequence is unchanged iff v was present, and otherwise grows by one |
| SortedSeq.InsertAtLowerBound | set.h:200-209 | placing v at its lower bound, when v is not already there, adds exactly v |
| SortedSeq.AscendingAtLowerBound | set.h:200-209 | in an ascending sequence, a v that is not at its lower bound is absent, and placing it there keeps the order |
| SortedSeq.InsertBetween | set.h:200-209 | a key placed between the keys below it and the keys above it is new, and the result is the sorted insertion |
| SortedSeq.RemoveAt | set.h:156-192 | removing index k drops that element and keeps the others in order |
| SortedSeq.RemoveAtAscending | set.h:156-192 | removing from an ascending sequence keeps it ascending and drops exactly that key |
| SortedSeq.AscendingUnique | set.h:194-210 | an ascending sequence is determined by its set of keys, so the in-order value of a set is fixed by its elements |
| BstTree.IndexOf | set.h:52-75 | the first position of a node in the in-order sequence |
| BstTree.SuccAt | set.h:52-63 | in a sequence without repeats, ++ from the k-th node reaches the (k+1)-th node, or the sentinel after the last |
| BstTree.SuccPredSplit | set.h:52-75 | where the in-order sequence splits around x, ++ reaches the first node after x and -- the last node before it (the sentinel when there is none) |
| BstTree.PredSucc | set.h:52-75 | -- undoes ++ on every element; ++ undoes -- everywhere except at the first element, where -- reaches the sentinel |
| BstSet.SuccDown | set.h:54-57 | with a right subtree, ++ reaches the leftmost node of that subtree |
| BstSet.PredDown | set.h:66-69 | with a left subtree, -- reaches the rightmost node of that subtree |
| BstSet.SuccAbove | set.h:59-61 | the climb of ++ stops below the first ancestor reached from a left child, and that ancestor is the successor |
| BstSet.PredAbove | set.h:71-73 | the climb of -- stops below the first ancestor reached from a right child (or at the sentinel), and that ancestor is the predecessor |
| BstSet.FirstOfNode | set.h:56 | a node's first in-order element is the first element of its non-empty left subtree |
| BstSet.LastOfNode | set.h:59-60 | a node's last in-order element is the last element of its non-empty right subtree |
| BstSet.InsertStep | set.h:203-206 | a new leaf hung in the empty slot between the keys below v and the keys above v keeps the arena linked and ordered, and inserts v in order |
| BstSet.Hung | set.h:160-168 | writes one child slot and leaves the keys and the arena's shape alone |
| BstSet.Spliced | set.h:162-168 | hangs x in a child slot and points x back at that parent |
| BstSet.Detached | set.h:172-175 | unlinks the successor: its right pointer and parent pointer are cleared |
| BstSet.Placed | set.h:177-180 | the successor takes the erased node's parent and left child, and that child points back at it |
| BstSet.Erased | set.h:159-189 | the pointer edits of erase change no key and no slot count |
| BstSet.SplicedLift | set.h:161-168 | splicing a subtree's root into a slot lifts that whole subtree there |
| BstSet.EraseOne | set.h:161-168 | erasing a node with a missing child hangs its other subtree in its place, and the tree stays linked |
| BstSet.DetachSucc | set.h:171-175 | unlinking a successor that lies below the right child leaves a linked tree without it, with its right subtree where it was |
| BstSet.SuccSlot | set.h:170-171 | the successor of a node with two children is the leftmost node of its right subtree; it hangs in a left slot unless it is that subtree's root |
| BstSet.EraseNext | set.h:183-188 | when the successor is the right child, it moves up with the erased node's left subtree, and the tree stays linked |
| BstSet.EraseDeep | set.h:171-182 | when the successor lies deeper, it is detached and then takes the erased node's place, keeping the in-order sequence minus that node |
| BstSet.EraseTwo | set.h:169-189 | erasing a node with two children leaves a linked tree whose in-order sequence is the old one without that node |
| BstSet.EraseLinks | set.h:156-192 | in every case, erase leaves a linked tree whose in-order sequence is the old one without the erased node |
| BstSet.TreeSet.constructor | set.h:107 | a new set has no elements |
| BstSet.TreeSet.IsEmpty | set.h:118 | true iff there are no elements |
| BstSet.TreeSet.Clear | set.h:119-124 | afterwards there are no elements |
| BstSet.TreeSet.End | set.h:131-133 | end() is the sentinel, which is no element |
| BstSet.TreeSet.Value | set.h:50 | dereferencing an element's iterator yields the key at its in-order position |
| BstSet.TreeSet.Begin | set.h:126-130 | begin() is the first node in order, or end() when the set is empty |
| BstSet.TreeSet.Next | set.h:52-63 | ++ moves to the in-order successor, goes from the last element to end(), and leaves a null iterator alone |
| BstSet.TreeSet.NextDown | set.h:54-58 | the descent into the right subtree reaches the successor |
| BstSet.TreeSet.NextUp | set.h:59-62 | the climb reaches the successor, which is end() after the last element |
| BstSet.TreeSet.Prev | set.h:64-75 | -- moves to the in-order predecessor, goes from end() to the last element, and leaves a null iterator alone |
| BstSet.TreeSet.PrevDown | set.h:66-70 | the descent into the left subtree reaches the predecessor |
| BstSet.TreeSet.PrevUp | set.h:71-74 | the climb reaches the predecessor |
| BstSet.TreeSet.Insert | set.h:194-210 | the keys become the sorted insertion of v; inserted iff v was absent; the iterator holds v; nothing changes when v was present |
| BstSet.TreeSet.AddLeaf | set.h:196-198 | the new node in the slot the descent reached holds v, which was absent, and the keys become the sorted insertion |
| BstSet.TreeSet.LowerBound | set.h:217-224 | the walk from begin() stops at the position of the lower bound of v among the keys (end() when there is none) |
| BstSet.TreeSet.UpperBound | set.h:212-215 | the result is the position of the upper bound of v among the keys |
| BstSet.TreeSet.Find | set.h:226-230 | the result is the node holding v when v is present, and end() otherwise |
| BstSet.TreeSet.CopyTree | set.h:29-34 | the subtree is copied into fresh nodes with the same shape and keys, hung below the given parent; existing nodes are untouched |
| BstSet.TreeSet.CopyChild | set.h:31-32 | a present child is copied with the same shape and keys, and a missing one stays null |
| BstSet.TreeSet.Copy | set.h:108-111 | the copy holds the same keys, in a tree of the same shape, in fresh nodes |
| BstSet.TreeSet.Swap | set.h:236-245 | the two sets exchange their elements, and each root points up to its new sentinel |
| BstSet.TreeSet.Assign | set.h:112-115 | afterwards the set holds the source's keys |
| BstSet.TreeSet.Splice | set.h:160-168 | the arena becomes Spliced of the old arena |
| BstSet.TreeSet.Detach | set.h:172-175 | the arena becomes Detached of the old arena |
| BstSet.TreeSet.Place | set.h:177-180 | the arena becomes Placed of the old arena |
| BstSet.TreeSet.AdoptRight | set.h:181-182 | x becomes p's right child, and x points back at p |
| BstSet.TreeSet.Unlink | set.h:159-189 | the arena becomes Erased of the old arena |
| BstSet.TreeSet.Erase | set.h:156-192 | the node and its key leave the in-order sequence at its position, the others keep their order, and the result is the old successor |
| CowVector.Block.constructor | vector.h:44-54 | a new block has the requested capacity, no elements and one owner |
| CowVector.Block.Store | vector.h:66-68 | the leading slots hold the given elements; the owner count is unchanged |
| CowVector.Spliced | vector.h:317-327 | the elements left after removing the index range [i, j): the prefix, then the suffix moved down |
| CowVector.InsertedAt | vector.h:297-304 | v at index i, with the elements before it unchanged and the elements after it moved up by one |
| CowVector.RotateAppended | vector.h:299-301 | appending v and rotating it from the end into index i inserts v at i |
| CowVector.EraseUndoesInsert | vector.h:297-333 | erasing the element just inserted restores the contents |
| CowVector.InsertUndoesErase | vector.h:297-333 | re-inserting an erased element at its index restores the contents |
| CowVector.PushBackIsInsertAtEnd | vector.h:201-221 | push_back is insert at the end |
| CowVector.ErasedAsWritten | vector.h:306-333 | erase as written: an empty range changes nothing, and otherwise the size drops by the range's length |
| CowVector.ErasedAsWrittenDiffers | vector.h:314-316 | erase as written differs from removing the range exactly when one element survives, the range starts at 0, and element 0 differs from the survivor |
| CowVector.ErasedAsWrittenCounterexample | vector.h:314-316 | erase(begin(), begin() + 1) on [1, 2] leaves [1] where [2] is meant |
| CowVector.Resized | vector.h:268-291 | resize to n keeps the first min(size, n) elements and pads with v |
| CowVector.ResizedBack | vector.h:268-291 | growing and then shrinking back to the old size restores the elements |
| CowVector.GrownCapacity | vector.h:207-208 | push_back as written requests exactly twice a full block's capacity and the same capacity for a block that is not full |
| CowVector.GrowthLeavesRoom | vector.h:207-208 | for a full block, the requested capacity exceeds the current one exactly when that capacity is positive; a full block of capacity 0 gets no room |
| CowVector.NextCapacity | vector.h:206-210 | the corrected request agrees with the source for a capacity above zero and always leaves room for one more element |
| CowVector.SeqEqual | vector.h:344-347 | element-wise comparison of two ranges is true iff they are equal |
| CowVector.LexLessIrreflexive | vector.h:354-357 | no sequence precedes itself |
| CowVector.LexLessTrichotomy | vector.h:354-357 | exactly one of a < b, a == b and b < a holds |
| CowVector.LexLessTransitive | vector.h:354-357 | the lexicographic order is transitive |
| CowVector.LexLessPrefix | vector.h:354-357 | a proper prefix sorts first |
| CowVector.Vec.SoleOwner | vector.h:130-134 | a block with one owner is referenced by this handle alone, so writing to it in place is invisible to others |
| CowVector.Vec.constructor | vector.h:103 | a new handle has no storage and no elements |
| CowVector.Vec.Size | vector.h:107-109 | the number of elements: 0 without storage, 1 inline, the block's count otherwise |
| CowVector.Vec.Capacity | vector.h:110-112 | 1 without a block, the block's capacity otherwise, and never below the size |
| CowVector.Vec.IsEmpty | vector.h:106 | true iff the handle has no storage, which implies no elements (a block holding none still counts as non-empty) |
| CowVector.Vec.Get | vector.h:141-143 | the element at index i |
| CowVector.Vec.ResizeVector | vector.h:55-75 | a fresh block of the given capacity, with one owner, holding the first min(capacity, size) elements |
| CowVector.Vec.SetData | vector.h:76-82 | the handle points at the new block, giving up its share of a different old block; other handles keep their elements |
| CowVector.Vec.SetInline | vector.h:83-89 | the handle stores v inline and gives up any block share; other handles keep their elements |
| CowVector.Vec.Clear | vector.h:113-119 | the handle has no storage, drops its share of a block, and other handles keep their elements |
| CowVector.Vec.Detach | vector.h:130-139 | contents are unchanged; a shared block is replaced by a private copy, so the handle becomes its block's only owner |
| CowVector.Vec.Set | vector.h:144 | a write through operator[] changes exactly element i of this handle, and no other handle |
| CowVector.Vec.PushBack | vector.h:201-221 | contents gain v at the end: an empty handle stores it inline, and otherwise a fresh private block is used; other handles are unchanged |
| CowVector.Vec.PopBack | vector.h:223-236 | the last element goes; two elements leave the first stored inline; an empty handle is left alone; other handles are unchanged |
| CowVector.Vec.ShrinkToFit | vector.h:238-242 | contents are unchanged, and a block's capacity becomes its size |
| CowVector.Vec.Resize | vector.h:268-291 | contents become Resized(old, n, v), with the storage form the source picks for n = 0, 1 and more; the same size changes nothing |
| CowVector.Vec.ResizeDefault | vector.h:244-267 | contents become Resized(old, n, 0) |
| CowVector.Vec.Reserve | vector.h:292-295 | contents are unchanged; a capacity of at least 2 above the size yields a fresh block of that capacity |
| CowVector.Vec.Insert | vector.h:297-304 | contents become InsertedAt(old, i, v), the returned index is i, and other handles are unchanged |
| CowVector.Vec.Erase | vector.h:306-333 | an empty range changes nothing; otherwise contents become Spliced(old, i, j), an erase of everything leaves no storage, and one survivor is stored inline |
| CowVector.Vec.EraseInCopy | vector.h:317-328 | a private copy with the range closed up replaces the block |
| CowVector.Vec.EraseAt | vector.h:305 | erasing one position removes exactly that element |
| CowVector.Vec.Copy | vector.h:165-170 | the copy shares other's storage and contents, and a shared block gains one owner |
| CowVector.Vec.Swap | vector.h:339-342 | the two handles exchange their storage and contents; owner counts are unchanged and other handles are untouched |
| CowVector.Vec.SwapBlocks | vector.h:339-342 | swap of two handles on different blocks |
| CowVector.Vec.HandOver | vector.h:339-342 | swap of a handle on a block with a handle without one |
| CowVector.Vec.Assign | vector.h:171-175 | afterwards the handle has other's storage and contents |
| CowVector.Vec.Equal | vector.h:344-347 | true iff the contents are equal |
| CowVector.Vec.NotEqual | vector.h:349-352 | true iff the contents differ |
| CowVector.Vec.Less | vector.h:354-357 | true iff a's contents precede b's lexicographically; never for equal contents, nor together with b < a |
| CowVector.Vec.LessEq | vector.h:359-362 | true iff a precedes b or is equal to it |
| CowVector.Vec.Greater | vector.h:364-367 | true iff a neither precedes b nor equals it |
| CowVector.Vec.GreaterEq | vector.h:369-372 | true iff b precedes a or is equal to it |
| CowVector.ZeroCapacityBlock | vector.h:238-242 | reserve followed by shrink_to_fit gives a full block of capacity 0, for which push_back as written requests capacity 0 |
| HashSet.Pow2 | unordered_set.h:97-102 | 1 << pow, as a number, is at least 1 |
| HashSet.FlatAt | unordered_set.h:41 | the key at an iterator is the one iteration yields at its step count |
| HashSet.FlatEnd | unordered_set.h:123-127 | the end iterator comes after every key |
| HashSet.FlatPrefix | unordered_set.h:44-59 | iteration yields the keys of earlier buckets before those of later ones |
| HashSet.FlatElems | unordered_set.h:120-127 | iteration yields exactly the keys held in some bucket |
| HashSet.InItsBucket | unordered_set.h:157-159 | a key is stored iff it is in the bucket its hash selects |
| HashSet.ReplaceBucket | unordered_set.h:144-165 | replacing one bucket of a correctly hashed table replaces exactly that bucket's keys |
| HashSet.FlatDistinct | unordered_set.h:154-165 | iteration meets each stored key once |
| HashSet.Pow2Double | unordered_set.h:82 | 2^(2n) >= 4n |
| HashSet.RebuildRoom | unordered_set.h:79-83 | the table a rebuild creates has room for every key the old table held |
| HashSet.AddKey | unordered_set.h:157-164 | v is found at its lower bound in its bucket exactly when it is stored; otherwise adding it there adds exactly v, and only there |
| HashSet.AddHashed | unordered_set.h:163 | adding v to its own bucket keeps every key in its bucket and every bucket ascending |
| HashSet.RemoveHashed | unordered_set.h:147-149 | removing a key from its bucket keeps the table correctly hashed and ascending |
| HashSet.FlatLength | unordered_set.h:144-165 | replacing one bucket changes the number of stored keys by the change in that bucket's size |
| HashSet.UnorderedSet.Bucket | unordered_set.h:157 | the bucket index is within the bucket count |
| HashSet.UnorderedSet.constructor | unordered_set.h:96-99 | 16 empty buckets, size 0, threshold 12 |
| HashSet.UnorderedSet.WithPow | unordered_set.h:100-103 | 2^pow empty buckets, size 0, threshold floor(2^pow * 0.75) |
| HashSet.UnorderedSet.Copy | unordered_set.h:104-105 | the same buckets, counters and hash as the source table |
| HashSet.UnorderedSet.Empty | unordered_set.h:112 | a table that reports empty holds no key |
| HashSet.UnorderedSet.Clear | unordered_set.h:113-118 | back to 16 empty buckets, size 0 and threshold 12 |
| HashSet.UnorderedSet.End | unordered_set.h:123-127 | past the last bucket, dereferences nothing, and comes after every key |
| HashSet.UnorderedSet.Check | unordered_set.h:44-52 | a position at the end of its bucket moves on to the next key or to end(); a position at a key stays put; the step count is kept |
| HashSet.UnorderedSet.Begin | unordered_set.h:31-37 | the iterator at the first key in iteration order, or end() |
| HashSet.UnorderedSet.Next | unordered_set.h:54-59 | ++ advances one key in iteration order, and end() stays put |
| HashSet.UnorderedSet.Find | unordered_set.h:167-174 | end() iff v is absent; otherwise the iterator is in v's bucket, at v |
| HashSet.UnorderedSet.Add | unordered_set.h:156-164 | the counter rises by one; only v's bucket changes, becoming its sorted insertion; inserted iff v was absent; the iterator is at v |
| HashSet.UnorderedSet.ResizeVector | unordered_set.h:74-78 | the keys are kept in 2^capacity buckets; the counter becomes the key count and the threshold that of the new bucket count |
| HashSet.UnorderedSet.InsertAllInto | unordered_set.h:76 | the target gains exactly this table's keys, and its counter rises by the number of keys iterated |
| HashSet.UnorderedSet.CheckSize | unordered_set.h:79-84 | afterwards there is room for one insertion and the keys are unchanged; below the threshold, nothing changes; otherwise the table is rebuilt with 2^(2n) buckets |
| HashSet.UnorderedSet.Insert | unordered_set.h:154-165 | the keys gain v; inserted iff v was absent; the iterator is at v in its bucket; the counter counts the call |
| HashSet.UnorderedSet.Erase | unordered_set.h:144-152 | the key at the iterator leaves its bucket; the counter drops by one; the result is the next key in iteration order |
| HashSet.Assign | unordered_set.h:106-109 | afterwards the table holds the source's buckets, counters and keys |
| HashSet.Swap | unordered_set.h:180-185 | the two tables exchange their buckets and both counters |

## Left out

- counted.h is not part of this model.
- Raw memory, placement new, destructors, `destroy` and the exception paths (`try`/`catch`, the strong guarantees) are not modelled. Allocation is modelled by `new` on Dafny objects. Deleting an erased set node leaves it in the arena, where it can no longer be reached.
- The set's nodes are modelled as indices into an arena instead of pointers, and the sentinel is arena slot 0.
- The hinted `insert(pos, v)` of set.h:149-154 and unordered_set.h:129-142 is not modelled. Its node construction at set.h:150 and its return at set.h:153 match no constructor, so it does not compile once it is used.
- Post-increment and post-decrement (set.h:77-86, unordered_set.h:60-64) are not modelled separately: each is a copy followed by the modelled pre-increment. Iterator equality is not modelled either.
- Reverse iterators are not modelled. Neither are the vector's pointer accessors `front`, `back`, `begin` and `end` (vector.h:146-163). Vector positions are indices. Insert's null position is index 0.
- The vector's range constructor and `assign` (vector.h:177-199) are not modelled.
- The element type is `int`, and the value-initialised element of `resize(n)` is 0.
- Integer widths are not modelled: `size_t` counters are unbounded.
- HashSet.Pow2: `1 << pow` is modelled as the number 2^pow. The source shifts an `int`, which is undefined for pow >= 31. The first rebuild of a default table already asks for 2^32 buckets.
- HashSet.Threshold: the `float` multiplication by 0.75 is modelled as the exact floor of three quarters.
- The hash function is a parameter of the table. The source's rebuild builds its temporary table with the default `std::hash`. The model gives the temporary table the table's own hash.
- HashSet.UnorderedSet.Empty: only "reports empty implies no keys" is stated. `size` also counts insertions of keys that were already present, so the converse does not hold.
- HashSet.UnorderedSet.ResizeVector: requires that the new threshold exceeds the key count. Each re-insertion runs a nested `check_size`, and this requirement is what proves that check never fires. CheckSize establishes the requirement through RebuildRoom.
- HashSet.UnorderedSet.InsertAllInto: requires only a non-empty bucket array of this table, because the loop reads no other part of its invariant.
- A bucket of the hash set is modelled as its abstract value, an ascending sequence. Bucket updates use SortedSeq.InsertSorted and SortedSeq.RemoveAt, the same functions the TreeSet methods are proved against, and not TreeSet objects.
- The copy-on-write sharing of the hash set's bucket vector is not modelled; the buckets are a value.
- CowVector.Vec.PopBack: requires a non-empty block. On an empty block, pop_back decrements a size of 0, which is undefined.
- CowVector.Vec.Resize: requires a non-empty block for `resize(1)`, which reads element 0. The same holds for CowVector.Vec.ResizeDefault.
- CowVector.Vec.Erase: keeps the surviving element where the source keeps element 0 (see Findings).
- CowVector.Vec.PushBack: requests NextCapacity where the source requests GrownCapacity (see Findings).

## Findings

| source | as written | input that shows it | evidently intended | confidence | as-written member | corrected member |
|---|---|---|---|---|---|---|
| vector.h:314-316 | when exactly one element survives `erase(first, last)`, the block is replaced by its element 0 stored inline, even if element 0 was inside the erased range | `erase(begin(), begin() + 1)` on a block holding [1, 2] leaves [1] | keep the surviving element, leaving [2] | not executed | CowVector.ErasedAsWritten, CowVector.ErasedAsWrittenCounterexample | CowVector.Vec.Erase (contents become CowVector.Spliced) |
| vector.h:207-208 | push_back on a full block requests twice its capacity, which is 0 for a block of capacity 0, and then writes the new element past its end | `v.reserve(2); v.shrink_to_fit(); v.push_back(x)` on an empty vector: shrink_to_fit copies zero elements into a block of capacity 0 | allocate a block with room for the new element | not executed | CowVector.GrowthLeavesRoom, CowVector.ZeroCapacityBlock | CowVector.NextCapacity (used by CowVector.Vec.PushBack) |
