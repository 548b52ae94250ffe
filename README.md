# c-utilities containers in Dafny

This project models the three keyed containers of the c-utilities repository as imperative
Dafny and proves what each of them promises.

- **`HashTable`** (`HashTable/src/hashtable.c`) is a chained hash table.
  - `hash(key) % capacity` picks a bucket, and each bucket is a chain of key/value entries. An insert prepends to its chain, so between resizes a chain runs newest first; a resize relinks each old chain, head first, onto the front of the new buckets, so entries that share a new bucket end up in reverse of their old order.
  - Re-inserting a present key replaces its value.
  - Before placing a key, `ht_insert` checks the load factor 0.75. If it is exceeded, the table doubles its bucket array and relinks every entry.
  - The model's bucket array is an `array<seq<(K, V)>>`.
  - `hash` is an abstract function, and key equality is Dafny equality.
  - A ghost `map` holds the contents.
- **`LinkedList`** (`LinkedList/src/linkedlist.c`) is a doubly linked list kept in strictly increasing key order.
  - Insert has fast paths at both ends. Otherwise it walks from the end that the comparator's magnitudes suggest is closer.
  - Lookup and removal stop early at the first greater key.
  - The model uses a `Node` class with `prev`/`next` fields, `head`/`tail`/`size` fields on the list, and a ghost sequence of the nodes from head to tail.
  - The abstract state is the sequence of entries those nodes hold.
- **`Vector`** (`Vector/src/vector.c`) is an array of key/value elements.
  - It supports append, insert-after and delete with shifting.
  - A `sorted` flag is set by a top-down stable merge sort that works through a temporary buffer.
  - A binary search is only attempted while the flag is set.
  - The class invariant is that the flag implies the elements are in ascending key order.
- **`Common`** holds what the containers share:
  - an `Option` type;
  - the comparator contract `SignConsistent`, under which `cmp(a, b)` is negative, zero or positive exactly when `a < b`, `a == b` or `a > b`;
  - `VisitCount`, the number of callbacks a `limit`-bounded iteration makes.

The release callbacks (`free_key`, `free_value`, `free_data`, `free_func`) are recorded in a
ghost `released` log on each container. Each container's contracts state exactly which keys,
values and data are released, and in what order. The iteration callbacks are represented by
the sequence of visited entries that each iteration method returns.

The model follows the code on the load factor. `HT_MAX_LOAD_FACTOR` reads naturally as "the
load is at most 0.75 after every insert", but `ht_insert` only checks the load before placing
the key (hashtable.c:45-49), so an insert can leave the table above 0.75. What the code
does keep, and what `HashTable.HashTable.Valid` states, is this: with one entry fewer, the load
at the current capacity is at most 0.75 (`(size - 1) * 4 <= capacity * 3`). Doubling therefore
always brings the load back under the bound, as `DoublingRelievesLoad` shows.

Three quirks of the source are modelled as written, as far as values can show them:
- A replacing `ht_insert` releases the incoming key and then the old value, and keeps the stored key. Keys are compared with Dafny equality, so the stored and the incoming key are the same value here; the release log records a key release followed by the old value, and the stored entry keeps its key, but which of two equal key objects is kept is not observable (see "## Left out").
- A replacing `ll_insert` releases the old data and then the old key, and stores the new key and data.
- `vector_delete` leaves the sorted flag alone, and `vector_sort_stable` leaves the flag unchanged for fewer than two elements. `RemovalKeepsSorted` shows that the first of these is sound.

## Model

| member | source | states |
|---|---|---|
| HashTable.DoublingRelievesLoad | HashTable/src/hashtable.c:45-49 | if, with one entry fewer, the load at the current capacity is at most 0.75, then after the capacity doubles the table is not overloaded |
| HashTable.GrownIsPow2 | HashTable/src/hashtable.c:47 | a capacity that only ever doubles is the initial capacity times a power of two |
| HashTable.RelinkedSnoc | HashTable/src/hashtable.c:138-140 | relinking one more entry puts it at the front of its own bucket and leaves every other bucket as it was |
| HashTable.RelinkedMembers | HashTable/src/hashtable.c:134-143 | after relinking, a bucket holds exactly those entries that hash to it, none lost and none added |
| HashTable.RelinkedAppend | HashTable/src/hashtable.c:134-143 | entries relinked later come out in front: relinking `a` and then `c` puts, in every bucket, the entries of `c` before those of `a` |
| HashTable.RelinkedStep | HashTable/src/hashtable.c:138-140 | prepending one more entry to its bucket turns the buckets laid out for the entries moved so far into those laid out for one entry more |
| HashTable.Find | HashTable/src/hashtable.c:77-82 | scanning a chain finds nothing exactly when no entry of the chain has the key |
| HashTable.FindUnique | HashTable/src/hashtable.c:77-79 | in a chain with unique keys, the scan returns the value of the one entry holding the key |
| HashTable.InsertNewKeepsTable | HashTable/src/hashtable.c:63-71 | prepending a new key to its bucket keeps every entry in its hash bucket and keeps keys unique, and the table then represents the map extended with that key |
| HashTable.ReplaceKeepsTable | HashTable/src/hashtable.c:52-59 | overwriting the value of the entry found for a key keeps the table well formed, and the table then represents the map with that key's value replaced |
| HashTable.RemoveKeepsTable | HashTable/src/hashtable.c:89-100 | cutting the entry found for a key out of its chain leaves a well-formed table for the map without that key |
| HashTable.EmptyBuckets | HashTable/src/hashtable.c:21 | a zeroed bucket array is a well-formed table for the empty map, with no entries |
| HashTable.ReleasesOfLength | HashTable/src/hashtable.c:28-39 | releasing a run of entries makes one call per entry for each registered callback |
| HashTable.ScanChain | HashTable/src/hashtable.c:52-62 | the chain walk stops at the first entry with the key, or at the end when none has it |
| HashTable.VisitChain | HashTable/src/hashtable.c:117-125 | visiting one chain appends its entries in order, and stops exactly when the limit is reached |
| HashTable.Rehash | HashTable/src/hashtable.c:134-143 | relinking every chain into the new bucket array yields a well-formed table for the same map, with the same multiset of entries; each new bucket holds the entries that hash to it, the one relinked last at its head |
| HashTable.RehashChain | HashTable/src/hashtable.c:135-142 | relinking one old chain, head first, moves exactly its entries, each to the front of bucket `hash(key) % new_capacity` |
| HashTable.RehashEntry | HashTable/src/hashtable.c:137-141 | one pass of the relinking loop keeps the new table well formed, adds the entry to the moved entries and keeps the buckets laid out in relinking order |
| HashTable.MoveToFront | HashTable/src/hashtable.c:138-140 | the entry becomes the head of bucket `hash(key) % new_capacity` and every other bucket is unchanged |
| HashTable.RehashStep | HashTable/src/hashtable.c:138-140 | prepending one entry to its new bucket keeps the partial new table well formed and adds that entry |
| HashTable.MovedAll | HashTable/src/hashtable.c:134-143 | once every old bucket has been relinked, the new table holds exactly the old contents |
| HashTable.HashTable.Init | HashTable/src/hashtable.c:17-23 | a new table has the requested capacity, size 0, empty buckets and nothing released |
| HashTable.HashTable.Create | HashTable/src/hashtable.c:8-25 | capacity 0 becomes 1024; the result is null exactly when allocation fails, and otherwise an empty table |
| HashTable.HashTable.CapacityIsPow2 | HashTable/src/hashtable.c:47 | the capacity is the initial capacity times two to the number of resizes |
| HashTable.HashTable.Resize | HashTable/src/hashtable.c:129-148 | on success the bucket array is new, the capacity is doubled and the load is acceptable, and every new bucket holds the old entries (taken bucket by bucket, each chain from its head) that hash to it, the one relinked last at its head; entry multiset, contents and size are unchanged. On failure it returns -1 and nothing changes. |
| HashTable.HashTable.Insert | HashTable/src/hashtable.c:44-72 | returns -1 exactly when a needed resize or a new entry's allocation fails. On success the contents map the key to the value, and size grows by one exactly for a new key, whose entry heads its bucket. A replace releases the key and then the old value. A failed entry allocation without a resize leaves every bucket unchanged. Without a resize every other bucket is unchanged and a replaced entry keeps its key and position; after a resize every bucket is the relinked old chain, with the new entry prepended or the value replaced in place. Capacity doubles exactly when the table was overloaded and the resize succeeded; the bucket array is the old one or a new one. |
| HashTable.HashTable.GrowThenPlace | HashTable/src/hashtable.c:45-71 | on an overloaded table: -1 with nothing changed when the resize fails; otherwise the capacity doubles and the entry is placed into the relinked buckets, prepended for a new key or replacing the value in place |
| HashTable.HashTable.Place | HashTable/src/hashtable.c:50-71 | a present key keeps its place in its chain and gets the new value; a new key is prepended to its bucket, and other buckets are untouched; a failed allocation changes no bucket |
| HashTable.HashTable.Get | HashTable/src/hashtable.c:74-83 | returns the value stored under the key, and nothing exactly when the key is absent |
| HashTable.HashTable.Unlink | HashTable/src/hashtable.c:91-100 | cuts exactly entry `j` out of bucket `idx`, keeping the rest of that chain in order and every other bucket unchanged; removes its key from the contents, releases its key and then its value, and decrements size |
| HashTable.HashTable.Remove | HashTable/src/hashtable.c:85-107 | returns 0 exactly when the key was present. On success the key is gone, its entry is cut out of its bucket with the rest of the chain kept in order, size is one less, and its key and value are released. An absent key returns -1 with buckets, size and releases unchanged. |
| HashTable.HashTable.Foreach | HashTable/src/hashtable.c:109-127 | visits entries bucket by bucket and chain by chain: the first `min(limit, size)` of them, or all when the limit is 0 |
| HashTable.HashTable.Size | HashTable/src/hashtable.c:150-152 | the size is the number of keys and the number of entries in all chains |
| HashTable.HashTable.Destroy | HashTable/src/hashtable.c:27-42 | every entry's key and value are released, bucket by bucket and in chain order |
| HashTable.HashTable.ReleaseChain | HashTable/src/hashtable.c:30-38 | releasing one chain releases its entries in order |
| LinkedList.Lookup | LinkedList/src/linkedlist.c:159-172 | the lookup finds nothing exactly when no entry has the key |
| LinkedList.LookupAt | LinkedList/src/linkedlist.c:163-166 | in an ascending list, the entry at the position holding the key is the one found |
| LinkedList.AbsentBetween | LinkedList/src/linkedlist.c:167-168 | in an ascending list, a key strictly between two neighbours, or beyond an end, is absent, which is why the early exit is sound |
| LinkedList.InsertSortedAt | LinkedList/src/linkedlist.c:144-153 | inserting a key that lies between two neighbours puts its entry exactly between them, and the key was absent |
| LinkedList.ReplaceSortedAt | LinkedList/src/linkedlist.c:55-63 | inserting a present key overwrites that entry in place and leaves the rest unchanged |
| LinkedList.RemoveKeyAt | LinkedList/src/linkedlist.c:181-189 | removing a present key cuts out exactly the entry at its position |
| LinkedList.RemoveKeyAbsent | LinkedList/src/linkedlist.c:199-204 | removing an absent key leaves the list unchanged |
| LinkedList.AscendingInsertAt | LinkedList/src/linkedlist.c:76-102 | splicing an entry between a smaller and a greater neighbour keeps keys strictly increasing |
| LinkedList.AscendingRemoveAt | LinkedList/src/linkedlist.c:181-189 | cutting any entry out keeps keys strictly increasing |
| LinkedList.InsertSortedAscending | LinkedList/src/linkedlist.c:37-157 | insertion keeps the list strictly ascending |
| LinkedList.LookupInsertSorted | LinkedList/src/linkedlist.c:37-157 | after inserting `k -> v`, looking up `k` gives `v` and every other key gives what it gave before |
| LinkedList.InsertSortedLength | LinkedList/src/linkedlist.c:155 | insertion grows the list by one exactly when the key was absent |
| LinkedList.RemoveInsertSorted | LinkedList/src/linkedlist.c:174-205 | removing a just-inserted key gives what removing it from the original gives; for an absent key, that is the original list |
| LinkedList.RemoveKeyAscending | LinkedList/src/linkedlist.c:174-205 | removal keeps the list strictly ascending |
| LinkedList.LookupRemoveKey | LinkedList/src/linkedlist.c:174-205 | after removing `k`, looking up `k` finds nothing and every other key gives what it gave before |
| LinkedList.RemoveKeyLength | LinkedList/src/linkedlist.c:196 | removal shrinks the list by one exactly when the key was present |
| LinkedList.Node.constructor | LinkedList/src/linkedlist.c:120-126 | a new node holds the given key, data and links |
| LinkedList.SortedList.Init | LinkedList/src/linkedlist.c:13-17 | a new list has null head and tail, size 0 and no entries |
| LinkedList.SortedList.Create | LinkedList/src/linkedlist.c:5-19 | null exactly when the comparator is missing or allocation fails; otherwise an empty list |
| LinkedList.SortedList.ValidAfterLink | LinkedList/src/linkedlist.c:144-155 | linking a fresh node between two neighbours, with head, tail and size adjusted, keeps the list well formed |
| LinkedList.SortedList.ValidAfterUnlink | LinkedList/src/linkedlist.c:181-196 | bypassing a node in both directions, with head, tail and size adjusted, keeps the list well formed |
| LinkedList.SortedList.Overwrite | LinkedList/src/linkedlist.c:55-63 | a node whose key compares equal takes the new key and data in place. Its old data and then its old key are released, which are exactly the releases insert promises for that present key, and the node sequence does not change. |
| LinkedList.SortedList.LinkNew | LinkedList/src/linkedlist.c:144-150 | at each of the allocation sites of `ll_insert` (this one and those at lines 42, 78, 91 and 120), for a key that belongs between two neighbours, which must then be absent: -1 with nothing changed when the node cannot be allocated, otherwise the node is linked there and size grows by one |
| LinkedList.SortedList.Link | LinkedList/src/linkedlist.c:144-155 | a fresh node is linked at its sorted position, every other node was already in the list, and the contents become the sorted insertion of the new key |
| LinkedList.SortedList.Unlink | LinkedList/src/linkedlist.c:181-196 | the node is cut out of the sequence, its key and then its data are released, and the list stays well formed |
| LinkedList.SortedList.Insert | LinkedList/src/linkedlist.c:37-157 | returns -1 exactly when a new key's node cannot be allocated, and then nothing changes. On success the contents are the sorted insertion of the key. Size grows by one exactly for a new key, and a replace releases the old data and then the old key. Every node afterwards was already in the list or is newly allocated. |
| LinkedList.SortedList.InsertFromTail | LinkedList/src/linkedlist.c:104-128 | the backward walk never meets null, because the head bounds it; it then replaces, or links after the last smaller key, as insert promises, with every node already in the list or newly allocated |
| LinkedList.SortedList.InsertFromHead | LinkedList/src/linkedlist.c:129-154 | the forward walk never meets null, because the tail bounds it; it then replaces, or links before the first greater key, as insert promises, with every node already in the list or newly allocated |
| LinkedList.SortedList.Locate | LinkedList/src/linkedlist.c:162-171 | the walk with early exit finds the key's node exactly when the key is present |
| LinkedList.SortedList.Get | LinkedList/src/linkedlist.c:159-172 | returns the data stored under the key, or nothing exactly when it is absent |
| LinkedList.SortedList.Remove | LinkedList/src/linkedlist.c:174-205 | returns 0 exactly when the key was present. On success the node at the key's position `p` is cut out of the node sequence, the rest kept in order, its key and data are released and size drops by one. Otherwise it returns -1 with nodes and releases unchanged. No node is added either way. |
| LinkedList.SortedList.Foreach | LinkedList/src/linkedlist.c:207-221 | visits the first `min(limit, size)` entries from the head (all when the limit is 0), in ascending key order |
| LinkedList.SortedList.ForeachReverse | LinkedList/src/linkedlist.c:223-239 | visits entries from the tail backwards: `min(limit, size)` of them, or all when the limit is 0 |
| LinkedList.SortedList.Size | LinkedList/src/linkedlist.c:241-243 | the size is the number of entries |
| LinkedList.SortedList.Destroy | LinkedList/src/linkedlist.c:21-35 | every node's key and then its data are released, from head to tail |
| Vector.MergePermutes | Vector/src/vector.c:124-138 | merging two runs yields exactly their elements |
| Vector.MergeIsSorted | Vector/src/vector.c:124-138 | merging two ascending runs yields an ascending run |
| Vector.MergeIsStable | Vector/src/vector.c:128-129 | taking from the left run on ties keeps, for every key, the left run's elements before the right run's, each in order |
| Vector.ShortIsStableSorted | Vector/src/vector.c:141-142 | a range of fewer than two elements is already stably sorted |
| Vector.MergeHalves | Vector/src/vector.c:140-150 | merging stable sorts of the two halves stably sorts the whole range |
| Vector.CopyRun | Vector/src/vector.c:134-137 | a drain loop copies the rest of one run and touches nothing else |
| Vector.MergeHeads | Vector/src/vector.c:125-132 | the head-to-head loop writes a prefix of the merge and stops when one run is exhausted |
| Vector.MergeRuns | Vector/src/vector.c:124-138 | `merge` writes exactly the merge of the two runs into `data[l..r)` and nothing outside it |
| Vector.CopyAndMerge | Vector/src/vector.c:148-149 | copying the sorted halves into the buffer and merging them back stably sorts the range |
| Vector.MergeSortRange | Vector/src/vector.c:140-150 | `merge_sort` leaves `data[l..r)` a stable sort of what it held, and everything outside unchanged |
| Vector.MoveUp | Vector/src/vector.c:91-92 | the shift for insert-after moves each element of the range one slot right |
| Vector.MoveDown | Vector/src/vector.c:107-108 | the shift for delete moves each later element one slot left, which removes the element at `lo` |
| Vector.RemovalKeepsSorted | Vector/src/vector.c:100-112 | deleting any element of an ascending run keeps it ascending, so delete may leave the flag set |
| Vector.Vector.Init | Vector/src/vector.c:37-41 | a new vector is empty with the given capacity, and its flag is cleared |
| Vector.Vector.Create | Vector/src/vector.c:21-44 | null exactly when the comparator is missing, the capacity is 0 or allocation fails; otherwise an empty, unsorted vector |
| Vector.Vector.Resize | Vector/src/vector.c:10-17 | on success the capacity is the new one and the elements are kept; on failure it returns -1 and nothing changes |
| Vector.Vector.PushBack | Vector/src/vector.c:69-77 | fails exactly when the vector is full and growing fails. On success the element is appended, capacity doubles if the vector was full, and the flag is cleared. On failure nothing changes. The storage array is the old one or a new one. |
| Vector.Vector.InsertAfter | Vector/src/vector.c:79-98 | fails exactly for an index past the end or a failed growth. On success the element lands at `index + 1`, later elements shift right, capacity doubles if the vector was full, and the flag is cleared. On failure nothing changes. The storage array is the old one or a new one. |
| Vector.Vector.Delete | Vector/src/vector.c:100-112 | fails exactly for an index past the end. On success that element is released and cut out, and the flag is left as it was. Capacity and the storage array are kept. |
| Vector.Vector.Get | Vector/src/vector.c:116-120 | gives nothing exactly when the index is past the end, and otherwise the element at the index |
| Vector.Vector.Clear | Vector/src/vector.c:46-57 | every element is released once, in order, and the vector becomes empty and unsorted with its capacity kept |
| Vector.Vector.Destroy | Vector/src/vector.c:59-65 | every element is released once, in order |
| Vector.Vector.SortStable | Vector/src/vector.c:152-163 | with at least two elements and a buffer, the elements become a stable sort of the old ones and the flag is set; otherwise nothing changes |
| Vector.Vector.BinarySearch | Vector/src/vector.c:167-183 | never answers while the flag is clear; a returned index holds the key, and while sorted it gives nothing only when no element has the key |
| Vector.Vector.Iterate | Vector/src/vector.c:187-201 | visits `(i, element i)` for ascending `i`: `min(limit, size)` callbacks, or all `size` when the limit is 0 |
| Vector.Vector.IterateReverse | Vector/src/vector.c:203-217 | visits `(i, element i)` for descending `i` from the last: `min(limit, size)` callbacks, or all `size` when the limit is 0 |
| Vector.Vector.IterateSorted | Vector/src/vector.c:219-228 | sorts first when the flag is clear, as `vector_sort_stable` would, in place in the same storage array, then iterates ascending |
| Vector.Vector.IterateSortedReverse | Vector/src/vector.c:230-239 | sorts first when the flag is clear, in place in the same storage array, then iterates descending |
| Vector.Vector.Size | Vector/src/vector.c:243-245 | the size is the number of elements |
| Vector.Vector.IsSorted | Vector/src/vector.c:247-249 | a set flag guarantees the elements are in ascending key order |

## Left out

- Null container and callback arguments (`if (!list)`, `if (!vec || !fn)` and the like) are not modelled. Every method takes a live container, and the iteration callbacks are represented by the returned visit sequences.
- The release and iteration callbacks are not run as code. Releases are appended to a ghost log, and what a callback does with its arguments or `user_data` is not modelled.
- Memory management is not modelled: `malloc`, `calloc`, `realloc`, `free`, and the freeing of nodes, entries and arrays in the destroy functions.
  - Whether an allocation succeeds is a boolean parameter wherever the source has a failure branch.
  - `memmove` and `memcpy` are element-by-element loops.
- `ht_create` does not check the `calloc` of the bucket array (hashtable.c:21). The model assumes that allocation succeeds; its one allocation flag covers the table itself.
- `HashTable.HashTable.Create`, `LinkedList.SortedList.Create`, `Vector.Vector.Create`: these do not model the case where an allocation after the first one fails. A single allocation flag stands for all of them.
- The floating-point load computation of `ht_insert` is replaced by the exact integer test `size * 4 > capacity * 3`. For sizes beyond the precision of a `double`, the two can differ.
- `size_t` arithmetic is unbounded here. The model does not capture overflow of `capacity * 2`, of the element-count multiplications, or of `(l + r) / 2`.
- Hash-table keys are compared with Dafny equality in place of `key_eq`, so the stored key and an equal incoming key are one value; `HashTable.HashTable.Insert` cannot show that the stored key object is kept and the incoming one released, only that a key release and then the old value's release happen.
- Keys of the list and the vector are `int`, and the comparator is any function that agrees in sign with the integer order (`SignConsistent`). Two distinct key objects that compare equal are therefore indistinguishable. Release logs record which key was released (the stored one or the incoming one) by the role it plays, not by identity.
- The hash function is an abstract `K -> nat`. The concrete `str_hash` and `int_hash` of the demo programs are not part of this model. Neither are the demo programs themselves, with their file input, output and string helpers.
- `LinkedList.SortedList.Insert`: the walk-direction test `-cmp_tail < cmp_head` is evaluated on unbounded integers, so the overflow of negating `INT_MIN` is not modelled.
- `ht_get` and `ll_get` return NULL both for an absent key and for a key stored with a NULL value. The model returns an `Option`, which keeps the two cases apart.
- `HashTable.HashTable.Destroy`, `LinkedList.SortedList.Destroy`, `Vector.Vector.Destroy`: these state the releases only. That the container's memory is freed afterwards is not modelled, and the object stays allocated in the model.
