# A verified model of a separately chained hash set

`hashset.c` implements the Set abstract data type as a hash table with
separate chaining. The table holds an array of buckets, and each bucket is
a singly linked list of nodes. The caller supplies a hash callback
(`hash(v, N)` picks one of `N` buckets), a comparison callback and an
optional callback that releases a value. The set keeps unique values. In
`add`, once more than `TRIGGER` (100) structural changes have accumulated,
the counter is reset, and the table doubles when the load exceeds the load
factor. Doubling is capped at `MAX_CAPACITY` (134217728, 2^27) buckets, and
a resize relinks each node onto the front of its new chain. `remove`
unlinks the node and hands its value to the release callback. `toArray`
and the iterator's `nodes` snapshot copy the values in bucket order, then
chain order.

The project has two modules:

- `Buckets` (`buckets.dfy`) is the value-level specification.
  - A bucket array is a `seq<seq<V>>`. Each chain is the sequence of values
    its list visits from the head.
  - `Flatten` concatenates the chains in bucket order.
  - `Inserted` prepends a value to the chain its hash selects.
  - `Scatter`/`Rehashed` describe exactly what the relinking loop of the
    resize builds.
  - `Consistent` is the table invariant:
    - the hash stays in range;
    - at least one bucket;
    - every value sits in the bucket its hash names;
    - `size` is the number of stored values;
    - no value is stored twice.
  - The lemmas `InsertPreserves`, `UnlinkPreserves`, `RehashPreserves` and
    `EmptyConsistent` show that each operation that changes the chains keeps
    that invariant, and what it does to the multiset of stored values. The
    other lemmas are sequence and multiset steps used by those proofs and
    by the loops.
- `HashSets` (`hashset.dfy`) is the imperative model.
  - The class `HashSet` has the fields of `SData` except the doubles `load`
    and `increment` and the `cmp` callback; `freeV` becomes the flag
    `hasFree` and the ghost log `released` (see "Left out"). The buckets are
    an `array<seq<V>>`.
  - Every operation of the file except `s_itCreate` is a method or a
    function that is proved against the `Buckets` functions. The C code's
    loops are loops in the model, except the predecessor scan of `s_remove`
    (see "Left out").
  - The caller's callbacks are modelled as follows:
    - `hash` is a function parameter and must return a bucket in range
      (`HashOk`);
    - `cmp(a, b) == 0` is modelled as `a == b`;
    - the release callback is a flag `hasFree` plus a ghost log `released`
      of the values it would receive, in call order.
  - A few client methods (`Scenario`, `SmallSet`, `AddNew`, `DuplicateScenario`,
    `RemoveScenario`, `ClearScenario`, `SnapshotScenario`) use the class
    with an integer hash.

`changes` follows the code. Only an actual insertion in `insertEntry` and
a successful `remove` increment it. An `add` of a value that is already
present leaves it alone.

## Model

| member | source | states |
|---|---|---|
| HashSets.InitialCapacity | hashset.c:294-296 | The starting bucket count is always in 1..MAX_CAPACITY. It is the default when the request is non-positive, the request when that is in range, and MAX_CAPACITY when the request is above it. |
| HashSets.InitialLoadFactor | hashset.c:298 | The load factor is always above 0.000001. It is the caller's value when that is above 0.000001, and the default otherwise. |
| HashSets.NewCapacity | hashset.c:95-99 | The resize target is min(2 * capacity, MAX_CAPACITY): twice the count when that fits, MAX_CAPACITY when doubling overshoots. It never shrinks the count, and it equals the old count exactly when the old count is already MAX_CAPACITY. |
| HashSets.AllocateBuckets | hashset.c:299-313 | A fresh bucket array of the requested length in which every chain is empty. |
| HashSets.HashSet.constructor | hashset.c:280-313 | A new set is valid and empty. Its capacity and load factor are the defaulted and capped values. Its counters are zero, every bucket is empty, and the hash and release callbacks are stored. |
| HashSets.HashSet.FindValue | hashset.c:74-87 | The reported bucket is hash(v, capacity). The result is the position of the first node equal to v in that chain, and it is None exactly when the chain holds no such node. |
| HashSets.HashSet.Contains | hashset.c:163-170 | The result is true exactly when v is in its hash bucket, and exactly when v is in the set's contents. |
| HashSets.HashSet.IsEmpty | hashset.c:172-176 | The result is true exactly when the set holds nothing. |
| HashSets.HashSet.Size | hashset.c:205-209 | The result is the number of stored values, counted with multiplicity. |
| HashSets.HashSet.Purge | hashset.c:37-53 | Every bucket ends empty, and the array, capacity and counters are unchanged. When a release callback is set, it receives every stored value exactly once, in bucket order and then chain order. |
| HashSets.HashSet.Destroy | hashset.c:56-63 | Every stored value goes to the release callback (when one is set) in traversal order, and every bucket ends empty. |
| HashSets.HashSet.Clear | hashset.c:65-72 | The set stays valid and becomes empty, with size and changes zero and the same bucket array. Every former value goes to the release callback when one is set. |
| HashSets.HashSet.Resize | hashset.c:90-121 | The capacity becomes NewCapacity of the old one. When it grows, the new fresh array is exactly the rehash of the old chains and changes is reset. When it cannot grow, nothing changes. The contents, the size and the invariant are preserved. |
| HashSets.HashSet.Relink | hashset.c:106-114 | Moving the nodes bucket by bucket, each to the front of the chain its hash picks, yields exactly Rehashed(old chains). |
| HashSets.HashSet.InsertEntry | hashset.c:126-141 | The value is prepended to chain hash(v, capacity). The contents gain v, size and changes each rise by one, and the invariant is kept. |
| HashSets.HashSet.ResizeCheck | hashset.c:151-155 | When changes exceeds TRIGGER, changes is reset, and a resize happens exactly when the load exceeds the load factor. Otherwise nothing changes. The contents are preserved. |
| HashSets.HashSet.Add | hashset.c:144-161 | The result is true exactly when v was absent, and then v is added. The capacity and changes follow the resize check. The new chains are the (possibly rehashed) old chains with v prepended to its bucket when it was added. |
| HashSets.HashSet.Remove | hashset.c:178-203 | The result is true exactly when v was stored. Then v leaves the contents, its node is spliced out of its own chain, size - 1 and changes + 1 follow, and the value is released. When v was absent, nothing changes. |
| HashSets.HashSet.UnlinkEntry | hashset.c:186-200 | Unlinking the k-th node of chain i removes exactly that value from the contents, lowers size, raises changes, releases the value and keeps the invariant. |
| HashSets.HashSet.Values | hashset.c:211-228 | The result is null exactly when the set is empty or the allocation fails. Otherwise it is a fresh array holding the stored values in bucket order, then chain order, with no value listed twice. |
| HashSets.HashSet.ToArray | hashset.c:230-239 | The empty set, a failed allocation and a successful export are told apart. An export has length size and holds the values in traversal order, pairwise distinct. |
| HashSets.HashSet.Nodes | hashset.c:241-258 | The result is the same snapshot as Values: null exactly when the set is empty or the allocation fails, otherwise the values in traversal order, pairwise distinct. |
| Buckets.EmptyBuckets | hashset.c:103-104 | A bucket array of n empty chains. |
| Buckets.Scatter | hashset.c:106-114 | Relinking values into a bucket array never changes its number of buckets. |
| Buckets.FlattenMember | hashset.c:218-224 | A value appears in the traversal exactly when some bucket's chain holds it. |
| Buckets.FlattenAllEmpty | hashset.c:40-52 | A table whose chains are all empty holds nothing. |
| Buckets.LookupBucket | hashset.c:76-85 | For a well-placed table, a value is stored exactly when its hash bucket holds it, so scanning one chain is enough. |
| Buckets.FlattenUpdate | hashset.c:133-134 | Replacing one chain changes the stored multiset by the difference between the old chain and the new one. |
| Buckets.InsertedContents | hashset.c:132-134 | Prepending to the hash bucket adds exactly one copy of the value to the stored multiset. |
| Buckets.InsertedWellPlaced | hashset.c:132-134 | Prepending to the hash bucket keeps every value in the bucket its hash names. |
| Buckets.UnlinkedContents | hashset.c:190-193 | Unlinking the k-th node of a chain removes exactly that one value from the stored multiset. |
| Buckets.UnlinkedWellPlaced | hashset.c:190-193 | Unlinking a node keeps every other value in the bucket its hash names. |
| Buckets.ScatterContents | hashset.c:106-114 | Relinking a list of values adds exactly those values to the stored multiset. |
| Buckets.ScatterWellPlaced | hashset.c:106-114 | Relinking with the new bucket count puts every value in the bucket that count's hash names. |
| Buckets.RehashedFacts | hashset.c:103-114 | The rehash into n buckets has n buckets, the same multiset of values, and every value well placed. |
| Buckets.DistinctSnapshot | hashset.c:218-224 | A traversal of a table without duplicates lists pairwise distinct values. |
| Buckets.EmptyConsistent | hashset.c:312-313 | A table of empty chains satisfies the invariant with size 0 and holds nothing. |
| Buckets.InsertPreserves | hashset.c:126-141 | Inserting an absent value keeps the invariant, with size + 1, and adds the value to the contents. |
| Buckets.UnlinkPreserves | hashset.c:186-196 | Unlinking a stored node keeps the invariant, with size - 1, and removes exactly that value. |
| Buckets.RehashPreserves | hashset.c:103-119 | Rehashing into n > 0 buckets keeps the invariant with the same size and the same contents. |

## Left out

- Floating point: the source tracks `load` and `increment` as doubles. The model uses the exact ratio `Load() = size / capacity`. After a resize capped at MAX_CAPACITY, `load /= 2.0` makes the C value differ from size/capacity. At that capacity a resize is a no-op, so that drift changes nothing. Rounding in the repeated `load += increment` can still make the comparison in `add` answer differently when the load is within rounding distance of the load factor.
- Allocation failure in `add`, `resize` and the constructor is not modelled: the model's allocations always succeed. Only `values`, `toArray` and `nodes` take the allocator's answer as a parameter (`allocOk`).
- `s_itCreate` and `Iterator_create` are not modelled. The iterator ADT is not part of this model; only the `nodes` snapshot it is built from is.
- The `Set` vtable (`template`) and the `self` indirection: the methods of the class take its place.
- The concrete callbacks: the hash is any function that stays in range, `cmp` is value equality, and the release callback is only recorded in the ghost `released` log.
- HashSets.HashSet.Destroy: freeing the nodes, the bucket array and the handle is not modelled. The method only releases the values and empties the buckets.
- HashSets.HashSet.Resize: freeing the old bucket array is not modelled.
- HashSets.HashSet.Remove: the predecessor scan of lines 188-189 compares node pointers. The model splices out the position that FindValue reports, which is the same node.
- `DEFAULT_SET_CAPACITY` and `DEFAULT_LOAD_FACTOR` are defined in `hashset.h`, which is not part of this model. The model uses 16 and 0.75. The proofs rely only on their being positive and at most MAX_CAPACITY, and on the load factor being above the floor.
- Integer widths: `long` counters and resize's `int N` become unbounded naturals. The capacity never exceeds 2^27, so `2*capacity` fits in an `int` and nothing wraps.
