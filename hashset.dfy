/**
 * A separately chained hash set that updates its state in place.
 *
 * The class HashSet stands for the table state SData together with the
 * handle that owns it. The bucket array is an array of chains; a chain is
 * the sequence of values its linked list visits from the head. The caller's
 * callbacks are parameters: hash is a function the caller promises to keep
 * in range, equality of values stands for cmp(a, b) == 0, and the release
 * callback freeV is a flag hasFree together with a ghost log `released` of
 * every value handed to it, in call order.
 */
module HashSets {
  import opened Buckets

  /** The hard ceiling on the number of buckets. */
  const MAX_CAPACITY: nat := 134217728
  /** Number of structural changes after which add looks at the load. */
  const TRIGGER: nat := 100
  /** Bucket count used when the caller asks for a non-positive one. */
  const DEFAULT_SET_CAPACITY: nat := 16
  /** Load factor used when the caller's is at or below LOAD_FACTOR_FLOOR. */
  const DEFAULT_LOAD_FACTOR: real := 0.75
  const LOAD_FACTOR_FLOOR: real := 0.000001

  datatype Option<T> = None | Some(value: T)

  /**
   * The outcome of exporting the values: an empty set and a failed
   * allocation are told apart, which the null result of toArray does not do.
   */
  datatype Export<V> = EmptySet | AllocationFailed | Exported(values: array<V>, len: nat)

  /** The bucket count a new set starts with. */
  function InitialCapacity(capacity: int): (n: nat)
    ensures 0 < n <= MAX_CAPACITY
    ensures capacity <= 0 ==> n == DEFAULT_SET_CAPACITY
    ensures 0 < capacity <= MAX_CAPACITY ==> n == capacity
    ensures capacity > MAX_CAPACITY ==> n == MAX_CAPACITY
  {
    var n := if capacity > 0 then capacity else DEFAULT_SET_CAPACITY;
    if n > MAX_CAPACITY then MAX_CAPACITY else n
  }

  /** The load factor a new set uses. */
  function InitialLoadFactor(loadFactor: real): (lf: real)
    ensures lf > LOAD_FACTOR_FLOOR
    ensures loadFactor > LOAD_FACTOR_FLOOR ==> lf == loadFactor
    ensures loadFactor <= LOAD_FACTOR_FLOOR ==> lf == DEFAULT_LOAD_FACTOR
  {
    if loadFactor > LOAD_FACTOR_FLOOR then loadFactor else DEFAULT_LOAD_FACTOR
  }

  /** The bucket count a resize aims for: double, but never above the ceiling. */
  function NewCapacity(capacity: nat): (n: nat)
    requires 0 < capacity <= MAX_CAPACITY
    ensures capacity <= n <= MAX_CAPACITY && n <= 2 * capacity
    ensures n == capacity <==> capacity == MAX_CAPACITY
    ensures 2 * capacity <= MAX_CAPACITY ==> n == 2 * capacity
    ensures 2 * capacity > MAX_CAPACITY ==> n == MAX_CAPACITY
  {
    var n := 2 * capacity;
    if n > MAX_CAPACITY then MAX_CAPACITY else n
  }

  /** A new bucket array of n slots, every chain empty. */
  method AllocateBuckets<V>(n: nat) returns (arr: array<seq<V>>)
    ensures fresh(arr) && arr.Length == n
    ensures forall i :: 0 <= i < n ==> arr[i] == []
  {
    arr := new seq<V>[n];
    for i := 0 to n
      invariant forall k :: 0 <= k < i ==> arr[k] == []
    {
      arr[i] := [];
    }
  }

  class HashSet<V(==,0,!new)> {
    var buckets: array<seq<V>>
    var capacity: nat
    var size: nat
    var changes: nat
    const loadFactor: real
    const hash: (V, int) -> int
    const hasFree: bool
    ghost var released: seq<V>

    /** The stored values in bucket-major, then chain, order. */
    ghost function Elements(): seq<V>
      reads this, buckets
    {
      Flatten(buckets[..])
    }

    /** The stored values as a multiset: the abstract value of the set. */
    ghost function Contents(): multiset<V>
      reads this, buckets
    {
      multiset(Elements())
    }

    ghost predicate Valid()
      reads this, buckets
    {
      buckets.Length == capacity && capacity <= MAX_CAPACITY &&
      loadFactor > LOAD_FACTOR_FLOOR &&
      Consistent(buckets[..], hash, size)
    }

    /** size / capacity, exactly; the source tracks it in floating point. */
    function Load(): real
      reads this
      requires capacity > 0
    {
      size as real / capacity as real
    }

    constructor (freeValue: bool, capacity: int, loadFactor: real, hash: (V, int) -> int)
      requires HashOk(hash)
      ensures Valid() && fresh(buckets)
      ensures this.capacity == InitialCapacity(capacity)
      ensures this.loadFactor == InitialLoadFactor(loadFactor)
      ensures this.hash == hash && hasFree == freeValue
      ensures forall i :: 0 <= i < this.capacity ==> buckets[i] == []
      ensures size == 0 && changes == 0 && released == [] && Contents() == multiset{}
    {
      var n := InitialCapacity(capacity);
      var arr := AllocateBuckets<V>(n);
      this.capacity := n;
      this.loadFactor := InitialLoadFactor(loadFactor);
      this.size := 0;
      this.changes := 0;
      this.hash := hash;
      this.hasFree := freeValue;
      this.buckets := arr;
      this.released := [];
      new;
      EmptyConsistent(buckets[..], hash);
    }

    /**
     * Scan the one chain hash(v, capacity) selects for the first node equal
     * to v; report its position in the chain, or None, and the bucket.
     */
    method FindValue(v: V) returns (node: Option<nat>, bucket: nat)
      requires Valid()
      ensures bucket == hash(v, capacity) && bucket < capacity
      ensures node.Some? ==> node.value < |buckets[bucket]| && buckets[bucket][node.value] == v
      ensures node.Some? ==> v !in buckets[bucket][..node.value]
      ensures node.None? <==> v !in buckets[bucket]
    {
      bucket := hash(v, capacity);
      var chain := buckets[bucket];
      var k := 0;
      while k < |chain| && chain[k] != v
        invariant 0 <= k <= |chain|
        invariant v !in chain[..k]
      {
        k := k + 1;
      }
      node := if k < |chain| then Some(k) else None;
    }

    method Contains(v: V) returns (b: bool)
      requires Valid()
      ensures b <==> v in buckets[hash(v, capacity)]
      ensures b <==> v in Contents()
    {
      var node, bucket := FindValue(v);
      b := node.Some?;
      LookupBucket(buckets[..], hash, v);
    }

    function IsEmpty(): (b: bool)
      reads this, buckets
      requires Valid()
      ensures b <==> Contents() == multiset{}
    {
      size == 0
    }

    function Size(): (n: nat)
      reads this, buckets
      requires Valid()
      ensures n == |Contents()|
    {
      size
    }

    /**
     * Release every stored value (when a release callback is configured), in
     * bucket-major, then chain, order, and empty every bucket. The counters
     * are left alone: the callers reset or discard them.
     */
    method Purge()
      requires buckets.Length == capacity
      modifies this, buckets
      ensures buckets == old(buckets) && capacity == old(capacity)
      ensures size == old(size) && changes == old(changes)
      ensures forall i :: 0 <= i < capacity ==> buckets[i] == []
      ensures released == old(released) + (if hasFree then old(Elements()) else [])
    {
      ghost var bs := buckets[..];
      for i := 0 to capacity
        invariant buckets == old(buckets) && capacity == old(capacity)
        invariant size == old(size) && changes == old(changes)
        invariant forall j :: 0 <= j < i ==> buckets[j] == []
        invariant forall j :: i <= j < capacity ==> buckets[j] == bs[j]
        invariant released == old(released) + (if hasFree then Flatten(bs[..i]) else [])
      {
        var chain := buckets[i];
        var k := 0;
        while k < |chain|
          modifies this
          invariant 0 <= k <= |chain|
          invariant buckets == old(buckets) && capacity == old(capacity)
          invariant size == old(size) && changes == old(changes)
          invariant released == old(released) + (if hasFree then Flatten(bs[..i]) + chain[..k] else [])
        {
          if hasFree {
            released := released + [chain[k]];
          }
          k := k + 1;
        }
        assert chain[..k] == chain;
        buckets[i] := [];
        FlattenStep(bs, i);
      }
      assert bs[..capacity] == bs;
    }

    /** Release every value of the set; the storage itself is not modelled. */
    method Destroy()
      requires Valid()
      modifies this, buckets
      ensures buckets == old(buckets) && capacity == old(capacity)
      ensures forall i :: 0 <= i < capacity ==> buckets[i] == []
      ensures released == old(released) + (if hasFree then old(Elements()) else [])
    {
      Purge();
    }

    /** Release every value and reset the counters, keeping the bucket array. */
    method Clear()
      requires Valid()
      modifies this, buckets
      ensures Valid() && buckets == old(buckets) && capacity == old(capacity)
      ensures Contents() == multiset{} && size == 0 && changes == 0
      ensures forall i :: 0 <= i < capacity ==> buckets[i] == []
      ensures released == old(released) + (if hasFree then old(Elements()) else [])
    {
      Purge();
      size := 0;
      changes := 0;
      EmptyConsistent(buckets[..], hash);
    }

    /**
     * Double the bucket count (capped at MAX_CAPACITY) and relink every node
     * into a new bucket array; nothing happens when the count cannot grow.
     */
    method Resize()
      requires Valid()
      modifies this
      ensures Valid()
      ensures capacity == NewCapacity(old(capacity))
      ensures size == old(size) && released == old(released)
      ensures Contents() == old(Contents())
      ensures capacity == old(capacity) ==> buckets == old(buckets) && changes == old(changes)
      ensures capacity != old(capacity) ==> fresh(buckets) && changes == 0
      ensures buckets[..] == if capacity == old(capacity) then old(buckets[..])
                             else Rehashed(old(buckets[..]), capacity, hash)
    {
      var n := NewCapacity(capacity);
      if n == capacity {
        return;
      }
      var arr := AllocateBuckets<V>(n);
      ghost var bs := buckets[..];
      Relink(arr);
      RehashPreserves(bs, hash, size, n);
      buckets := arr;
      capacity := n;
      changes := 0;
      assert buckets[..] == Rehashed(bs, n, hash);
    }

    /**
     * Move every node, visiting the buckets in order and each chain from its
     * head, onto the front of the chain of arr its hash selects.
     */
    method Relink(arr: array<seq<V>>)
      requires buckets.Length == capacity && HashOk(hash)
      requires arr != buckets && arr.Length > 0
      requires forall j :: 0 <= j < arr.Length ==> arr[j] == []
      modifies arr
      ensures arr[..] == Rehashed(buckets[..], arr.Length, hash)
    {
      ghost var bs := buckets[..];
      ghost var start := arr[..];
      assert start == EmptyBuckets(arr.Length);
      for i := 0 to capacity
        invariant arr[..] == Scatter(start, Flatten(bs[..i]), hash)
      {
        var chain := buckets[i];
        var k := 0;
        assert Flatten(bs[..i]) + chain[..k] == Flatten(bs[..i]);
        while k < |chain|
          invariant 0 <= k <= |chain|
          invariant arr[..] == Scatter(start, Flatten(bs[..i]) + chain[..k], hash)
        {
          var v := chain[k];
          var j := hash(v, arr.Length);
          ScatterStep(start, Flatten(bs[..i]) + chain[..k], v, hash);
          AppendStep(Flatten(bs[..i]), chain, k);
          arr[j] := [v] + arr[j];
          k := k + 1;
        }
        assert chain[..k] == chain;
        FlattenStep(bs, i);
      }
      assert bs[..capacity] == bs;
    }

    /** Prepend v to chain i, the chain hash(v, capacity) selects. */
    method InsertEntry(v: V, i: nat)
      requires Valid() && i == hash(v, capacity) && v !in Contents()
      modifies this, buckets
      ensures Valid() && buckets == old(buckets) && capacity == old(capacity)
      ensures buckets[..] == Inserted(old(buckets[..]), v, hash)
      ensures Contents() == old(Contents()) + multiset{v}
      ensures size == old(size) + 1 && changes == old(changes) + 1
      ensures released == old(released)
    {
      ghost var bs := buckets[..];
      InsertPreserves(bs, hash, size, v);
      buckets[i] := [v] + buckets[i];
      size := size + 1;
      changes := changes + 1;
      assert buckets[..] == Inserted(bs, v, hash);
    }

    /**
     * Add v unless an equal value is stored, after the resize check
     * (ResizeCheck) that every call makes first.
     */
    method Add(v: V) returns (added: bool)
      requires Valid()
      modifies this, buckets
      ensures Valid() && released == old(released)
      ensures added <==> v !in old(Contents())
      ensures Contents() == if added then old(Contents()) + multiset{v} else old(Contents())
      ensures size == old(size) + (if added then 1 else 0)
      ensures capacity == if old(changes) > TRIGGER && old(Load()) > loadFactor
                          then NewCapacity(old(capacity)) else old(capacity)
      ensures changes == (if old(changes) > TRIGGER then 0 else old(changes)) + (if added then 1 else 0)
      ensures capacity == old(capacity) ==> buckets == old(buckets)
      ensures capacity != old(capacity) ==> fresh(buckets)
      ensures capacity == old(capacity) ==>
        buckets[..] == if added then Inserted(old(buckets[..]), v, hash) else old(buckets[..])
      ensures capacity != old(capacity) ==>
        var rehashed := Rehashed(old(buckets[..]), capacity, hash);
        buckets[..] == if added then Inserted(rehashed, v, hash) else rehashed
    {
      ResizeCheck();
      ghost var mid := buckets[..];
      var node, i := FindValue(v);
      LookupBucket(buckets[..], hash, v);
      if node.None? {
        InsertEntry(v, i);
        added := true;
      } else {
        added := false;
      }
      assert buckets[..] == if added then Inserted(mid, v, hash) else mid;
    }

    /**
     * The check at the start of add: once more than TRIGGER changes have
     * accumulated, reset the counter and resize when the load exceeds the
     * load factor.
     */
    method ResizeCheck()
      requires Valid()
      modifies this
      ensures Valid() && size == old(size) && released == old(released)
      ensures Contents() == old(Contents())
      ensures changes == if old(changes) > TRIGGER then 0 else old(changes)
      ensures capacity == if old(changes) > TRIGGER && old(Load()) > loadFactor
                          then NewCapacity(old(capacity)) else old(capacity)
      ensures capacity == old(capacity) ==> buckets == old(buckets)
      ensures capacity != old(capacity) ==>
        fresh(buckets) && buckets[..] == Rehashed(old(buckets[..]), capacity, hash)
    {
      if changes > TRIGGER {
        changes := 0;
        if Load() > loadFactor {
          Resize();
        }
      }
    }

    /**
     * Unlink the node equal to v from its chain and release its value; no
     * change when v is not stored.
     */
    method Remove(v: V) returns (removed: bool)
      requires Valid()
      modifies this, buckets
      ensures Valid() && buckets == old(buckets) && capacity == old(capacity)
      ensures removed <==> v in old(Contents())
      ensures old(Contents()) == Contents() + (if removed then multiset{v} else multiset{})
      ensures size == old(size) - (if removed then 1 else 0)
      ensures changes == old(changes) + (if removed then 1 else 0)
      ensures released == old(released) + (if removed && hasFree then [v] else [])
      ensures !removed ==> buckets[..] == old(buckets[..])
      ensures removed ==>
        var h := hash(v, capacity);
        var chain := old(buckets[h]);
        exists k :: 0 <= k < |chain| && chain[k] == v &&
          buckets[..] == old(buckets[..])[h := chain[..k] + chain[k + 1..]]
    {
      var node, i := FindValue(v);
      LookupBucket(buckets[..], hash, v);
      if node.Some? {
        ghost var bs := buckets[..];
        var k := node.value;
        UnlinkEntry(i, k);
        assert buckets[..] == bs[i := bs[i][..k] + bs[i][k + 1..]];
        removed := true;
      } else {
        removed := false;
      }
    }

    /** Unlink the k-th node of chain i and release its value. */
    method UnlinkEntry(i: nat, k: nat)
      requires Valid() && i < capacity && k < |buckets[i]|
      modifies this, buckets
      ensures Valid() && buckets == old(buckets) && capacity == old(capacity)
      ensures buckets[..] == old(buckets[..])[i := old(buckets[i])[..k] + old(buckets[i])[k + 1..]]
      ensures old(Contents()) == Contents() + multiset{old(buckets[i])[k]}
      ensures size == old(size) - 1 && changes == old(changes) + 1
      ensures released == old(released) + (if hasFree then [old(buckets[i])[k]] else [])
    {
      ghost var bs := buckets[..];
      var chain := buckets[i];
      UnlinkPreserves(bs, hash, size, i, k);
      buckets[i] := chain[..k] + chain[k + 1..];
      assert buckets[..] == bs[i := chain[..k] + chain[k + 1..]];
      size := size - 1;
      changes := changes + 1;
      if hasFree {
        released := released + [chain[k]];
      }
    }

    /**
     * A fresh array of all stored values in bucket-major, then chain, order;
     * null when the set is empty or the allocation fails (allocOk stands for
     * the allocator's answer).
     */
    method Values(allocOk: bool) returns (temp: array?<V>)
      requires Valid()
      ensures temp == null <==> size == 0 || !allocOk
      ensures temp != null ==> fresh(temp) && temp[..] == Elements()
      ensures temp != null ==> forall i, j :: 0 <= i < j < temp.Length ==> temp[i] != temp[j]
    {
      temp := null;
      if size > 0 && allocOk {
        var out := new V[size];
        ghost var bs := buckets[..];
        var n := 0;
        for i := 0 to capacity
          modifies out
          invariant n <= out.Length
          invariant n == |Flatten(bs[..i])| && out[..n] == Flatten(bs[..i])
        {
          var chain := buckets[i];
          FlattenStep(bs, i);
          FlattenPrefixLength(bs, i + 1);
          var k := 0;
          while k < |chain|
            modifies out
            invariant 0 <= k <= |chain| && n <= out.Length
            invariant n == |Flatten(bs[..i])| + k
            invariant out[..n] == Flatten(bs[..i]) + chain[..k]
          {
            out[n] := chain[k];
            assert out[..n + 1] == out[..n] + [chain[k]];
            AppendStep(Flatten(bs[..i]), chain, k);
            n := n + 1;
            k := k + 1;
          }
          assert chain[..k] == chain;
        }
        assert bs[..capacity] == bs;
        assert out[..] == out[..n];
        DistinctSnapshot(out[..]);
        temp := out;
      }
    }

    /** The export behind toArray, with the empty and the failed case told apart. */
    method ToArray(allocOk: bool) returns (r: Export<V>)
      requires Valid()
      ensures r.EmptySet? <==> size == 0
      ensures r.AllocationFailed? <==> size > 0 && !allocOk
      ensures r.Exported? ==> fresh(r.values) && r.len == size && r.values[..] == Elements()
      ensures r.Exported? ==> forall i, j :: 0 <= i < j < r.values.Length ==> r.values[i] != r.values[j]
    {
      var temp := Values(allocOk);
      if temp != null {
        r := Exported(temp, size);
      } else if size == 0 {
        r := EmptySet;
      } else {
        r := AllocationFailed;
      }
    }

    /** The snapshot an iterator is built from: the same values as Values. */
    method Nodes(allocOk: bool) returns (temp: array?<V>)
      requires Valid()
      ensures temp == null <==> size == 0 || !allocOk
      ensures temp != null ==> fresh(temp) && temp[..] == Elements()
      ensures temp != null ==> forall i, j :: 0 <= i < j < temp.Length ==> temp[i] != temp[j]
    {
      temp := Values(allocOk);
    }
  }

  /** A hash on integers in the range the set's contract asks for. */
  function IntHash(x: int, n: int): int
  {
    if n > 0 then x % n else 0
  }

  lemma IntHashOk()
    ensures HashOk(IntHash)
  {
  }

  /** A client: a set of integers with four buckets and no release callback. */
  method Scenario()
  {
    var s := SmallSet();
    DuplicateScenario(s);
    RemoveScenario(s);
  }

  /** A client: a fresh set of four buckets that 1, 2 and 3 are added to. */
  method SmallSet() returns (s: HashSet<int>)
    ensures fresh(s) && fresh(s.buckets) && s.Valid()
    ensures s.Contents() == multiset{1, 2, 3}
  {
    IntHashOk();
    s := new HashSet<int>(false, 4, 0.75, IntHash);
    assert s.capacity == 4 && s.IsEmpty();
    AddNew(s, 1);
    AddNew(s, 2);
    AddNew(s, 3);
    assert s.Size() == 3;
  }

  /** A client: adding an absent value, well before the resize check, stores it. */
  method AddNew(s: HashSet<int>, v: int)
    requires s.Valid() && v !in s.Contents() && s.changes < TRIGGER
    modifies s, s.buckets
    ensures s.Valid() && s.buckets == old(s.buckets)
    ensures s.Contents() == old(s.Contents()) + multiset{v} && s.changes == old(s.changes) + 1
  {
    var added := s.Add(v);
    assert added;
  }

  /** A client: adding a stored value again changes nothing. */
  method DuplicateScenario(s: HashSet<int>)
    requires s.Valid() && s.Contents() == multiset{1, 2, 3}
    modifies s, s.buckets
    ensures s.Valid() && s.Contents() == multiset{1, 2, 3}
    ensures s.buckets == old(s.buckets) || fresh(s.buckets)
  {
    var again := s.Add(2);
    assert !again && s.Size() == 3;
  }

  /** A client: a removed value is no longer contained. */
  method RemoveScenario(s: HashSet<int>)
    requires s.Valid() && s.Contents() == multiset{1, 2, 3}
    modifies s, s.buckets
  {
    var r := s.Remove(2);
    assert s.Contents() == multiset{1, 3};
    assert r && s.Size() == 2;
    var c := s.Contains(2);
    assert !c;
  }

  /** A client: after Clear the set is empty and a former member can be added again. */
  method ClearScenario(s: HashSet<int>, v: int)
    requires s.Valid()
    modifies s, s.buckets
  {
    s.Clear();
    assert s.IsEmpty();
    var c := s.Contains(v);
    assert !c;
    var a := s.Add(v);
    assert a && s.Size() == 1;
  }

  /** A client: an exported snapshot does not follow later changes of the set. */
  method SnapshotScenario(s: HashSet<int>, v: int)
    requires s.Valid()
    modifies s, s.buckets
  {
    var snap := s.ToArray(true);
    if snap.Exported? {
      ghost var before := snap.values[..];
      var r := s.Remove(v);
      var a := s.Add(v);
      assert snap.values[..] == before;
    }
  }
}
