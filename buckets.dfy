/**
 * The bucket store of a separately chained hash set, as a value: a sequence
 * of chains, one per bucket, each chain a sequence of stored values in the
 * order its linked list visits them (head first).
 *
 * The functions here are the specification the imperative class in module
 * HashSets is proved against: the bucket-major snapshot of all values
 * (Flatten), where every value must sit (WellPlaced), what prepending a value
 * does (Inserted) and what rehashing into a fresh bucket array produces
 * (Rehashed). The lemmas state what those operations do to the stored
 * values as a multiset.
 */
module Buckets {

  /** The caller's promise about its hash callback: hash(v, n) lies in [0, n). */
  ghost predicate HashOk<V(!new)>(hash: (V, int) -> int)
  {
    forall v, n :: 0 < n ==> 0 <= hash(v, n) < n
  }

  /** All stored values, bucket by bucket and, within a bucket, in chain order. */
  function Flatten<V(!new)>(bs: seq<seq<V>>): seq<V>
  {
    if bs == [] then [] else Flatten(bs[..|bs| - 1]) + bs[|bs| - 1]
  }

  /** Every value lies in the bucket its hash selects for the current number of buckets. */
  ghost predicate WellPlaced<V(!new)>(bs: seq<seq<V>>, hash: (V, int) -> int)
  {
    forall i, k :: 0 <= i < |bs| && 0 <= k < |bs[i]| ==> hash(bs[i][k], |bs|) == i
  }

  /** No value is stored twice. */
  ghost predicate NoDuplicates<V(!new)>(m: multiset<V>)
  {
    forall x | x in m :: m[x] <= 1
  }

  /**
   * What the table keeps true of its store of `size` values: at least one
   * bucket, every value in the bucket its hash selects, size equal to the
   * total chain length, and no value stored twice.
   */
  ghost predicate Consistent<V(!new)>(bs: seq<seq<V>>, hash: (V, int) -> int, size: nat)
  {
    HashOk(hash) && |bs| > 0 && WellPlaced(bs, hash) &&
    size == |Flatten(bs)| && NoDuplicates(multiset(Flatten(bs)))
  }

  /** A freshly allocated bucket array of n empty chains. */
  function EmptyBuckets<V(!new)>(n: nat): (bs: seq<seq<V>>)
    ensures |bs| == n
    ensures forall i :: 0 <= i < n ==> bs[i] == []
  {
    seq(n, _ => [])
  }

  /** Prepend v to the chain of the bucket its hash selects. */
  function Inserted<V(!new)>(bs: seq<seq<V>>, v: V, hash: (V, int) -> int): seq<seq<V>>
    requires HashOk(hash) && |bs| > 0
  {
    var i := hash(v, |bs|);
    bs[i := [v] + bs[i]]
  }

  /** Prepend the values of s, one after the other in the order of s, to acc. */
  function Scatter<V(!new)>(acc: seq<seq<V>>, s: seq<V>, hash: (V, int) -> int): (r: seq<seq<V>>)
    requires HashOk(hash) && |acc| > 0
    ensures |r| == |acc|
    decreases |s|
  {
    if s == [] then acc
    else Inserted(Scatter(acc, s[..|s| - 1], hash), s[|s| - 1], hash)
  }

  /**
   * The bucket array a rehash into n buckets produces: start from n empty
   * chains and relink every node, visiting the old buckets in order and each
   * chain from its head, onto the front of the chain hash(v, n) selects.
   */
  function Rehashed<V(!new)>(bs: seq<seq<V>>, n: nat, hash: (V, int) -> int): seq<seq<V>>
    requires HashOk(hash) && n > 0
  {
    Scatter(EmptyBuckets(n), Flatten(bs), hash)
  }

  // ---------------------------------------------------------------------
  // Lemmas about Flatten

  lemma FlattenStep<V(!new)>(bs: seq<seq<V>>, i: nat)
    requires i < |bs|
    ensures Flatten(bs[..i + 1]) == Flatten(bs[..i]) + bs[i]
  {
    assert bs[..i + 1][..i] == bs[..i];
  }

  /** One more element of chain c joins a prefix that a precedes. */
  lemma AppendStep<V(!new)>(a: seq<V>, c: seq<V>, k: nat)
    requires k < |c|
    ensures a + c[..k] + [c[k]] == a + c[..k + 1]
  {
  }

  lemma {:induction false} FlattenPrefixLength<V(!new)>(bs: seq<seq<V>>, i: nat)
    requires i <= |bs|
    ensures |Flatten(bs[..i])| <= |Flatten(bs)|
    decreases |bs| - i
  {
    if i < |bs| {
      FlattenStep(bs, i);
      FlattenPrefixLength(bs, i + 1);
    } else {
      assert bs[..i] == bs;
    }
  }

  /** A store whose chains are all empty holds no value. */
  lemma {:induction false} FlattenAllEmpty<V(!new)>(bs: seq<seq<V>>)
    requires forall i :: 0 <= i < |bs| ==> bs[i] == []
    ensures Flatten(bs) == []
  {
    if bs != [] {
      FlattenAllEmpty(bs[..|bs| - 1]);
    }
  }

  /** A value is stored iff some chain holds it. */
  lemma {:induction false} FlattenMember<V(!new)>(bs: seq<seq<V>>, v: V)
    ensures v in Flatten(bs) <==> exists i :: 0 <= i < |bs| && v in bs[i]
  {
    if bs != [] {
      var init := bs[..|bs| - 1];
      FlattenMember(init, v);
      if v in Flatten(bs) {
        if v in Flatten(init) {
          var i :| 0 <= i < |init| && v in init[i];
          assert bs[i] == init[i];
        } else {
          assert v in bs[|bs| - 1];
        }
      } else {
        forall i | 0 <= i < |bs| ensures v !in bs[i] {
          if i < |bs| - 1 {
            assert init[i] == bs[i];
          }
        }
      }
    }
  }

  /**
   * In a well-placed store a lookup need only scan one chain: v is stored
   * iff the chain of bucket hash(v, |bs|) holds it.
   */
  lemma LookupBucket<V(!new)>(bs: seq<seq<V>>, hash: (V, int) -> int, v: V)
    requires HashOk(hash) && |bs| > 0 && WellPlaced(bs, hash)
    ensures v in Flatten(bs) <==> v in bs[hash(v, |bs|)]
  {
    FlattenMember(bs, v);
    if v in Flatten(bs) {
      var i :| 0 <= i < |bs| && v in bs[i];
      var k :| 0 <= k < |bs[i]| && bs[i][k] == v;
      assert hash(bs[i][k], |bs|) == i;
    }
  }

  /** Replacing one chain replaces its values, and only its values, in the snapshot. */
  lemma {:induction false} FlattenUpdate<V(!new)>(bs: seq<seq<V>>, i: nat, c: seq<V>)
    requires i < |bs|
    ensures multiset(Flatten(bs[i := c])) + multiset(bs[i]) == multiset(Flatten(bs)) + multiset(c)
  {
    var n := |bs| - 1;
    var bs' := bs[i := c];
    assert Flatten(bs') == Flatten(bs'[..n]) + bs'[n];
    assert Flatten(bs) == Flatten(bs[..n]) + bs[n];
    var front := multiset(Flatten(bs[..n]));
    assert multiset(Flatten(bs)) == front + multiset(bs[n]);
    if i == n {
      assert bs'[..n] == bs[..n];
      assert multiset(Flatten(bs')) == front + multiset(c);
    } else {
      assert bs'[..n] == bs[..n][i := c];
      FlattenUpdate(bs[..n], i, c);
      var front' := multiset(Flatten(bs[..n][i := c]));
      assert front' + multiset(bs[i]) == front + multiset(c);
      assert multiset(Flatten(bs')) == front' + multiset(bs[n]);
      ShiftSummand(front', front, multiset(bs[n]), multiset(bs[i]), multiset(c));
    }
  }

  /** Adding the same multiset to both sides of an equation of sums keeps it. */
  lemma ShiftSummand<V(!new)>(a: multiset<V>, b: multiset<V>, x: multiset<V>, d: multiset<V>, e: multiset<V>)
    requires a + d == b + e
    ensures (a + x) + d == (b + x) + e
  {
    forall y ensures ((a + x) + d)[y] == ((b + x) + e)[y] {
      assert (a + d)[y] == (b + e)[y];
    }
  }

  /** A summand common to both sides of an equation cancels. */
  lemma Cancel<V(!new)>(a: multiset<V>, b: multiset<V>, d: multiset<V>)
    requires a + d == b + d
    ensures a == b
  {
    forall y ensures a[y] == b[y] {
      assert (a + d)[y] == (b + d)[y];
    }
  }

  // ---------------------------------------------------------------------
  // Insertion, removal and rehashing

  /** Prepending v adds exactly one copy of v to the stored values. */
  lemma InsertedContents<V(!new)>(bs: seq<seq<V>>, v: V, hash: (V, int) -> int)
    requires HashOk(hash) && |bs| > 0
    ensures multiset(Flatten(Inserted(bs, v, hash))) == multiset(Flatten(bs)) + multiset{v}
  {
    var i := hash(v, |bs|);
    var before, after := multiset(Flatten(bs)), multiset(Flatten(Inserted(bs, v, hash)));
    FlattenUpdate(bs, i, [v] + bs[i]);
    assert multiset([v] + bs[i]) == multiset{v} + multiset(bs[i]);
    assert after + multiset(bs[i]) == (before + multiset{v}) + multiset(bs[i]);
    Cancel(after, before + multiset{v}, multiset(bs[i]));
  }

  /** Prepending v to the bucket its hash selects keeps every value in its bucket. */
  lemma InsertedWellPlaced<V(!new)>(bs: seq<seq<V>>, v: V, hash: (V, int) -> int)
    requires HashOk(hash) && |bs| > 0 && WellPlaced(bs, hash)
    ensures |Inserted(bs, v, hash)| == |bs| && WellPlaced(Inserted(bs, v, hash), hash)
  {
  }

  /**
   * Unlinking the k-th node of chain i removes exactly one copy of that
   * node's value from the stored values.
   */
  lemma UnlinkedContents<V(!new)>(bs: seq<seq<V>>, i: nat, k: nat)
    requires i < |bs| && k < |bs[i]|
    ensures var r := bs[i := bs[i][..k] + bs[i][k + 1..]];
      multiset(Flatten(bs)) == multiset(Flatten(r)) + multiset{bs[i][k]}
  {
    var c := bs[i][..k] + bs[i][k + 1..];
    var before, after := multiset(Flatten(bs)), multiset(Flatten(bs[i := c]));
    FlattenUpdate(bs, i, c);
    SpliceMultiset(bs[i], k);
    assert (after + multiset{bs[i][k]}) + multiset(c) == before + multiset(c);
    Cancel(after + multiset{bs[i][k]}, before, multiset(c));
  }

  lemma SpliceMultiset<V(!new)>(c: seq<V>, k: nat)
    requires k < |c|
    ensures multiset(c) == multiset(c[..k] + c[k + 1..]) + multiset{c[k]}
  {
    assert c == c[..k] + [c[k]] + c[k + 1..];
  }

  /**
   * Unlinking a node keeps the other nodes of its chain, in order, where
   * they were, so every value stays in its bucket.
   */
  lemma UnlinkedWellPlaced<V(!new)>(bs: seq<seq<V>>, hash: (V, int) -> int, i: nat, k: nat)
    requires i < |bs| && k < |bs[i]| && WellPlaced(bs, hash)
    ensures WellPlaced(bs[i := bs[i][..k] + bs[i][k + 1..]], hash)
  {
  }

  lemma ScatterStep<V(!new)>(acc: seq<seq<V>>, s: seq<V>, x: V, hash: (V, int) -> int)
    requires HashOk(hash) && |acc| > 0
    ensures Scatter(acc, s + [x], hash) == Inserted(Scatter(acc, s, hash), x, hash)
  {
  }

  /** Scattering s adds exactly the values of s. */
  lemma {:induction false} ScatterContents<V(!new)>(acc: seq<seq<V>>, s: seq<V>, hash: (V, int) -> int)
    requires HashOk(hash) && |acc| > 0
    ensures multiset(Flatten(Scatter(acc, s, hash))) == multiset(Flatten(acc)) + multiset(s)
    decreases |s|
  {
    if s != [] {
      var init, last := s[..|s| - 1], s[|s| - 1];
      ScatterContents(acc, init, hash);
      InsertedContents(Scatter(acc, init, hash), last, hash);
      assert s == init + [last];
    }
  }

  /** Scattering into a well-placed store keeps it well placed. */
  lemma {:induction false} ScatterWellPlaced<V(!new)>(acc: seq<seq<V>>, s: seq<V>, hash: (V, int) -> int)
    requires HashOk(hash) && |acc| > 0 && WellPlaced(acc, hash)
    ensures WellPlaced(Scatter(acc, s, hash), hash)
    decreases |s|
  {
    if s != [] {
      ScatterWellPlaced(acc, s[..|s| - 1], hash);
      InsertedWellPlaced(Scatter(acc, s[..|s| - 1], hash), s[|s| - 1], hash);
    }
  }

  /**
   * A rehash into n buckets keeps exactly the stored values (as a multiset,
   * so the count too) and leaves every value in bucket hash(v, n).
   */
  lemma RehashedFacts<V(!new)>(bs: seq<seq<V>>, n: nat, hash: (V, int) -> int)
    requires HashOk(hash) && n > 0
    ensures |Rehashed(bs, n, hash)| == n
    ensures multiset(Flatten(Rehashed(bs, n, hash))) == multiset(Flatten(bs))
    ensures WellPlaced(Rehashed(bs, n, hash), hash)
  {
    var e: seq<seq<V>> := EmptyBuckets(n);
    FlattenAllEmpty(e);
    ScatterContents(e, Flatten(bs), hash);
    ScatterWellPlaced(e, Flatten(bs), hash);
  }

  /** A snapshot of a store without duplicates holds no value at two positions. */
  lemma DistinctSnapshot<V(!new)>(s: seq<V>)
    requires NoDuplicates(multiset(s))
    ensures forall i, j :: 0 <= i < j < |s| ==> s[i] != s[j]
  {
    forall i, j | 0 <= i < j < |s| ensures s[i] != s[j] {
      assert s == s[..j] + s[j..];
      assert multiset(s) == multiset(s[..j]) + multiset(s[j..]);
      assert s[j] in multiset(s[j..]);
      assert s[j] in multiset(s);
      assert multiset(s[..j])[s[j]] == 0;
      assert s[i] in s[..j];
    }
  }
  // ---------------------------------------------------------------------
  // The store invariant across the three operations that change the chains

  /** A store of empty chains is consistent and holds nothing. */
  lemma EmptyConsistent<V(!new)>(bs: seq<seq<V>>, hash: (V, int) -> int)
    requires HashOk(hash) && |bs| > 0
    requires forall i :: 0 <= i < |bs| ==> bs[i] == []
    ensures Consistent(bs, hash, 0) && multiset(Flatten(bs)) == multiset{}
  {
  }

  /**
   * Prepending an absent value to the chain its hash selects keeps the store
   * consistent, with one value more.
   */
  lemma InsertPreserves<V(!new)>(bs: seq<seq<V>>, hash: (V, int) -> int, size: nat, v: V)
    requires Consistent(bs, hash, size) && v !in Flatten(bs)
    ensures Consistent(Inserted(bs, v, hash), hash, size + 1)
    ensures multiset(Flatten(Inserted(bs, v, hash))) == multiset(Flatten(bs)) + multiset{v}
  {
    var r := Inserted(bs, v, hash);
    InsertedContents(bs, v, hash);
    InsertedWellPlaced(bs, v, hash);
    var m, m' := multiset(Flatten(bs)), multiset(Flatten(r));
    assert |m'| == |m| + 1;
    forall x | x in m' ensures m'[x] <= 1 {
      if x == v {
        assert m[x] == 0;
      } else {
        assert m'[x] == m[x];
      }
    }
  }

  /**
   * Unlinking the k-th node of chain i keeps the store consistent, with that
   * node's value, and only that one, gone.
   */
  lemma UnlinkPreserves<V(!new)>(bs: seq<seq<V>>, hash: (V, int) -> int, size: nat, i: nat, k: nat)
    requires Consistent(bs, hash, size) && i < |bs| && k < |bs[i]|
    ensures var r := bs[i := bs[i][..k] + bs[i][k + 1..]];
      size > 0 && Consistent(r, hash, size - 1) &&
      multiset(Flatten(bs)) == multiset(Flatten(r)) + multiset{bs[i][k]}
  {
    var r := bs[i := bs[i][..k] + bs[i][k + 1..]];
    UnlinkedContents(bs, i, k);
    UnlinkedWellPlaced(bs, hash, i, k);
    var m, m' := multiset(Flatten(bs)), multiset(Flatten(r));
    assert |m| == |m'| + 1;
    forall x | x in m' ensures m'[x] <= 1 {
      assert m'[x] <= m[x];
    }
  }

  /** Rehashing into n buckets keeps the store consistent and its values unchanged. */
  lemma RehashPreserves<V(!new)>(bs: seq<seq<V>>, hash: (V, int) -> int, size: nat, n: nat)
    requires Consistent(bs, hash, size) && n > 0
    ensures |Rehashed(bs, n, hash)| == n && Consistent(Rehashed(bs, n, hash), hash, size)
    ensures multiset(Flatten(Rehashed(bs, n, hash))) == multiset(Flatten(bs))
  {
    RehashedFacts(bs, n, hash);
    var m, m' := multiset(Flatten(bs)), multiset(Flatten(Rehashed(bs, n, hash)));
    assert |m| == |m'|;
  }
}
