/** The bucket index: `space` buckets, each listing the locators of the
    records whose key hashes to it, in store order.

    `Bucket` and `Index` say what the index must be for a given store;
    `Rebuild` is the rehash loop of `update()`, and `ScanIndex` the linear
    bucket scan shared by `find` and `erase`.
 */
module BucketIndex {
  import opened Records

  /** The bucket a key belongs to: `hash(key) % space`. */
  function Slot<K>(hash: K -> nat, space: nat, key: K): (b: nat)
    requires space > 0
    ensures b < space
  {
    hash(key) % space
  }

  /** The locators of the records of `rs` that fall into bucket `b`, in
      store order. */
  function Bucket<K, V>(rs: seq<Record<K, V>>, hash: K -> nat, space: nat, b: nat): (ids: seq<nat>)
    requires space > 0
    decreases |rs|
  {
    if |rs| == 0 then []
    else
      var last := rs[|rs| - 1];
      Bucket(rs[..|rs| - 1], hash, space, b)
        + (if Slot(hash, space, last.key) == b then [last.id] else [])
  }

  /** The whole index a store determines. */
  function Index<K, V>(rs: seq<Record<K, V>>, hash: K -> nat, space: nat): (ix: seq<seq<nat>>)
    requires space > 0
  {
    seq(space, b requires 0 <= b < space => Bucket(rs, hash, space, b))
  }

  /** `map[pos].push_back(locator)`. */
  function Register(ix: seq<seq<nat>>, pos: nat, id: nat): (ix': seq<seq<nat>>)
    requires pos < |ix|
  {
    ix[pos := ix[pos] + [id]]
  }

  /** The rebuild of `update()`: start from `space` empty buckets and
      register every record of the store, in store order. */
  function Rebuild<K, V>(rs: seq<Record<K, V>>, hash: K -> nat, space: nat): (ix: seq<seq<nat>>)
    requires space > 0
    ensures |ix| == space
    decreases |rs|
  {
    if |rs| == 0 then seq(space, _ => [])
    else
      var last := rs[|rs| - 1];
      Register(Rebuild(rs[..|rs| - 1], hash, space), Slot(hash, space, last.key), last.id)
  }

  /** Appending a record to the store appends its locator to its own bucket
      and leaves every other bucket alone. */
  lemma IndexAppend<K, V>(rs: seq<Record<K, V>>, r: Record<K, V>, hash: K -> nat, space: nat)
    requires space > 0
    ensures Index(rs + [r], hash, space) == Register(Index(rs, hash, space), Slot(hash, space, r.key), r.id)
  {
    assert (rs + [r])[..|rs|] == rs;
    var lhs := Index(rs + [r], hash, space);
    var rhs := Register(Index(rs, hash, space), Slot(hash, space, r.key), r.id);
    forall b | 0 <= b < space
      ensures lhs[b] == rhs[b]
    {
    }
  }

  /** The rehash loop produces exactly the index the store determines. */
  lemma {:induction false} RebuildIsIndex<K, V>(rs: seq<Record<K, V>>, hash: K -> nat, space: nat)
    requires space > 0
    ensures Rebuild(rs, hash, space) == Index(rs, hash, space)
    decreases |rs|
  {
    if |rs| > 0 {
      var n := |rs| - 1;
      RebuildIsIndex(rs[..n], hash, space);
      IndexAppend(rs[..n], rs[n], hash, space);
      assert rs[..n] + [rs[n]] == rs;
    }
  }

  /** A bucket of a concatenated store is the concatenation of the buckets. */
  lemma {:induction false} BucketConcat<K, V>(a: seq<Record<K, V>>, c: seq<Record<K, V>>, hash: K -> nat, space: nat, b: nat)
    requires space > 0
    ensures Bucket(a + c, hash, space, b) == Bucket(a, hash, space, b) + Bucket(c, hash, space, b)
    decreases |c|
  {
    if |c| == 0 {
      assert a + c == a;
    } else {
      var n := |c| - 1;
      assert (a + c)[..|a + c| - 1] == a + c[..n];
      BucketConcat(a, c[..n], hash, space, b);
    }
  }

  /** Every locator in a bucket designates a live record whose key hashes to
      that bucket. */
  lemma {:induction false} BucketOrigin<K, V>(rs: seq<Record<K, V>>, hash: K -> nat, space: nat, b: nat)
    requires space > 0
    requires DistinctIds(rs)
    ensures forall x :: 0 <= x < |Bucket(rs, hash, space, b)| ==>
              Bucket(rs, hash, space, b)[x] in Ids(rs)
              && Slot(hash, space, Deref(rs, Bucket(rs, hash, space, b)[x]).key) == b
    decreases |rs|
  {
    if |rs| > 0 {
      var n := |rs| - 1;
      var pre := rs[..n];
      BucketOrigin(pre, hash, space, b);
      var B := Bucket(rs, hash, space, b);
      forall x | 0 <= x < |B|
        ensures B[x] in Ids(rs) && Slot(hash, space, Deref(rs, B[x]).key) == b
      {
        if x < |Bucket(pre, hash, space, b)| {
          var id := B[x];
          var p := PosOf(pre, id);
          assert rs[p] == pre[p];
          PosOfUnique(rs, p);
        } else {
          PosOfUnique(rs, n);
        }
      }
    }
  }

  /** Every live record whose key hashes to `b` has its locator in bucket `b`. */
  lemma {:induction false} BucketComplete<K, V>(rs: seq<Record<K, V>>, hash: K -> nat, space: nat, b: nat, k: nat)
    requires space > 0
    requires k < |rs| && Slot(hash, space, rs[k].key) == b
    ensures rs[k].id in Bucket(rs, hash, space, b)
    decreases |rs|
  {
    var n := |rs| - 1;
    if k < n {
      BucketComplete(rs[..n], hash, space, b, k);
    }
  }

  /** A bucket lists its locators in strictly increasing store position. */
  lemma {:induction false} BucketOrder<K, V>(rs: seq<Record<K, V>>, hash: K -> nat, space: nat, b: nat)
    requires space > 0
    requires DistinctIds(rs)
    ensures forall x :: 0 <= x < |Bucket(rs, hash, space, b)| ==> Bucket(rs, hash, space, b)[x] in Ids(rs)
    ensures forall x, y :: 0 <= x < y < |Bucket(rs, hash, space, b)| ==>
              PosOf(rs, Bucket(rs, hash, space, b)[x]) < PosOf(rs, Bucket(rs, hash, space, b)[y])
    decreases |rs|
  {
    BucketOrigin(rs, hash, space, b);
    if |rs| > 0 {
      var n := |rs| - 1;
      var pre := rs[..n];
      BucketOrder(pre, hash, space, b);
      BucketOrigin(pre, hash, space, b);
      var Bp := Bucket(pre, hash, space, b);
      var B := Bucket(rs, hash, space, b);
      // a locator of the prefix sits at the same position in the whole store
      forall x | 0 <= x < |Bp|
        ensures PosOf(rs, B[x]) == PosOf(pre, Bp[x]) < n
      {
        var p := PosOf(pre, Bp[x]);
        assert rs[p] == pre[p];
        PosOfUnique(rs, p);
      }
      forall x, y | 0 <= x < y < |B|
        ensures PosOf(rs, B[x]) < PosOf(rs, B[y])
      {
        if y >= |Bp| {
          PosOfUnique(rs, n);
        }
      }
    }
  }

  /** The first position in a bucket whose record has key `key`, or the
      bucket's length when none has. */
  function ScanIndex<K(==), V>(rs: seq<Record<K, V>>, bucket: seq<nat>, key: K): (j: nat)
    requires forall x :: 0 <= x < |bucket| ==> bucket[x] in Ids(rs)
    ensures j <= |bucket|
    ensures forall x :: 0 <= x < j ==> Deref(rs, bucket[x]).key != key
    ensures j < |bucket| ==> Deref(rs, bucket[j]).key == key
    decreases |bucket|
  {
    if |bucket| == 0 then 0
    else if Deref(rs, bucket[0]).key == key then 0
    else 1 + ScanIndex(rs, bucket[1..], key)
  }

  /** Splitting the store around one record splits its bucket around that
      record's locator. */
  lemma BucketSplit<K, V>(rs: seq<Record<K, V>>, hash: K -> nat, space: nat, i: nat)
    requires space > 0
    requires i < |rs|
    ensures var s := Slot(hash, space, rs[i].key);
            Bucket(rs, hash, space, s)
              == Bucket(rs[..i], hash, space, s) + [rs[i].id] + Bucket(rs[i + 1..], hash, space, s)
  {
    var s := Slot(hash, space, rs[i].key);
    var A := rs[..i];
    var C := rs[i + 1..];
    assert rs == A + [rs[i]] + C;
    BucketConcat(A + [rs[i]], C, hash, space, s);
    BucketConcat(A, [rs[i]], hash, space, s);
    assert Bucket([rs[i]], hash, space, s) == [rs[i].id];
  }

  /** Removing one record from the store leaves every bucket other than its
      own unchanged. */
  lemma BucketRemoveOther<K, V>(rs: seq<Record<K, V>>, hash: K -> nat, space: nat, i: nat, b: nat)
    requires space > 0
    requires i < |rs|
    requires b != Slot(hash, space, rs[i].key)
    ensures Bucket(RemoveAt(rs, i), hash, space, b) == Bucket(rs, hash, space, b)
  {
    var A := rs[..i];
    var C := rs[i + 1..];
    assert rs == A + [rs[i]] + C;
    BucketConcat(A + [rs[i]], C, hash, space, b);
    BucketConcat(A, [rs[i]], hash, space, b);
    BucketConcat(A, C, hash, space, b);
    assert Bucket([rs[i]], hash, space, b) == [];
  }

  /** A scan stops at the first locator whose record carries the key. */
  lemma ScanStops<K, V>(rs: seq<Record<K, V>>, pre: seq<nat>, id: nat, post: seq<nat>, key: K)
    requires forall x :: 0 <= x < |pre + [id] + post| ==> (pre + [id] + post)[x] in Ids(rs)
    requires forall x :: 0 <= x < |pre| ==> pre[x] in Ids(rs) && Deref(rs, pre[x]).key != key
    requires id in Ids(rs) && Deref(rs, id).key == key
    ensures ScanIndex(rs, pre + [id] + post, key) == |pre|
  {
    var B := pre + [id] + post;
    assert B[|pre|] == id;
    assert forall x :: 0 <= x < |pre| ==> B[x] == pre[x];
  }

  /** Scanning the key's bucket finds exactly the earliest record with that
      key in the whole store; when no record has the key, the scan runs off
      the end of the bucket. */
  lemma ScanFindsEarliest<K, V>(rs: seq<Record<K, V>>, hash: K -> nat, space: nat, key: K)
    requires space > 0
    requires DistinctIds(rs)
    ensures forall x :: 0 <= x < |Bucket(rs, hash, space, Slot(hash, space, key))| ==>
              Bucket(rs, hash, space, Slot(hash, space, key))[x] in Ids(rs)
    ensures var B := Bucket(rs, hash, space, Slot(hash, space, key));
            var i := FirstWithKey(rs, key);
            var j := ScanIndex(rs, B, key);
            && (i == |rs| ==> j == |B|)
            && (i < |rs| ==> j == |Bucket(rs[..i], hash, space, Slot(hash, space, key))| && j < |B| && B[j] == rs[i].id)
  {
    var s := Slot(hash, space, key);
    var B := Bucket(rs, hash, space, s);
    var i := FirstWithKey(rs, key);
    BucketOrigin(rs, hash, space, s);
    var j := ScanIndex(rs, B, key);
    if i == |rs| {
      if j < |B| {
        // the record the scan stopped at would precede the first one with the key
        assert false;
      }
    } else {
      BucketSplit(rs, hash, space, i);
      var A := rs[..i];
      var BA := Bucket(A, hash, space, s);
      BucketOrigin(A, hash, space, s);
      forall x | 0 <= x < |BA|
        ensures BA[x] in Ids(rs) && Deref(rs, BA[x]).key != key
      {
        var p := PosOf(A, BA[x]);
        assert rs[p] == A[p];
        PosOfUnique(rs, p);
      }
      PosOfUnique(rs, i);
      ScanStops(rs, BA, rs[i].id, Bucket(rs[i + 1..], hash, space, s), key);
    }
  }

  /** Unlinking the record at position `i` removes its locator from its own
      bucket, at the position that follows the locators of the records
      before it, and leaves every other bucket alone. */
  lemma IndexRemove<K, V>(rs: seq<Record<K, V>>, hash: K -> nat, space: nat, i: nat)
    requires space > 0
    requires i < |rs|
    ensures var s := Slot(hash, space, rs[i].key);
            var j := |Bucket(rs[..i], hash, space, s)|;
            && j < |Index(rs, hash, space)[s]|
            && Index(RemoveAt(rs, i), hash, space)
                 == Index(rs, hash, space)[s := RemoveAt(Index(rs, hash, space)[s], j)]
  {
    var s := Slot(hash, space, rs[i].key);
    var A := rs[..i];
    var C := rs[i + 1..];
    var j := |Bucket(A, hash, space, s)|;
    BucketSplit(rs, hash, space, i);
    var lhs := Index(RemoveAt(rs, i), hash, space);
    var rhs := Index(rs, hash, space)[s := RemoveAt(Index(rs, hash, space)[s], j)];
    forall b | 0 <= b < space
      ensures lhs[b] == rhs[b]
    {
      if b == s {
        BucketConcat(A, C, hash, space, s);
        var B := Bucket(A, hash, space, s) + [rs[i].id] + Bucket(C, hash, space, s);
        assert B[..j] == Bucket(A, hash, space, s);
        assert B[j + 1..] == Bucket(C, hash, space, s);
      } else {
        BucketRemoveOther(rs, hash, space, i, b);
      }
    }
  }

  /** The index depends on the locators and keys of the store only, so
      overwriting values leaves it as it is. */
  lemma {:induction false} IndexIgnoresValues<K, V>(rs: seq<Record<K, V>>, rs': seq<Record<K, V>>, hash: K -> nat, space: nat)
    requires space > 0
    requires |rs| == |rs'|
    requires forall k :: 0 <= k < |rs| ==> rs[k].id == rs'[k].id && rs[k].key == rs'[k].key
    ensures Index(rs, hash, space) == Index(rs', hash, space)
    decreases |rs|
  {
    if |rs| > 0 {
      var n := |rs| - 1;
      IndexIgnoresValues(rs[..n], rs'[..n], hash, space);
      assert forall b :: 0 <= b < space ==> Index(rs[..n], hash, space)[b] == Bucket(rs[..n], hash, space, b);
      assert forall b :: 0 <= b < space ==> Bucket(rs, hash, space, b) == Bucket(rs', hash, space, b);
    }
  }

  /** The structural form of the index invariant: `space` buckets; every
      locator in bucket `b` designates a live record whose key hashes to `b`;
      each bucket lists its locators in store order; and every live record's
      locator is in the bucket its key hashes to. */
  predicate WellPlaced<K, V>(rs: seq<Record<K, V>>, ix: seq<seq<nat>>, hash: K -> nat, space: nat)
    requires space > 0
  {
    && |ix| == space
    && (forall b, x :: 0 <= b < |ix| && 0 <= x < |ix[b]| ==>
          ix[b][x] in Ids(rs) && Slot(hash, space, Deref(rs, ix[b][x]).key) == b)
    && (forall b, x, y :: 0 <= b < |ix| && 0 <= x < y < |ix[b]| ==>
          ix[b][x] in Ids(rs) && ix[b][y] in Ids(rs) && PosOf(rs, ix[b][x]) < PosOf(rs, ix[b][y]))
    && (forall k :: 0 <= k < |rs| ==> rs[k].id in ix[Slot(hash, space, rs[k].key)])
  }

  lemma ElementIn(s: seq<nat>, i: int)
    requires 0 <= i < |s|
    ensures s[i] in s
  {
  }

  /** Two strictly increasing sequences with the same elements are equal. */
  lemma {:induction false} StrictlyIncreasingUnique(a: seq<nat>, c: seq<nat>)
    requires forall x, y :: 0 <= x < y < |a| ==> a[x] < a[y]
    requires forall x, y :: 0 <= x < y < |c| ==> c[x] < c[y]
    requires forall v :: v in a <==> v in c
    ensures a == c
    decreases |a|
  {
    if |a| == 0 {
      if |c| > 0 {
        // c[0] would have to be an element of the empty a
        ElementIn(c, 0);
        assert false;
      }
    } else {
      assert a[0] in c;
      assert c[0] in a;
      assert a[0] == c[0];
      forall v
        ensures v in a[1..] <==> v in c[1..]
      {
        if v in a[1..] {
          assert v in c && v != c[0];
        }
        if v in c[1..] {
          assert v in a && v != a[0];
        }
      }
      StrictlyIncreasingUnique(a[1..], c[1..]);
      assert a == [a[0]] + a[1..] && c == [c[0]] + c[1..];
    }
  }

  /** The store positions a bucket's locators designate. */
  function Positions<K, V>(rs: seq<Record<K, V>>, bucket: seq<nat>): (ps: seq<nat>)
    requires forall x :: 0 <= x < |bucket| ==> bucket[x] in Ids(rs)
    ensures |ps| == |bucket|
    ensures forall x :: 0 <= x < |bucket| ==> ps[x] == PosOf(rs, bucket[x])
  {
    seq(|bucket|, x requires 0 <= x < |bucket| => PosOf(rs, bucket[x]))
  }

  /** Under `WellPlaced`, the positions a bucket designates are exactly the
      positions of the records that hash to it. */
  lemma WellPlacedPositions<K, V>(rs: seq<Record<K, V>>, ix: seq<seq<nat>>, hash: K -> nat, space: nat, b: nat)
    requires space > 0 && b < space
    requires DistinctIds(rs)
    requires WellPlaced(rs, ix, hash, space)
    ensures forall v: nat :: v in Positions(rs, ix[b]) <==> v < |rs| && Slot(hash, space, rs[v].key) == b
  {
    var ps := Positions(rs, ix[b]);
    forall v: nat
      ensures v in ps <==> v < |rs| && Slot(hash, space, rs[v].key) == b
    {
      if v < |rs| && Slot(hash, space, rs[v].key) == b {
        assert rs[v].id in ix[b];
        var x :| 0 <= x < |ix[b]| && ix[b][x] == rs[v].id;
        PosOfUnique(rs, v);
        assert ps[x] == v;
      }
    }
  }

  /** The canonical index is the only well-placed one: a bucket array is
      well placed exactly when it equals `Index(rs, hash, space)`. */
  lemma WellPlacedIsIndex<K, V>(rs: seq<Record<K, V>>, ix: seq<seq<nat>>, hash: K -> nat, space: nat)
    requires space > 0
    requires DistinctIds(rs)
    ensures WellPlaced(rs, ix, hash, space) <==> ix == Index(rs, hash, space)
  {
    var canon := Index(rs, hash, space);
    forall b | 0 <= b < space
      ensures forall x :: 0 <= x < |canon[b]| ==>
                canon[b][x] in Ids(rs) && Slot(hash, space, Deref(rs, canon[b][x]).key) == b
      ensures forall x, y :: 0 <= x < y < |canon[b]| ==>
                canon[b][x] in Ids(rs) && canon[b][y] in Ids(rs) && PosOf(rs, canon[b][x]) < PosOf(rs, canon[b][y])
    {
      BucketOrigin(rs, hash, space, b);
      BucketOrder(rs, hash, space, b);
    }
    forall k | 0 <= k < |rs|
      ensures rs[k].id in canon[Slot(hash, space, rs[k].key)]
    {
      BucketComplete(rs, hash, space, Slot(hash, space, rs[k].key), k);
    }
    assert WellPlaced(rs, canon, hash, space);
    if WellPlaced(rs, ix, hash, space) {
      forall b | 0 <= b < space
        ensures ix[b] == canon[b]
      {
        WellPlacedPositions(rs, ix, hash, space, b);
        WellPlacedPositions(rs, canon, hash, space, b);
        var p := Positions(rs, ix[b]);
        var q := Positions(rs, canon[b]);
        StrictlyIncreasingUnique(p, q);
        forall x | 0 <= x < |ix[b]|
          ensures ix[b][x] == canon[b][x]
        {
          assert rs[p[x]].id == ix[b][x];
          assert rs[q[x]].id == canon[b][x];
        }
      }
    }
  }
}
