/** Properties of `HseAlgo::HashMap` that relate several operations: the
    structural form of the class invariant, the shape of the bucket count,
    what `find` sees after each mutation, locator stability, iteration order,
    and the duplicate-key behaviour.
 */
module HashMapProperties {
  import opened Records
  import opened BucketIndex
  import opened HashMaps

  /** The class invariant is the locator invariant plus the counters: the
      bucket array equals the canonical index exactly when every locator in
      bucket `b` designates a live record hashing to `b`, buckets keep store
      order, and every live record's locator is in its own bucket. */
  lemma ValidIsStructural<K, V>(m: HashMap<K, V>, hash: K -> nat)
    ensures Valid(m, hash) <==>
              && ValidSpace(m.space)
              && m.sz == |m.elems|
              && m.sz <= 2 * m.space + 1
              && DistinctIds(m.elems)
              && IdsBelow(m.elems, m.nextId)
              && WellPlaced(m.elems, m.buckets, hash, m.space)
  {
    if ValidSpace(m.space) && DistinctIds(m.elems) {
      WellPlacedIsIndex(m.elems, m.buckets, hash, m.space);
    }
  }

  /** Each live record's locator is in bucket `hash(key) % space`, exactly
      once, and in no other bucket. */
  lemma LocatorExactlyOnce<K, V>(m: HashMap<K, V>, hash: K -> nat, k: nat)
    requires Valid(m, hash)
    requires k < |m.elems|
    ensures var s := Slot(hash, m.space, m.elems[k].key);
            && (exists x :: 0 <= x < |m.buckets[s]| && m.buckets[s][x] == m.elems[k].id)
            && (forall b, x :: 0 <= b < |m.buckets| && 0 <= x < |m.buckets[b]| && m.buckets[b][x] == m.elems[k].id ==> b == s)
            && (forall x, y :: 0 <= x < y < |m.buckets[s]| ==> m.buckets[s][x] != m.buckets[s][y])
  {
    ValidIsStructural(m, hash);
    PosOfUnique(m.elems, k);
  }

  /** Two to the power `k`. */
  function Pow2(k: nat): (p: nat)
    ensures p >= 1
  {
    if k == 0 then 1 else 2 * Pow2(k - 1)
  }

  /** The bucket counts `update()` can reach are exactly `32 * 2^k`. */
  lemma {:induction false} SpaceIsDoubledMinimum(space: nat)
    ensures ValidSpace(space) <==> exists k: nat :: space == MIN_SPACE * Pow2(k)
    decreases space
  {
    if ValidSpace(space) {
      if space == MIN_SPACE {
        assert space == MIN_SPACE * Pow2(0);
      } else {
        SpaceIsDoubledMinimum(space / 2);
        var k: nat :| space / 2 == MIN_SPACE * Pow2(k);
        assert space == MIN_SPACE * Pow2(k + 1);
      }
    }
    if exists k: nat :: space == MIN_SPACE * Pow2(k) {
      var k: nat :| space == MIN_SPACE * Pow2(k);
      if k > 0 {
        assert space / 2 == MIN_SPACE * Pow2(k - 1);
        SpaceIsDoubledMinimum(space / 2);
      }
    }
  }

  /** The rebuild of `update()` does not change what `find` returns. */
  lemma UpdateKeepsFind<K, V>(m: HashMap<K, V>, hash: K -> nat, key: K)
    requires Valid(m, hash)
    ensures Find(Update(m, hash), hash, key) == Find(m, hash, key)
  {
  }

  /** After `insert(key, value)`, `find(key)` returns the new record only when
      no earlier record has that key; every other key finds what it found
      before. */
  lemma InsertThenFind<K, V>(m: HashMap<K, V>, hash: K -> nat, key: K, value: V, other: K)
    requires Valid(m, hash)
    ensures var res := Insert(m, hash, key, value);
            Find(res.0, hash, other)
              == if other == key && Find(m, hash, key).End? then res.1 else Find(m, hash, other)
  {
    var res := Insert(m, hash, key, value);
    var rs := m.elems;
    var rs' := res.0.elems;
    var i := FirstWithKey(rs, other);
    if i < |rs| {
      FirstWithKeyIs(rs', other, i);
    } else if other == key {
      FirstWithKeyIs(rs', other, |rs|);
    } else {
      FirstWithKeyIs(rs', other, |rs'|);
    }
  }

  /** `insert` keeps every existing locator valid and designating the same
      record. */
  lemma InsertKeepsLocators<K, V>(m: HashMap<K, V>, hash: K -> nat, key: K, value: V, id: nat)
    requires Valid(m, hash)
    requires id in Ids(m.elems)
    ensures var m' := Insert(m, hash, key, value).0;
            id in Ids(m'.elems) && Deref(m'.elems, id) == Deref(m.elems, id)
  {
    var m' := Insert(m, hash, key, value).0;
    var p := PosOf(m.elems, id);
    PosOfUnique(m'.elems, p);
  }

  /** After `erase(key)` removed a record, `find(key)` returns the next record
      with the same key, if any, and every other key finds what it found
      before. */
  lemma EraseThenFind<K, V>(m: HashMap<K, V>, hash: K -> nat, key: K, other: K)
    requires Valid(m, hash)
    requires Find(m, hash, key).Loc?
    ensures var i := FirstWithKey(m.elems, key);
            var r := Erase(m, hash, key);
            && (other != key ==> Find(r, hash, other) == Find(m, hash, other))
            && (other == key ==> Find(r, hash, other) == Earliest(m.elems[i + 1..], key))
  {
    if other != key {
      EarliestAfterRemoveOther(m.elems, FirstWithKey(m.elems, key), other);
    } else {
      EarliestAfterRemoveSame(m.elems, key);
    }
  }

  /** `erase` keeps the locators of all the other records valid and
      designating the same record. */
  lemma EraseKeepsOtherLocators<K, V>(m: HashMap<K, V>, hash: K -> nat, key: K, id: nat)
    requires Valid(m, hash)
    requires id in Ids(m.elems)
    requires Find(m, hash, key) != Loc(id)
    ensures var m' := Erase(m, hash, key);
            id in Ids(m'.elems) && Deref(m'.elems, id) == Deref(m.elems, id)
  {
    if Find(m, hash, key).Loc? {
      var i := FirstWithKey(m.elems, key);
      PosOfUnique(m.elems, i);
      RemoveAtKeepsDeref(m.elems, i, id);
    }
  }

  /** After `insert(key, value)`, `at` on any other key returns what it
      returned before. */
  lemma InsertThenAtOther<K, V>(m: HashMap<K, V>, hash: K -> nat, key: K, value: V, other: K)
    requires Valid(m, hash)
    requires other != key
    ensures At(Insert(m, hash, key, value).0, hash, other) == At(m, hash, other)
  {
    var m' := Insert(m, hash, key, value).0;
    InsertThenFind(m, hash, key, value, other);
    var f := FirstWithKey(m.elems, other);
    if f < |m.elems| {
      assert m'.elems[f] == m.elems[f];
    }
  }

  /** Writing a value through a locator changes no key, so `find` returns
      what it returned before, for every key. */
  lemma SetValueKeepsFind<K, V>(m: HashMap<K, V>, hash: K -> nat, h: Handle, v: V, key: K)
    requires Valid(m, hash)
    requires h.Loc? && h.id in Ids(m.elems)
    ensures Find(SetValue(m, hash, h, v), hash, key) == Find(m, hash, key)
  {
    var r := SetValue(m, hash, h, v);
    FirstWithKeySameKeys(m.elems, r.elems, key);
  }

  /** Writing `v` through a locator makes `at` return `v` for the key whose
      `find` returns that locator, and leaves `at` alone for every key whose
      `find` returns something else. */
  lemma SetValueThenAt<K, V>(m: HashMap<K, V>, hash: K -> nat, h: Handle, v: V, key: K)
    requires Valid(m, hash)
    requires h.Loc? && h.id in Ids(m.elems)
    ensures Find(m, hash, key) == h ==> At(SetValue(m, hash, h, v), hash, key) == Success(v)
    ensures Find(m, hash, key) != h ==> At(SetValue(m, hash, h, v), hash, key) == At(m, hash, key)
  {
    var r := SetValue(m, hash, h, v);
    var p := PosOf(m.elems, h.id);
    var f := FirstWithKey(m.elems, key);
    FirstWithKeySameKeys(m.elems, r.elems, key);
    if f < |m.elems| {
      PosOfUnique(m.elems, f);
    }
  }

  /** `m[key] = v` followed by `m.at(key)` yields `v`, and no other key's
      `find` or `at` result changes. */
  lemma AssignThroughSubscript<K, V>(m: HashMap<K, V>, hash: K -> nat, key: K, default: V, v: V, other: K)
    requires Valid(m, hash)
    ensures var res := Subscript(m, hash, key, default);
            var r := SetValue(res.0, hash, res.1, v);
            && At(r, hash, key) == Success(v)
            && (other != key ==> Find(r, hash, other) == Find(m, hash, other))
            && (other != key ==> At(r, hash, other) == At(m, hash, other))
  {
    var res := Subscript(m, hash, key, default);
    SetValueThenAt(res.0, hash, res.1, v, key);
    if other != key {
      SetValueKeepsFind(res.0, hash, res.1, v, other);
      SetValueThenAt(res.0, hash, res.1, v, other);
      if Find(m, hash, key).End? {
        InsertThenFind(m, hash, key, default, other);
        InsertThenAtOther(m, hash, key, default, other);
      }
    }
  }

  /** Advancing `n` times from the record at position `p` reaches position
      `p + n`, or `end()` past the last record. */
  lemma {:induction false} AdvanceFrom<K, V>(m: HashMap<K, V>, p: nat, n: nat)
    requires DistinctIds(m.elems)
    requires p < |m.elems|
    ensures m.elems[p].id in Ids(m.elems)
    ensures Advance(m, Loc(m.elems[p].id), n)
              == if p + n < |m.elems| then Loc(m.elems[p + n].id) else End
    decreases n
  {
    var rs := m.elems;
    var h := Loc(rs[p].id);
    PosOfUnique(rs, p);
    if n > 0 {
      var h' := Next(m, h);
      assert h' == if p + 1 < |rs| then Loc(rs[p + 1].id) else End;
      assert Advance(m, h, n) == Advance(m, h', n - 1);
      if p + 1 < |rs| {
        AdvanceFrom(m, p + 1, n - 1);
      }
    }
  }

  /** Iteration from `begin()` visits the records in store order: the `n`-th
      increment reaches the `n`-th record, and `end()` after the last. */
  lemma IterationOrder<K, V>(m: HashMap<K, V>, hash: K -> nat, n: nat)
    requires Valid(m, hash)
    ensures Begin(m).Loc? ==> Begin(m).id in Ids(m.elems)
    ensures Advance(m, Begin(m), n) == if n < |m.elems| then Loc(m.elems[n].id) else End
  {
    if |m.elems| > 0 {
      AdvanceFrom(m, 0, n);
    }
  }

  /** `clear()` followed by `insert` behaves as on a new container: one
      record, the minimum bucket count, and `find` sees it. */
  lemma ClearThenInsert<K, V>(m: HashMap<K, V>, hash: K -> nat, key: K, value: V)
    ensures var res := Insert(Clear(m, hash), hash, key, value);
            && Items(res.0.elems) == [(key, value)]
            && res.0.space == MIN_SPACE
            && Find(res.0, hash, key) == res.1
  {
  }

  /** `at(key)` returns the value of the first pair with `key` in
      iteration order. */
  lemma AtIsFirstPair<K, V>(m: HashMap<K, V>, hash: K -> nat, key: K, i: nat)
    requires Valid(m, hash)
    requires i < |m.elems|
    requires forall j :: 0 <= j < i ==> Items(m.elems)[j].0 != key
    requires Items(m.elems)[i].0 == key
    ensures At(m, hash, key) == Success(Items(m.elems)[i].1)
  {
    var rs := m.elems;
    forall j | 0 <= j < i
      ensures rs[j].key != key
    {
      assert Items(rs)[j].0 == rs[j].key;
    }
    assert Items(rs)[i] == (rs[i].key, rs[i].value);
    FirstWithKeyIs(rs, key, i);
  }

  /** Erasing a key whose first record is at the front of the iteration
      unlinks exactly that record. */
  lemma EraseFront<K, V>(m: HashMap<K, V>, hash: K -> nat, key: K)
    requires Valid(m, hash)
    requires |m.elems| > 0 && Items(m.elems)[0].0 == key
    ensures Items(Erase(m, hash, key).elems) == Items(m.elems)[1..]
  {
    var rs := m.elems;
    assert Items(rs)[0] == (rs[0].key, rs[0].value);
    FirstWithKeyIs(rs, key, 0);
    assert Find(m, hash, key) == Loc(rs[0].id);
    var rs' := Erase(m, hash, key).elems;
    assert rs' == RemoveAt(rs, 0) == rs[1..];
    ItemsDropFirst(rs);
  }

  /** A container iterating `(k, a), (k', b), (k, c)`: lookups see the
      first record with `k`, and `erase(k)` removes only that one, after
      which lookups see the later duplicate. */
  lemma EraseFirstDuplicate<K, V>(m: HashMap<K, V>, hash: K -> nat, k: K, k': K, a: V, b: V, c: V)
    requires Valid(m, hash)
    requires k != k'
    requires Items(m.elems) == [(k, a), (k', b), (k, c)]
    ensures At(m, hash, k) == Success(a)
    ensures var m' := Erase(m, hash, k);
            && Size(m', hash) == 2
            && Items(m'.elems) == [(k', b), (k, c)]
            && At(m', hash, k) == Success(c)
  {
    AtIsFirstPair(m, hash, k, 0);
    var m' := Erase(m, hash, k);
    EraseFront(m, hash, k);
    var ps := Items(m'.elems);
    assert ps == [(k', b), (k, c)];
    assert |m'.elems| == |ps|;
    AtIsFirstPair(m', hash, k, 1);
  }

  /** Three inserts with a repeated key, as in
      `HashMap m{{k, a}, {k', b}, {k, c}}`: all three records are kept in
      insertion order and `size()` is 3; lookups see the first, and
      `erase(k)` removes only the first, after which lookups see the later
      duplicate. */
  lemma DuplicateKeys<K, V>(hash: K -> nat, k: K, k': K, a: V, b: V, c: V)
    requires k != k'
    ensures var m := FromList([(k, a), (k', b), (k, c)], hash);
            var m' := Erase(m, hash, k);
            && Size(m, hash) == 3
            && At(m, hash, k) == Success(a)
            && Size(m', hash) == 2
            && Items(m'.elems) == [(k', b), (k, c)]
            && At(m', hash, k) == Success(c)
  {
    var m := FromList([(k, a), (k', b), (k, c)], hash);
    EraseFirstDuplicate(m, hash, k, k', a, b, c);
  }

  /** The container left behind by the move constructor violates the class
      invariant: it has no buckets although `space` is at least 32, and
      `size()` reads 0 while `sz` keeps the old count. */
  lemma MovedFromBreaksInvariant<K, V>(m: HashMap<K, V>, hash: K -> nat)
    requires Valid(m, hash)
    ensures var res := MoveConstruct(m, hash);
            && Valid(res.0, hash)
            && !Valid(res.1, hash)
            && (m.sz > 0 ==> Size(res.0, hash) == m.sz && |res.1.elems| != res.1.sz)
  {
  }

  /** Self-assignment through the copy assignment as written loses every
      record; the corrected assignment keeps them all. */
  lemma SelfAssignment<K, V>(m: HashMap<K, V>, hash: K -> nat)
    requires |m.elems| > 0
    ensures Items(CopyAssignAsWritten(m, m, true, hash).elems) != Items(m.elems)
    ensures Items(CopyAssign(m, m, hash).elems) == Items(m.elems)
  {
    assert |Items(m.elems)| > 0;
  }
}
