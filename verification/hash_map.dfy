/** `HseAlgo::HashMap`: a record store in insertion order plus a bucket index
    of locators into it, with the growth policy of `update()`.

    The hash function is the configuration of the container: every operation
    receives it as `hash`, and `Valid(m, hash)` is the class invariant that
    every reachable state satisfies.
 */
module HashMaps {
  import opened Records
  import opened BucketIndex

  /** The number of buckets of a new or cleared container. */
  const MIN_SPACE: nat := 32

  /** The members `space`, `sz`, `elems` and `map` of the container, plus the
      next unused locator. */
  datatype HashMap<K, V> = HashMap(
    space: nat,
    sz: nat,
    elems: seq<Record<K, V>>,
    buckets: seq<seq<nat>>,
    nextId: nat)

  /** The outcome of `at`: the value, or the `std::out_of_range` it throws. */
  datatype Result<T> = Success(value: T) | OutOfRange(message: string)

  /** A bucket count `update()` can reach from `MIN_SPACE` by doubling. */
  predicate ValidSpace(space: nat)
    decreases space
  {
    space == MIN_SPACE || (space > MIN_SPACE && space % 2 == 0 && ValidSpace(space / 2))
  }

  /** The class invariant. The bucket array is exactly the index the store
      determines (see `BucketIndex.Index`), the counter agrees with the
      store, locators are distinct and issued, and the growth check has kept
      the load within one record of twice the bucket count. */
  predicate Valid<K, V>(m: HashMap<K, V>, hash: K -> nat)
  {
    && ValidSpace(m.space)
    && m.sz == |m.elems|
    && m.sz <= 2 * m.space + 1
    && DistinctIds(m.elems)
    && IdsBelow(m.elems, m.nextId)
    && m.buckets == Index(m.elems, hash, m.space)
  }

  /** `MIN_SPACE` empty buckets. */
  function EmptyBuckets(): (ix: seq<seq<nat>>)
  {
    seq(MIN_SPACE, _ => [])
  }

  /** The default constructor. */
  function New<K, V>(hash: K -> nat): (m: HashMap<K, V>)
    ensures Valid(m, hash)
    ensures m.elems == [] && m.sz == 0 && m.space == MIN_SPACE
  {
    var none: seq<Record<K, V>> := [];
    assert EmptyBuckets() == Index(none, hash, MIN_SPACE);
    HashMap(MIN_SPACE, 0, none, EmptyBuckets(), 0)
  }

  /** `clear()`: no records, `MIN_SPACE` empty buckets. Locators are not
      reused afterwards. */
  function Clear<K, V>(m: HashMap<K, V>, hash: K -> nat): (r: HashMap<K, V>)
    ensures Valid(r, hash)
    ensures r.elems == [] && r.sz == 0 && r.space == MIN_SPACE
    ensures |r.buckets| == MIN_SPACE && forall b :: 0 <= b < |r.buckets| ==> r.buckets[b] == []
    ensures r.nextId == m.nextId
  {
    New(hash).(nextId := m.nextId)
  }

  /** `size()`, which counts the store rather than reading `sz`. */
  function Size<K, V>(m: HashMap<K, V>, hash: K -> nat): (n: nat)
    requires Valid(m, hash)
    ensures n == m.sz
  {
    |m.elems|
  }

  /** `empty()`. */
  function IsEmpty<K, V>(m: HashMap<K, V>, hash: K -> nat): (e: bool)
    requires Valid(m, hash)
    ensures e <==> m.sz == 0
    ensures e <==> Begin(m) == End
  {
    Size(m, hash) == 0
  }

  /** The private `update()`: when the load exceeds twice the bucket count,
      double the bucket count and rebuild every bucket from the store. */
  function Update<K, V>(m: HashMap<K, V>, hash: K -> nat): (r: HashMap<K, V>)
    requires Valid(m, hash)
    ensures Valid(r, hash)
    ensures r.elems == m.elems && r.sz == m.sz && r.nextId == m.nextId
    ensures r.space == (if m.sz > 2 * m.space then 2 * m.space else m.space)
    ensures r.sz <= 2 * r.space
  {
    if m.sz > m.space * 2 then
      var space := m.space * 2;
      RebuildIsIndex(m.elems, hash, space);
      m.(space := space, buckets := Rebuild(m.elems, hash, space))
    else m
  }

  /** `insert`: run the growth check, append the record to the store and its
      locator to its bucket, and return that locator. No check is made for a
      record with the same key. */
  function Insert<K, V>(m: HashMap<K, V>, hash: K -> nat, key: K, value: V): (res: (HashMap<K, V>, Handle))
    requires Valid(m, hash)
    ensures Valid(res.0, hash)
    ensures res.1.Loc? && res.1.id !in Ids(m.elems)
    ensures res.0.elems == m.elems + [Record(res.1.id, key, value)]
    ensures res.0.sz == m.sz + 1
    ensures res.0.space == (if m.sz > 2 * m.space then 2 * m.space else m.space)
    ensures res.0.sz <= 2 * res.0.space + 1
  {
    var u := Update(m, hash);
    var pos := Slot(hash, u.space, key);
    var r := Record(u.nextId, key, value);
    var buckets := Register(u.buckets, pos, r.id);
    IndexAppend(u.elems, r, hash, u.space);
    (HashMap(u.space, u.sz + 1, u.elems + [r], buckets, u.nextId + 1),
     Loc(buckets[pos][|buckets[pos]| - 1]))
  }

  /** `find`: scan the key's bucket for the first locator whose record has
      the key. Because buckets keep store order, that is the earliest live
      record with the key. */
  function Find<K(==), V>(m: HashMap<K, V>, hash: K -> nat, key: K): (h: Handle)
    requires Valid(m, hash)
    ensures h == Earliest(m.elems, key)
    ensures h.End? <==> forall k :: 0 <= k < |m.elems| ==> m.elems[k].key != key
    ensures h.Loc? ==> h.id in Ids(m.elems)
                       && Deref(m.elems, h.id) == m.elems[FirstWithKey(m.elems, key)]
  {
    var pos := Slot(hash, m.space, key);
    ScanFindsEarliest(m.elems, hash, m.space, key);
    var bucket := m.buckets[pos];
    if |bucket| == 0 then End
    else
      var j := ScanIndex(m.elems, bucket, key);
      if j < |bucket| then
        PosOfUnique(m.elems, FirstWithKey(m.elems, key));
        Loc(bucket[j])
      else End
  }

  /** `operator[]`: the first record with the key, or a new record holding
      the default value when there is none. The handle designates the record
      whose value the returned reference aliases. */
  function Subscript<K(==), V>(m: HashMap<K, V>, hash: K -> nat, key: K, default: V): (res: (HashMap<K, V>, Handle))
    requires Valid(m, hash)
    ensures Valid(res.0, hash)
    ensures res.1 == Find(res.0, hash, key)
    ensures res.1.Loc? && res.1.id in Ids(res.0.elems) && Deref(res.0.elems, res.1.id).key == key
    ensures Find(m, hash, key).Loc? ==>
              && res.0 == m
              && res.1 == Find(m, hash, key)
              && Deref(res.0.elems, res.1.id).value == m.elems[FirstWithKey(m.elems, key)].value
    ensures Find(m, hash, key).End? ==>
              && res == Insert(m, hash, key, default)
              && res.0.elems == m.elems + [Record(res.1.id, key, default)]
              && res.0.sz == m.sz + 1
              && res.0.space == (if m.sz > 2 * m.space then 2 * m.space else m.space)
              && Deref(res.0.elems, res.1.id).value == default
  {
    var h := Find(m, hash, key);
    if h.End? then
      var res := Insert(m, hash, key, default);
      PosOfUnique(res.0.elems, |m.elems|);
      FirstWithKeyIs(res.0.elems, key, |m.elems|);
      res
    else (m, h)
  }

  /** `at`: the value of the first record with the key, or `out_of_range`. */
  function At<K(==), V>(m: HashMap<K, V>, hash: K -> nat, key: K): (r: Result<V>)
    requires Valid(m, hash)
    ensures r.OutOfRange? <==> Find(m, hash, key).End?
    ensures r.OutOfRange? ==> r.message == "Invalid key\n"
    ensures r.Success? ==> r.value == m.elems[FirstWithKey(m.elems, key)].value
  {
    var h := Find(m, hash, key);
    if h.End? then OutOfRange("Invalid key\n") else Success(Deref(m.elems, h.id).value)
  }

  /** `erase`: unlink the first record with the key from its bucket and from
      the store; nothing happens when no record has the key. */
  function Erase<K(==), V>(m: HashMap<K, V>, hash: K -> nat, key: K): (r: HashMap<K, V>)
    requires Valid(m, hash)
    ensures Valid(r, hash)
    ensures Find(m, hash, key).End? ==> r == m
    ensures Find(m, hash, key).Loc? ==>
              && r.elems == RemoveAt(m.elems, FirstWithKey(m.elems, key))
              && r.sz == m.sz - 1
              && r.space == m.space
              && r.nextId == m.nextId
  {
    var pos := Slot(hash, m.space, key);
    if Find(m, hash, key).End? then m
    else
      ScanFindsEarliest(m.elems, hash, m.space, key);
      var bucket := m.buckets[pos];
      var j := ScanIndex(m.elems, bucket, key);
      var i := FirstWithKey(m.elems, key);
      PosOfUnique(m.elems, i);
      IndexRemove(m.elems, hash, m.space, i);
      RemoveAtKeepsIds(m.elems, i, m.nextId);
      var p := PosOf(m.elems, bucket[j]);
      m.(elems := RemoveAt(m.elems, p),
         buckets := m.buckets[pos := RemoveAt(bucket, j)],
         sz := m.sz - 1)
  }

  /** `begin()`: the first record of the store, or `end()` when it is empty. */
  function Begin<K, V>(m: HashMap<K, V>): (h: Handle)
    ensures h.Loc? <==> |m.elems| > 0
    ensures h.Loc? ==> h.id in Ids(m.elems)
    ensures h.Loc? && DistinctIds(m.elems) ==> PosOf(m.elems, h.id) == 0
  {
    if |m.elems| == 0 then End
    else
      assert Ids(m.elems)[0] == m.elems[0].id;
      assert DistinctIds(m.elems) ==> PosOf(m.elems, m.elems[0].id) == 0 by {
        if DistinctIds(m.elems) {
          PosOfUnique(m.elems, 0);
        }
      }
      Loc(m.elems[0].id)
  }

  /** `++it` on a live record: the next record of the store, or `end()`. */
  function Next<K, V>(m: HashMap<K, V>, h: Handle): (n: Handle)
    requires h.Loc? && h.id in Ids(m.elems)
    ensures n.Loc? <==> PosOf(m.elems, h.id) + 1 < |m.elems|
    ensures n.Loc? ==> n.id in Ids(m.elems)
    ensures n.Loc? && DistinctIds(m.elems) ==> PosOf(m.elems, n.id) == PosOf(m.elems, h.id) + 1
  {
    var p := PosOf(m.elems, h.id);
    if p + 1 < |m.elems| then
      assert Ids(m.elems)[p + 1] == m.elems[p + 1].id;
      assert DistinctIds(m.elems) ==> PosOf(m.elems, m.elems[p + 1].id) == p + 1 by {
        if DistinctIds(m.elems) {
          PosOfUnique(m.elems, p + 1);
        }
      }
      Loc(m.elems[p + 1].id)
    else End
  }

  /** `n` increments from `h`, stopping at `end()`. */
  function Advance<K, V>(m: HashMap<K, V>, h: Handle, n: nat): (r: Handle)
    requires h.Loc? ==> h.id in Ids(m.elems)
    ensures r.Loc? ==> r.id in Ids(m.elems)
    ensures n == 0 ==> r == h
    decreases n
  {
    if n == 0 || h.End? then h else Advance(m, Next(m, h), n - 1)
  }

  /** Assignment through the reference `operator[]` returns: the designated
      record's value is overwritten in place. */
  function SetValue<K, V>(m: HashMap<K, V>, hash: K -> nat, h: Handle, v: V): (r: HashMap<K, V>)
    requires Valid(m, hash)
    requires h.Loc? && h.id in Ids(m.elems)
    ensures Valid(r, hash)
    ensures var p := PosOf(m.elems, h.id);
            r.elems == m.elems[p := Record(h.id, m.elems[p].key, v)]
    ensures r.space == m.space && r.sz == m.sz && r.nextId == m.nextId
  {
    var p := PosOf(m.elems, h.id);
    var elems := m.elems[p := Record(h.id, m.elems[p].key, v)];
    IndexIgnoresValues(m.elems, elems, hash, m.space);
    m.(elems := elems)
  }

  /** `insert` of every pair of `ps` in turn. */
  function InsertAll<K, V>(m: HashMap<K, V>, hash: K -> nat, ps: seq<(K, V)>): (r: HashMap<K, V>)
    requires Valid(m, hash)
    ensures Valid(r, hash)
    ensures Items(r.elems) == Items(m.elems) + ps
    ensures r.space >= m.space
    decreases |ps|
  {
    if |ps| == 0 then m
    else
      var n := |ps| - 1;
      var prev := InsertAll(m, hash, ps[..n]);
      var res := Insert(prev, hash, ps[n].0, ps[n].1);
      ItemsAppend(prev.elems, Record(res.1.id, ps[n].0, ps[n].1));
      assert Items(m.elems) + ps[..n] + [ps[n]] == Items(m.elems) + ps;
      res.0
  }

  /** The range and initializer-list constructors: `insert` of every pair in
      turn, starting from an empty container. */
  function FromList<K, V>(ps: seq<(K, V)>, hash: K -> nat): (m: HashMap<K, V>)
    ensures Valid(m, hash)
    ensures Items(m.elems) == ps
  {
    InsertAll(New(hash), hash, ps)
  }

  /** The copy constructor: `insert` of every pair of `other` in its
      iteration order. */
  function Copy<K, V>(other: HashMap<K, V>, hash: K -> nat): (m: HashMap<K, V>)
    ensures Valid(m, hash)
    ensures Items(m.elems) == Items(other.elems)
  {
    FromList(Items(other.elems), hash)
  }

  /** The defaulted move constructor: member-wise, so the counters are
      copied while the store and the bucket vector are moved. The new
      container (first) takes over the records and every locator into them;
      the moved-from container (second) keeps `sz` and `space` but is left
      with an empty store and no buckets at all. */
  function MoveConstruct<K, V>(other: HashMap<K, V>, hash: K -> nat): (res: (HashMap<K, V>, HashMap<K, V>))
    ensures Valid(other, hash) ==> Valid(res.0, hash)
    ensures Items(res.0.elems) == Items(other.elems) && Ids(res.0.elems) == Ids(other.elems)
    ensures res.1.elems == [] && |res.1.buckets| == 0
    ensures res.1.sz == other.sz && res.1.space == other.space
  {
    (other, other.(elems := [], buckets := []))
  }

  /** Copy assignment as written: `clear()` runs first, then the pairs of
      `other` are inserted. When `other` is the object itself (`aliased`),
      the pairs are read after the clear. */
  function CopyAssignAsWritten<K, V>(self: HashMap<K, V>, other: HashMap<K, V>, aliased: bool, hash: K -> nat): (r: HashMap<K, V>)
    requires aliased ==> other == self
    ensures Valid(r, hash)
    ensures !aliased ==> Items(r.elems) == Items(other.elems)
    ensures aliased ==> r.elems == []
  {
    var cleared := Clear(self, hash);
    var source := if aliased then cleared else other;
    InsertAll(cleared, hash, Items(source.elems))
  }

  /** Copy assignment with the pairs of `other` read before the target is
      cleared, so that self-assignment keeps the contents. */
  function CopyAssign<K, V>(self: HashMap<K, V>, other: HashMap<K, V>, hash: K -> nat): (r: HashMap<K, V>)
    ensures Valid(r, hash)
    ensures Items(r.elems) == Items(other.elems)
  {
    var ps := Items(other.elems);
    InsertAll(Clear(self, hash), hash, ps)
  }
}
