/** The record store of the hash map: the insertion-ordered list of
    (key, value) records, and the stable locators that identify them.

    A locator stands for the std::list iterator the container hands out and
    keeps in its buckets. It is modelled as a natural-number id that is fixed
    when the record is created and never reused.
 */
module Records {

  /** One stored pair. `id` is the record's locator; `key` never changes,
      `value` may be overwritten in place. */
  datatype Record<K, V> = Record(id: nat, key: K, value: V)

  /** What `insert`, `find`, `begin` and `end` return: the locator of a live
      record, or the past-the-end position of the store. */
  datatype Handle = End | Loc(id: nat)

  /** The locators of the store, in store order. */
  function Ids<K, V>(rs: seq<Record<K, V>>): (ids: seq<nat>)
  {
    seq(|rs|, k requires 0 <= k < |rs| => rs[k].id)
  }

  /** The pairs the store yields when iterated from begin to end. */
  function Items<K, V>(rs: seq<Record<K, V>>): (ps: seq<(K, V)>)
  {
    seq(|rs|, k requires 0 <= k < |rs| => (rs[k].key, rs[k].value))
  }

  /** No two live records share a locator. */
  predicate DistinctIds<K, V>(rs: seq<Record<K, V>>)
  {
    forall i, j :: 0 <= i < j < |rs| ==> rs[i].id != rs[j].id
  }

  /** Every live locator was issued before `bound`. */
  predicate IdsBelow<K, V>(rs: seq<Record<K, V>>, bound: nat)
  {
    forall k :: 0 <= k < |rs| ==> rs[k].id < bound
  }

  /** The position of the record a locator designates (dereferencing the
      iterator). */
  function PosOf<K, V>(rs: seq<Record<K, V>>, id: nat): (p: nat)
    requires id in Ids(rs)
    ensures p < |rs| && rs[p].id == id
    decreases |rs|
  {
    var n := |rs| - 1;
    if rs[n].id == id then n
    else
      assert Ids(rs[..n]) == Ids(rs)[..n];
      PosOf(rs[..n], id)
  }

  /** With distinct locators, the position found is the only one. */
  lemma PosOfUnique<K, V>(rs: seq<Record<K, V>>, k: nat)
    requires DistinctIds(rs)
    requires k < |rs|
    ensures rs[k].id in Ids(rs)
    ensures PosOf(rs, rs[k].id) == k
  {
    assert Ids(rs)[k] == rs[k].id;
  }

  /** The record a locator designates. */
  function Deref<K, V>(rs: seq<Record<K, V>>, id: nat): (r: Record<K, V>)
    requires id in Ids(rs)
  {
    rs[PosOf(rs, id)]
  }

  /** The position of the first record in store order whose key is `key`,
      or `|rs|` when there is none. */
  function FirstWithKey<K(==), V>(rs: seq<Record<K, V>>, key: K): (i: nat)
    ensures i <= |rs|
    ensures forall j :: 0 <= j < i ==> rs[j].key != key
    ensures i < |rs| ==> rs[i].key == key
    decreases |rs|
  {
    if |rs| == 0 then 0
    else if rs[0].key == key then 0
    else 1 + FirstWithKey(rs[1..], key)
  }

  /** The earliest-inserted live record with key `key`, as a handle. */
  function Earliest<K(==), V>(rs: seq<Record<K, V>>, key: K): (h: Handle)
  {
    var i := FirstWithKey(rs, key);
    if i < |rs| then Loc(rs[i].id) else End
  }

  /** The store with the record at position `i` unlinked. */
  function RemoveAt<T>(s: seq<T>, i: nat): (r: seq<T>)
    requires i < |s|
  {
    s[..i] + s[i + 1..]
  }

  /** Where the records of the store end up once one is unlinked. */
  lemma RemoveAtElements<T>(s: seq<T>, i: nat)
    requires i < |s|
    ensures |RemoveAt(s, i)| == |s| - 1
    ensures forall k :: 0 <= k < i ==> RemoveAt(s, i)[k] == s[k]
    ensures forall k :: i <= k < |s| - 1 ==> RemoveAt(s, i)[k] == s[k + 1]
  {
  }

  /** Unlinking a record keeps the other locators distinct and issued. */
  lemma RemoveAtKeepsIds<K, V>(rs: seq<Record<K, V>>, i: nat, bound: nat)
    requires i < |rs|
    requires DistinctIds(rs)
    ensures DistinctIds(RemoveAt(rs, i))
    ensures IdsBelow(rs, bound) ==> IdsBelow(RemoveAt(rs, i), bound)
  {
    RemoveAtElements(rs, i);
  }

  /** Appending a record appends its pair to the iteration. */
  lemma ItemsAppend<K, V>(rs: seq<Record<K, V>>, r: Record<K, V>)
    ensures Items(rs + [r]) == Items(rs) + [(r.key, r.value)]
  {
  }

  /** Dropping the first record drops the first pair of the iteration. */
  lemma ItemsDropFirst<K, V>(rs: seq<Record<K, V>>)
    requires |rs| > 0
    ensures Items(rs[1..]) == Items(rs)[1..]
  {
  }

  /** The first-match position is determined by its three defining facts. */
  lemma FirstWithKeyIs<K, V>(rs: seq<Record<K, V>>, key: K, i: nat)
    requires i <= |rs|
    requires forall j :: 0 <= j < i ==> rs[j].key != key
    requires i < |rs| ==> rs[i].key == key
    ensures FirstWithKey(rs, key) == i
  {
  }

  /** Stores with the same keys position by position agree on every first
      match. */
  lemma FirstWithKeySameKeys<K, V>(rs: seq<Record<K, V>>, rs': seq<Record<K, V>>, key: K)
    requires |rs| == |rs'|
    requires forall k :: 0 <= k < |rs| ==> rs[k].key == rs'[k].key
    ensures FirstWithKey(rs', key) == FirstWithKey(rs, key)
  {
    FirstWithKeyIs(rs', key, FirstWithKey(rs, key));
  }

  /** Unlinking a record after the first match of `key` keeps that match. */
  lemma FirstWithKeyRemoveLater<K, V>(rs: seq<Record<K, V>>, i: nat, key: K)
    requires FirstWithKey(rs, key) < i < |rs|
    ensures FirstWithKey(RemoveAt(rs, i), key) == FirstWithKey(rs, key)
  {
    var f := FirstWithKey(rs, key);
    var rs' := RemoveAt(rs, i);
    assert forall j :: 0 <= j < i ==> rs'[j] == rs[j];
    FirstWithKeyIs(rs', key, f);
  }

  /** Unlinking a record before the first match of `key` moves that match
      one position earlier (or keeps "none" as "none"). */
  lemma FirstWithKeyRemoveEarlier<K, V>(rs: seq<Record<K, V>>, i: nat, key: K)
    requires i < FirstWithKey(rs, key)
    ensures FirstWithKey(RemoveAt(rs, i), key) == FirstWithKey(rs, key) - 1
  {
    var f := FirstWithKey(rs, key);
    var rs' := RemoveAt(rs, i);
    forall j | 0 <= j < f - 1
      ensures rs'[j].key != key
    {
      if j < i {
        assert rs'[j] == rs[j];
      } else {
        assert rs'[j] == rs[j + 1];
      }
    }
    if f < |rs| {
      assert rs'[f - 1] == rs[f];
    }
    FirstWithKeyIs(rs', key, f - 1);
  }

  /** Unlinking a record whose key is not `key` leaves the earliest record
      with `key` where it was. */
  lemma EarliestAfterRemoveOther<K, V>(rs: seq<Record<K, V>>, i: nat, key: K)
    requires i < |rs| && rs[i].key != key
    ensures Earliest(RemoveAt(rs, i), key) == Earliest(rs, key)
  {
    var f := FirstWithKey(rs, key);
    var rs' := RemoveAt(rs, i);
    if f < i {
      FirstWithKeyRemoveLater(rs, i, key);
      assert rs'[f] == rs[f];
    } else {
      FirstWithKeyRemoveEarlier(rs, i, key);
      if f < |rs| {
        assert rs'[f - 1] == rs[f];
      }
    }
  }

  /** Unlinking the first record with `key` makes the next record with `key`,
      if any, the first one. */
  lemma EarliestAfterRemoveSame<K, V>(rs: seq<Record<K, V>>, key: K)
    requires FirstWithKey(rs, key) < |rs|
    ensures var i := FirstWithKey(rs, key);
            Earliest(RemoveAt(rs, i), key) == Earliest(rs[i + 1..], key)
  {
    var i := FirstWithKey(rs, key);
    var rs' := RemoveAt(rs, i);
    var tail := rs[i + 1..];
    assert rs' == rs[..i] + tail;
    var g := FirstWithKey(tail, key);
    forall j | 0 <= j < i + g
      ensures rs'[j].key != key
    {
      if j >= i {
        assert rs'[j] == tail[j - i];
      }
    }
    if g < |tail| {
      assert rs'[i + g] == tail[g];
    }
    FirstWithKeyIs(rs', key, i + g);
  }

  /** Unlinking one record keeps every other locator live and designating
      the same record. */
  lemma RemoveAtKeepsDeref<K, V>(rs: seq<Record<K, V>>, i: nat, id: nat)
    requires DistinctIds(rs)
    requires i < |rs|
    requires id in Ids(rs) && id != rs[i].id
    ensures id in Ids(RemoveAt(rs, i)) && Deref(RemoveAt(rs, i), id) == Deref(rs, id)
  {
    var rs' := RemoveAt(rs, i);
    var p := PosOf(rs, id);
    var q := if p < i then p else p - 1;
    assert rs'[q] == rs[p];
    RemoveAtKeepsIds(rs, i, 0);
    assert Ids(rs')[q] == id;
    PosOfUnique(rs', q);
  }
}
