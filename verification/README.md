# HseAlgo::HashMap in Dafny

A model of `HseAlgo::HashMap` (`HashMap.h`), a separately chained hash map
made of two structures:

- the **record store** `elems`, a `std::list` of `(key, value)` pairs in
  insertion order;
- the **bucket index** `map`, a vector of `space` buckets, each a list of
  iterators into `elems`.

The model is functional. A container state is the immutable datatype
`HashMaps.HashMap` with these fields:

- `space` and `sz`, the two counters;
- `elems`, a `seq` of `Records.Record(id, key, value)`;
- `buckets`, a `seq<seq<nat>>` of locator ids;
- `nextId`, the next unused locator.

A locator (the `std::list` iterator) is a natural-number id. It is fixed
when the record is created and never reused. Every operation is a pure
function from state to state. The hash function is an arbitrary total
`K -> nat` that every operation receives as `hash`. `ValueType()` is the
parameter `default` of `Subscript`.

`HashMaps.Valid(m, hash)` is the class invariant. Every state reachable
from `New` through the operations satisfies it, except the state a move
leaves behind (see `HashMaps.MoveConstruct`). Every operation that
produces a state establishes it. The operations that read a state
(`Size`, `Find`, `Insert`, `Erase` and the rest) require it, with two
kinds of exception. `Clear`, `Copy`, `CopyAssign`, `CopyAssignAsWritten`
and `MoveConstruct` accept any state, as the source does: they read only
the store, or overwrite everything. The iteration functions `Begin`,
`Next` and `Advance` need only that the locator they start from is live. It says:

- the bucket array equals `BucketIndex.Index`. That is the index the store
  determines: bucket `b` lists the locators of the records whose key
  satisfies `hash(key) % space == b`, in store order.
- `sz == |elems|`.
- `sz <= 2 * space + 1`.
- locators are distinct and issued.
- `space` is `32 * 2^k`.

`HashMapProperties.ValidIsStructural` proves that this canonical form is
exactly the structural invariant: each live locator is in exactly its own
bucket, every bucket entry is a live record that hashes there, and buckets
keep store order.

Modules follow the container's structure:

- `records.dfy` (`Records`): the record store and locators.
- `bucket_index.dfy` (`BucketIndex`): the buckets, the rehash loop of
  `update()`, and the bucket scan shared by `find` and `erase`.
- `hash_map.dfy` (`HashMaps`): the container's state and public operations.
- `hash_map_properties.dfy` (`HashMapProperties`): lemmas that relate
  several operations.

Two behaviours of the code are easy to misread:

- **Growth timing.** `insert` runs the growth check `update()` before it
  hashes the new key (HashMap.h:91-92). The new record is therefore placed
  with the post-growth `space`, and growth is decided on the count before
  the append, so right after an insert `sz` may be `2 * space + 1`.
- **What `size()` reads.** `size()` returns `elems.size()`, not `sz`
  (HashMap.h:79). The model computes `|elems|`, and `Size` proves it equals
  `sz`.

## Model

| member | source | states |
|---|---|---|
| BucketIndex.Slot | HashMap.h:92 | the bucket of a key, `hash(key) % space`, is a valid bucket number below `space` |
| BucketIndex.Rebuild | HashMap.h:31-36 | the rehash loop, which starts from `space` empty buckets and registers every record in store order, yields exactly `space` buckets |
| BucketIndex.RebuildIsIndex | HashMap.h:31-36 | the rehash loop produces exactly the canonical index of the store: every locator in its key's bucket, in store order |
| BucketIndex.IndexAppend | HashMap.h:92-94 | appending a record to the store and pushing its locator onto bucket `hash(key) % space` yields the canonical index of the longer store; every other bucket is untouched |
| BucketIndex.BucketConcat | HashMap.h:33-35 | a bucket of a concatenated store is the concatenation of the two stores' buckets |
| BucketIndex.BucketOrigin | HashMap.h:33-35 | every locator in bucket `b` designates a live record whose key hashes to `b` |
| BucketIndex.BucketComplete | HashMap.h:33-35 | every live record whose key hashes to `b` has its locator in bucket `b` |
| BucketIndex.BucketOrder | HashMap.h:33-35 | a bucket lists its locators in strictly increasing store position |
| BucketIndex.ScanIndex | HashMap.h:104-111 | the bucket scan stops at the first locator whose record has the key; no earlier locator has it; it runs off the end when none has it |
| BucketIndex.ScanFindsEarliest | HashMap.h:99-112 | scanning the key's bucket stops exactly at the locator of the earliest record in the whole store with that key, and runs off the end when no record has the key |
| BucketIndex.BucketSplit | HashMap.h:150-154 | splitting the store around a record splits its bucket around that record's locator |
| BucketIndex.BucketRemoveOther | HashMap.h:150-154 | unlinking a record leaves every bucket other than its own unchanged |
| BucketIndex.IndexRemove | HashMap.h:150-154 | unlinking the record at position `i` removes its locator from its own bucket, at the position after the locators of the earlier records, and yields the canonical index of the shorter store |
| BucketIndex.IndexIgnoresValues | HashMap.h:134 | overwriting values in place (through the reference `operator[]` returns) leaves the index unchanged |
| BucketIndex.StrictlyIncreasingUnique | HashMap.h:33-35 | two strictly increasing sequences with the same elements are equal; this is why bucket contents and order are determined by the store |
| BucketIndex.WellPlacedIsIndex | HashMap.h:26 | a bucket array satisfies the structural locator invariant exactly when it equals the canonical index |
| Records.PosOf | HashMap.h:106 | dereferencing a live locator reaches the record that carries it |
| Records.FirstWithKey | HashMap.h:99-112 | the position of the earliest record with the key: no earlier record has it, the one found has it, and it is the store length when none has it |
| Records.RemoveAtKeepsIds | HashMap.h:153 | unlinking a record keeps the remaining locators distinct and issued |
| Records.EarliestAfterRemoveOther | HashMap.h:145-161 | unlinking a record whose key differs from `key` leaves the earliest record with `key` unchanged |
| Records.FirstWithKeyRemoveLater | HashMap.h:153 | unlinking a record after the first match of a key keeps that match at its position |
| Records.FirstWithKeyRemoveEarlier | HashMap.h:153 | unlinking a record before the first match of a key moves that match one position earlier |
| Records.RemoveAtKeepsDeref | HashMap.h:153 | unlinking one record keeps every other locator live and designating the same record |
| Records.EarliestAfterRemoveSame | HashMap.h:145-161 | unlinking the first record with a key makes the next record with that key, if any, the earliest |
| HashMaps.New | HashMap.h:21-26 | a new container satisfies the invariant, with no records, `sz == 0` and `space == 32` |
| HashMaps.Clear | HashMap.h:179-185 | after `clear()`: the invariant holds, no records, `sz == 0`, `space == 32`, 32 buckets all empty |
| HashMaps.Size | HashMap.h:78-80 | `size()`, which counts the store, always equals the counter `sz` |
| HashMaps.IsEmpty | HashMap.h:82-84 | `empty()` holds exactly when `sz == 0`, and exactly when `begin() == end()` |
| HashMaps.Update | HashMap.h:28-38 | `update()` keeps the store, counter and locators unchanged and keeps the invariant; `space` doubles exactly when `sz > 2*space` and is unchanged otherwise; afterwards `sz <= 2*space` |
| HashMaps.Insert | HashMap.h:90-97 | `insert` keeps the invariant. It appends `(key, value)` under a fresh locator as the last record. Earlier records keep position, key, value and locator. No uniqueness check is made. `sz` grows by exactly one. `space` doubles exactly when the pre-insert check fires. `sz <= 2*space + 1` afterwards. |
| HashMaps.Find | HashMap.h:99-112 | `find` returns the locator of the earliest live record with the key, and `end()` exactly when no live record has that key |
| HashMaps.Subscript | HashMap.h:129-135 | `operator[]`: when the key is present, the state is unchanged and the first match is returned; when absent, `(key, ValueType())` is appended. Either way, the returned record is what `find` now returns, and its value is the first match's value or the default. When absent, the result is exactly `insert(key, ValueType())`, so `sz` grows by one and `space` follows the growth rule of `insert` (doubling exactly when `sz > 2*space` beforehand, never shrinking). |
| HashMaps.At | HashMap.h:137-143 | `at` fails with `out_of_range("Invalid key\n")` exactly when `find` returns `end()`; otherwise it yields the value of the earliest record with the key |
| HashMaps.Erase | HashMap.h:145-161 | `erase`: when `find` returns `end()`, the state is unchanged. Otherwise exactly the earliest record with the key is unlinked from the store, and its locator from its bucket. `sz` drops by one and `space` is unchanged. The invariant holds. |
| HashMaps.SetValue | HashMap.h:134 | assignment through the returned reference overwrites only that record's value, keeps every key and locator, and keeps the invariant |
| HashMaps.Begin | HashMap.h:163-165 | `begin()` is a live locator exactly when the store is non-empty, and then, with distinct locators as the invariant guarantees, it designates the record at position 0 |
| HashMaps.Next | HashMap.h:163-173 | incrementing the locator of the record at position `p` yields `end()` exactly when `p` is the last position, and otherwise a live locator that, with distinct locators, designates the record at position `p + 1` |
| HashMaps.Advance | HashMap.h:163-173 | `n` increments from a live locator or `end()` yield a live locator or `end()`; zero increments stay put |
| HashMaps.InsertAll | HashMap.h:44-56 | repeated `insert` keeps the invariant, appends the pairs in order after the existing ones, and never shrinks `space` |
| HashMaps.FromList | HashMap.h:52-56 | the initializer-list and range constructors give a valid container that iterates exactly the given pairs, in order, duplicates included |
| HashMaps.Copy | HashMap.h:67-71 | the copy constructor gives a valid container that iterates the same pairs as the original |
| HashMaps.CopyAssignAsWritten | HashMap.h:58-64 | copy assignment as written: a distinct source's pairs are copied, but on self-assignment the result is empty |
| HashMaps.MoveConstruct | HashMap.h:73 | the defaulted move constructor: the new container iterates the same pairs under the same locators and keeps the invariant; the moved-from container keeps `sz` and `space` but has an empty store and no buckets |
| HashMaps.CopyAssign | HashMap.h:58-64 | copy assignment that reads the source before clearing: the target iterates exactly the source's pairs, also on self-assignment |
| HashMapProperties.ValidIsStructural | HashMap.h:33-35 | the class invariant holds exactly when the counters hold and the buckets satisfy the structural locator invariant |
| HashMapProperties.LocatorExactlyOnce | HashMap.h:92-94 | each live record's locator is in bucket `hash(key) % space`, exactly once, and in no other bucket |
| HashMapProperties.SpaceIsDoubledMinimum | HashMap.h:29-30 | the bucket counts the invariant admits are exactly `32 * 2^k` |
| HashMapProperties.UpdateKeepsFind | HashMap.h:28-38 | the rebuild does not change what `find` returns for any key |
| HashMapProperties.InsertThenFind | HashMap.h:90-97 | after `insert(key, value)`, `find(key)` returns the new record only if no record had the key; every other lookup is unchanged |
| HashMapProperties.InsertKeepsLocators | HashMap.h:93-94 | `insert` keeps every existing locator live and designating the same record |
| HashMapProperties.InsertThenAtOther | HashMap.h:137-143 | after `insert(key, value)`, `at` on any other key returns what it returned before |
| HashMapProperties.EraseThenFind | HashMap.h:145-161 | after `erase(key)` removed a record, `find(key)` returns the next record with that key or `end()`; lookups of other keys are unchanged |
| HashMapProperties.EraseKeepsOtherLocators | HashMap.h:153-154 | `erase` keeps every other locator live and designating the same record, including other records with the same key |
| HashMapProperties.SetValueKeepsFind | HashMap.h:134 | writing through a reference changes no key, so `find` is unchanged for every key |
| HashMapProperties.SetValueThenAt | HashMap.h:137-143 | after writing `v` through the locator `find(key)` returns, `at(key)` yields `v`; `at` on keys that find other records is unchanged |
| HashMapProperties.AssignThroughSubscript | HashMap.h:129-135 | `m[key] = v` makes `at(key)` yield `v` and leaves `find` and `at` unchanged for every other key |
| HashMapProperties.AdvanceFrom | HashMap.h:163-165 | `n` increments from the record at position `p` reach position `p + n`, or `end()` past the last record |
| HashMapProperties.IterationOrder | HashMap.h:163-177 | iterating from `begin()` visits the records in store order, reaching `end()` after the last |
| HashMapProperties.ClearThenInsert | HashMap.h:179-185 | after `clear()`, an insert behaves as on a new container: one record, 32 buckets, found by `find` |
| HashMapProperties.AtIsFirstPair | HashMap.h:137-143 | `at(key)` yields the value of the first pair with `key` in iteration order |
| HashMapProperties.EraseFront | HashMap.h:145-161 | when the first pair in iteration order has `key`, `erase(key)` removes exactly that pair |
| HashMapProperties.EraseFirstDuplicate | HashMap.h:145-161 | on a map iterating `(k, a), (k', b), (k, c)` with `k != k'`, `at(k)` yields `a`; `erase(k)` leaves `(k', b), (k, c)`, after which `at(k)` yields `c` |
| HashMapProperties.DuplicateKeys | HashMap.h:90-97 | inserting `(k, a), (k', b), (k, c)` with `k != k'` keeps three records in order with `at(k) == a`; `erase(k)` removes only the first, leaving two records with `at(k) == c` |
| HashMapProperties.MovedFromBreaksInvariant | HashMap.h:73 | the container a move leaves behind violates the class invariant (no buckets although `space >= 32`), and when the source was non-empty its `size()` reads 0 while `sz` keeps the old count |
| HashMapProperties.SelfAssignment | HashMap.h:58-64 | self-assignment as written loses every record of a non-empty map; the corrected assignment keeps them |

## Left out

- Move assignment (HashMap.h:75): `MIN_SPACE` is a non-static `const` member (HashMap.h:21), so the defaulted move assignment is defined as deleted and takes no part in overload resolution. `a = std::move(b)` therefore runs the copy assignment of HashMap.h:58-64, which `HashMaps.CopyAssignAsWritten` models; no separate member is needed.
- Use of a moved-from container: `HashMaps.MoveConstruct` gives its state and `HashMapProperties.MovedFromBreaksInvariant` proves that state invalid. What later calls on it would do is not modelled: `find` (and so `at`, `erase` and `operator[]`) indexes the empty bucket vector, which is undefined behaviour; `insert` does the same unless its growth check fires first (the source had `sz == 2 * space + 1`), in which case the rebuild allocates buckets and the insert is defined but still leaves `sz != size()`. The model also takes the moved-from `std::list` to be empty, which the library leaves unspecified.
- `hash_function()` and the `Hash` template parameter (HashMap.h:11, 22, 86-88): the hash is the parameter `hash: K -> nat` of every operation. It is an arbitrary total function, because `std::hash` is a foreign library call.
- HashMaps.Copy: the copy constructor default-constructs `hash_f` instead of copying it (HashMap.h:67). The model passes the hash explicitly, so a stateful hasher that differs between the two objects is not modelled.
- The `const` overloads of `find`, `begin` and `end` (HashMap.h:114-127, 167-177): their logic is identical to the non-const versions.
- HashMaps.Update: `space * 2`, `hash % space` and the counters are unbounded integers. `size_t` wrap-around is not modelled; it would need more than 2^63 records.
- HashMaps.Next: the increment is modelled on live locators only. Incrementing `end()` is undefined behaviour in C++, and `Advance` stops there instead.
- Iterator invalidation by `clear()`: locator ids are never reused, so a stale iterator is simply one not in the store. No lemma states anything about stale handles.
- Key comparison (HashMap.h:106, 121, 152) uses `KeyType::operator==`, and bucket choice uses `Hash`. The model compares keys with Dafny's `==`, an equivalence, and hashes equal keys to the same bucket. Keys whose `operator==` is not reflexive (a NaN `double`) or disagrees with the hasher (case-insensitive equality with `std::hash<std::string>`) are not modelled: for them the code's `find` can miss a record that `Find` reports.
- Allocation failure, exception safety of the `std::list` operations, and the unused `<iostream>` include.

## Findings

| source | as written | input that shows it | evidently intended | confidence | as-written member | corrected member |
|---|---|---|---|---|---|---|
| HashMap.h:58-64 | copy assignment calls `clear()` and then iterates `other`, with no `this != &other` guard | `m = m;` on a map with at least one record leaves it empty; so does `m = std::move(m);`, which resolves to the same operator | self-assignment leaves the map's contents unchanged | high; not executed | HashMaps.CopyAssignAsWritten (shown by HashMapProperties.SelfAssignment) | HashMaps.CopyAssign |
