# Separately-chained hash table, modelled in Dafny

This project models `HashTable`, a hash table that maps keys to values. Each key
goes to the bucket `hash(key) % capacity`. A bucket is a chain of `(key, value)`
entries. The table supports:

- `insert`: overwrite the value of a stored key, or append a new entry;
- `find`: a read-only lookup;
- `remove`: unlink the first matching entry;
- `operator[]`: get-or-insert-default.

After appending a new key, `insert` and `operator[]` check the load factor
`filled / capacity`. When it exceeds 0.75, the bucket count doubles and every
entry is rehashed into a fresh bucket vector.

The model is functional. A table is the immutable value
`Table(buckets: seq<seq<(K, V)>>, capacity, filled)`, and every mutating
operation returns the next table. The key type `K` needs equality. The value type
`V` is arbitrary; the value-initialised `ValueType{}` used by `operator[]` is
passed in as `default`. The platform hash is a parameter `hash: K -> nat`, and
every operation receives it.

A table denotes a map: `Contents(t)` reads all buckets in order (`Flatten`) and
turns the entries into a `map<K, V>` (`ToMap`). The table invariant `Valid(t, hash)`
combines five conditions:

- the bucket vector has `capacity > 0` buckets;
- every entry sits in bucket `hash(k) % capacity`;
- no key occurs twice anywhere in the table;
- `filled` equals the number of entries;
- `4 * filled <= 3 * capacity`.

`Coherent` is the same invariant without the load bound.

Modules and files:

- `entries.dfy` (`Entries`): flat entry sequences. It defines the first-match
  scan `Position`, key uniqueness, and the denoted map `ToMap`, with lemmas on
  concatenation, overwrite and unlink.
- `buckets.dfy` (`Buckets`): the bucket index, the flat reading of the buckets,
  placement, and rehashing (`Distribute`, `Rehash`, and the nested loop `RehashLoop`).
- `hashtable.dfy` (`HashTable`): the table, its invariant and abstraction, and the
  operations, each with a correctness lemma stated against `Contents`.
- `properties.dfy` (`Properties`): round trips through `Find`, and the map semantics
  of any sequence of calls (`Run` against `MapRun`). It also has the growth scenario
  at the 3/4 boundary.

## Model

| member | source | states |
|---|---|---|
| `Buckets.BucketIndex` | hash.cpp:10-13 | The bucket of a key is below the capacity, and a hash already below the capacity is its own bucket; the index depends only on the key's hash and the current capacity |
| `HashTable.Create` | hash.cpp:5-6 | A new table has `size` buckets, no entries and empty contents |
| `HashTable.CreateValid` | hash.cpp:5-6 | A new table satisfies the table invariant for every hash function |
| `HashTable.LoadFactorTest` | hash.cpp:15-17 | Comparing `filled / capacity` (exact division) against 0.75 is the same as `4 * filled > 3 * capacity`; the bound is strict, so a table at exactly 0.75 does not grow |
| `Entries.Position` | hash.cpp:21-26 | The chain scan finds the first entry with the key when there is one; it reports absence exactly when no entry of the chain has the key |
| `HashTable.Find` | hash.cpp:47-56 | Lookup succeeds exactly when the key's bucket holds the key, and then returns a value stored with it there; on a miss it hands back the caller's value untouched |
| `HashTable.HomeAgrees` | hash.cpp:48-55 | Under the invariant, a key's own bucket holds the key exactly when the table's contents do, and any entry for it there carries the contents' value |
| `HashTable.FindCorrect` | hash.cpp:47-56 | Under the invariant, lookup returns true with the stored value iff the key is in the contents, and false with the untouched value otherwise |
| `HashTable.Insert` | hash.cpp:19-45 | For a key already in its bucket, capacity and count stay the same and only entries with that key may change, each keeping its key and position. For an absent key, the count rises by one, the capacity doubles exactly when `4 * (filled + 1) > 3 * capacity`, and the entries gain exactly `(key, value)` |
| `HashTable.OverwriteCorrect` | hash.cpp:21-25 | Overwriting a stored entry's value in place keeps the table coherent and updates the contents at that key only |
| `HashTable.Append` | hash.cpp:28-29 | Appending to the key's bucket adds exactly that entry, counts it, keeps the capacity, and leaves the key findable in its bucket |
| `HashTable.AppendCorrect` | hash.cpp:28-29 | Appending a key the table does not hold keeps it coherent and extends the contents by that key |
| `HashTable.InsertCorrect` | hash.cpp:19-45 | Insertion preserves the invariant (including the load bound) and maps the key to the new value with every other key unchanged; the key is in its bucket iff it is in the contents |
| `HashTable.Grow` | hash.cpp:31-44 | Growth doubles the capacity, keeps the count, places every entry in bucket `hash(k) % (2 * capacity)`, and keeps the same entries (as a multiset) |
| `HashTable.GrowKeepsContents` | hash.cpp:35-43 | Growth of a table with unique keys keeps the keys unique and the contents identical |
| `HashTable.GrowIfOverLoaded` | hash.cpp:31-44 | The growth check doubles the capacity exactly when `4 * filled > 3 * capacity`, and otherwise changes nothing; the count and the entries are kept either way |
| `HashTable.GrowIfOverLoadedCorrect` | hash.cpp:31-44 | A coherent table at most one entry over the bound is valid after the growth check, with the same contents |
| `HashTable.GrowIfOverLoadedFinds` | hash.cpp:81-100 | A key findable in its bucket is still findable in its bucket under the new capacity after the growth check, which is why the re-lookup in `operator[]` succeeds |
| `Buckets.Distribute` | hash.cpp:35-40 | Pushing entries one by one onto their buckets yields the requested number of buckets, every entry placed under that count, and the same entries as a multiset |
| `Buckets.Rehash` | hash.cpp:33-40 | Rehashing into `n` fresh buckets places every entry in bucket `hash(k) % n` and keeps exactly the old entries (as a multiset) |
| `Buckets.RehashKeepsMap` | hash.cpp:35-40 | Rehashing entries with unique keys keeps them unique and denotes the same map |
| `Buckets.RehashLoop` | hash.cpp:35-40 | The nested loop over the old buckets and their chains computes exactly `Rehash` |
| `HashTable.Remove` | hash.cpp:58-68 | Removal keeps the capacity and the count of entries. A miss leaves the table unchanged. A hit lowers the count by one and removes entries only with that key, and other buckets are untouched |
| `HashTable.UnlinkCounts` | hash.cpp:63-64 | Unlinking one entry removes exactly that entry, so the entry count drops by one |
| `HashTable.UnlinkCorrect` | hash.cpp:61-66 | Unlinking a stored entry keeps the table coherent and drops that key from the contents |
| `HashTable.RemoveCorrect` | hash.cpp:58-68 | Removal preserves the invariant and deletes the key, and only that key, from the contents. A present key lowers `filled` by one; an absent key is a no-op |
| `HashTable.Subscript` | hash.cpp:70-103 | Indexed access never reaches the internal error on a well-formed table. A present key leaves the table unchanged. An absent key yields the same table as inserting the default. The returned value is stored with the key in its bucket |
| `HashTable.SubscriptCorrect` | hash.cpp:70-103 | Under the invariant, indexed access keeps the invariant. For a present key it returns the stored value without change; for an absent key it stores the default and returns it |
| `Properties.InsertThenFind` | hash.cpp:19-56 | After `insert(k, v)`, `find(k)` returns true with `v` |
| `Properties.InsertExistingKeepsSize` | hash.cpp:21-25 | Inserting a stored key changes neither `filled` nor the capacity |
| `Properties.RemoveThenFind` | hash.cpp:47-68 | After `remove(k)`, `find(k)` returns false and leaves its output untouched |
| `Properties.SubscriptThenFind` | hash.cpp:70-103 | Indexed access of an absent key increments `filled`, and `find` then returns the default value |
| `Properties.Step` | hash.cpp:19-103 | Each mutating call keeps the invariant, never shrinks the capacity, and acts on the contents as the corresponding map operation |
| `Properties.Run` | hash.cpp:19-103 | Any sequence of mutating calls keeps the invariant, never shrinks the capacity, and leaves the contents equal to the same calls on a plain map |
| `Properties.InsertFresh` | hash.cpp:28-44 | Inserting an absent key keeps the invariant, counts one more entry, doubles the capacity exactly when the new count is over the bound, and extends the contents by the key |
| `Properties.ThreeFit` | hash.cpp:28-31 | Three distinct keys inserted into four buckets stay there without growth, and the table holds exactly those three pairs |
| `Properties.FourthGrows` | hash.cpp:28-43 | A valid four-bucket table with three entries is at load factor 0.75. Inserting a fourth distinct key doubles the capacity to eight, and all four keys are found with their values |
| `Properties.GrowthScenario` | hash.cpp:28-43 | With four buckets, three distinct keys reach load factor 0.75 without growth; a fourth doubles the capacity to eight, and all four keys are found with their values |

## Left out

- The concrete `std::hash` algorithm is not modelled. The hash is a parameter
  `hash: K -> nat`, deterministic by construction. An alternative base-17
  polynomial hash of the key's characters would be one such parameter.
- Floating-point `getLoadFactor` is replaced by exact arithmetic. The growth test
  is the integer comparison `4 * filled > 3 * capacity`. `LoadFactorTest` proves it
  equal to exact rational division compared against 0.75. Double rounding of very
  large counts is not modelled.
- Zero initial capacity is excluded. `Create` requires `size > 0`, and every
  operation requires a well-formed table with at least one bucket. The constructor
  (hash.cpp:5-6) does not guard against zero, and then `% _capacity` at hash.cpp:12
  is undefined. The model rejects that case instead of reproducing it.
- Unsigned `size_t` wrap-around is not modelled. `_capacity * 2` and `_filled++`
  use unbounded integers.
- Remove: requires `filled` to equal the number of entries. Otherwise the unsigned
  decrement at hash.cpp:64 could wrap around below zero. Every table built by the
  operations meets this requirement.
- References and out-parameters are replaced by returned values. `operator[]`
  returns the next table together with the value instead of a `ValueType&`. `find`
  takes the caller's value and returns it, overwritten on a hit, next to the
  boolean. Writing through the returned reference is `Insert` on that key.
- The exception at hash.cpp:102 becomes the `Failure` case of `Subscript`'s result,
  and that case is proved unreachable. The table state at the moment of the throw
  is therefore not modelled.
- Memory management is not modelled: the allocation of the `std::vector` and the
  `std::list` chains, the moves at hash.cpp:42 and hash.cpp:92, and the defaulted
  destructor. `HashTable.h` is not part of this model. `KeyType` is any type with
  equality, and `ValueType{}` is the `default` parameter.
- Concurrency is not modelled. The table is single-threaded.
