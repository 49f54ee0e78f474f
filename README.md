# A verified model of `HashTable<T>`

This project models the `HashTable<T>` class template of `Source.cpp`. It is a
separately chained hash table from `int` keys to values of any type `T`. It
keeps two pieces of state:

- `table`, a vector of buckets. Each bucket is a vector of key/value pairs in
  ascending key order. A pair lives in bucket `key % table.size()`.
- `keys`, the flat list of stored keys. `size()` and `empty()` answer from it.

The model is the class `HashTables.HashTable<T>`, with the fields
`table: seq<Bucket<T>>` and `keys: seq<int>`. Its methods update those fields
the way the C++ member functions do. Binary search (`search_key`) is a pure
function. Binary insertion (`insert_pair`) is a recursive method that updates
one bucket in place. `rehash` is a pair of loops.

Every method is proved against a ghost abstraction of the table, defined in
the module `Tables`:

- `Lookup(t, k)` is the value stored under `k`, found by a linear scan of the
  bucket that `k` hashes to.
- `Entries(t)` is the multiset of all stored pairs.
- `KeyBag(t)` is the multiset of all stored keys.

Validity has two parts:

- `Structural()`: there is at least one bucket, every bucket is strictly
  sorted, and every pair sits in the bucket its key hashes to. Every operation
  preserves this.
- `Synced()`: `multiset(keys) == KeyBag(table)`. Every operation preserves this
  except one branch of `operator[]` (see "## Findings").

Modules:

- `Wrappers`: `Option`, which stands for a `T*` answer that may be null.
- `Buckets`: one bucket, with `SearchKey`, the reference lookup `ValueOf` and
  the splice helpers `InsertAt` and `RemoveAt`.
- `Tables`: the ghost table abstraction and its lemmas.
- `HashTables`: the class.
- `Scenarios`: concrete client runs stated as contracts.

The growth test at `Source.cpp:187` is `keys.size() / old_size >= 0.8`, an
unsigned integer quotient. It holds exactly when there are at least as many
keys as buckets. On a fresh table of 3 buckets this agrees with a real-valued
0.8 load factor: both grow to 7 on the fourth successful insert. The two
readings first differ at 7 buckets. With 6 keys the load is about 0.86, so a
real-valued test would grow on the seventh insert. The integer quotient is
still 0 there, so the code grows to 15 only on the eighth insert. The model
follows the code. `HashTables.GrowthDue`, `HashTables.GrowthDueVersusLoad`
and `Scenarios.GrowthSchedule` state this.

The first loop of `rehash` erases from a bucket through iterators collected
before any erase. The model takes the behaviour that the comment at
`Source.cpp:142` describes: each old bucket keeps, in their order, exactly the
pairs whose key still hashes to it. The moved pairs are staged in scan order,
then re-inserted with the rule "append if the bucket is empty, otherwise
`insert_pair`". The `throw` at `Source.cpp:158` becomes an obligation proved
never to fire: `Place` grows the target bucket by exactly one.

Keys are required to be non-negative in every public operation. The console
front end accepts digit strings only. For non-negative operands, Dafny's `%`
and `/` agree with C++.

## Model

| member | source | states |
|---|---|---|
| Buckets.SearchKey | Source.cpp:105-116 | The result is either the end sentinel `\|b\|` or an index in `[start, end)` holding `key`. On a sorted bucket, a key present in the range is always found. Terminates on `end - start`. |
| Buckets.SearchKeyFinds | Source.cpp:105-116 | On a sorted bucket, a full-range search returns the end sentinel iff the key is absent. Otherwise the found index holds the key's value, compared against the reference linear scan `ValueOf`. |
| Buckets.ValueOf | Source.cpp:105-116 | The reference lookup: it answers a value iff the key occurs in the bucket, and the answered pair is in the bucket. |
| Buckets.SortedValueOf | Source.cpp:105-116 | In a sorted bucket, the lookup answers `v` for `k` iff the pair `(k, v)` is in the bucket. |
| Buckets.InsertAt | Source.cpp:81-86 | `vector::insert` at a position: the bucket grows by one and holds the pair at that position. The prefix is unchanged, the suffix is shifted, and the multiset of pairs gains the pair. |
| Buckets.InsertAtSorted | Source.cpp:74-92 | Inserting an absent key at its split position keeps the bucket sorted. The new key maps to its value and every other key keeps its value. |
| Buckets.RemoveAt | Source.cpp:236 | `vector::erase` at a position: the bucket shrinks by one, and the multiset of pairs loses exactly the erased pair. |
| Buckets.RemoveAtSorted | Source.cpp:234-236 | Erasing the found position keeps a sorted bucket sorted. The erased key becomes absent and every other key keeps its value. |
| Tables.EmptyTable | Source.cpp:35 | A table of empty buckets stores nothing, is structurally valid, and every lookup is empty. |
| Tables.LookupEntry | Source.cpp:213-222 | In a valid table, a key maps to `v` iff the pair `(k, v)` is among the stored entries. |
| Tables.EntriesUnique | Source.cpp:23-28 | In a valid table, no two stored entries share a key. |
| Tables.KeyBagCount | Source.cpp:28 | In a valid table, each key occurs once in the bag of stored keys if it is stored, and not at all otherwise. |
| Tables.KeyBagSize | Source.cpp:38 | There are as many stored keys as stored entries. |
| Tables.SameEntriesSameLookup | Source.cpp:122-163 | Two valid tables, of any sizes, that store the same entries answer every lookup alike. |
| Tables.SameLookupSameKeys | Source.cpp:186-189 | Two valid tables that answer every lookup alike store the same keys, so growth keeps the key list in step. |
| Tables.InsertIntoTable | Source.cpp:193-198 | Placing an absent key at its split position keeps the table valid. The key then maps to its value, other keys are unchanged, and the entries gain the pair. |
| Tables.PlaceAbsent | Source.cpp:193-198 | A key that is not stored, placed where only smaller or equal keys precede it and only larger keys follow, keeps the table valid. The key then maps to its value, other keys are unchanged, and the entries gain the pair. |
| Tables.RemoveFromTable | Source.cpp:233-236 | Erasing a found pair keeps the table valid and makes the key absent. Other keys are unchanged. |
| Tables.SyncedAdd | Source.cpp:199-201 | Appending a newly stored key to a synced key list keeps it synced. |
| Tables.SyncedRemove | Source.cpp:236-243 | Dropping one occurrence of an erased key from a synced key list keeps it synced, and the key was listed. |
| Tables.SyncedLost | Source.cpp:263-264 | Storing a key without listing it leaves a previously synced key list out of step. |
| Tables.StagedKeyAbsent | Source.cpp:151-156 | A staged pair's key is not stored in the table that is being refilled. |
| HashTables.GrowthDue | Source.cpp:187 | The growth test holds iff there are at least as many keys as buckets. |
| HashTables.GrowthDueVersusLoad | Source.cpp:186-187 | On 3 buckets the integer test agrees with a real-valued load of 0.8 for up to 3 keys. On 7 buckets, 6 keys exceed a load of 0.8 but do not trigger growth. |
| HashTables.RemoveFirst | Source.cpp:238-243 | Removing the first occurrence of a listed key shortens the list by one. An unlisted key leaves the list unchanged. |
| HashTables.RemoveFirstBag | Source.cpp:238-243 | Removing the first occurrence of a listed key takes exactly one copy of it out of the list's multiset. |
| HashTables.RemoveFirstAt | Source.cpp:238-243 | Erasing at the first position holding the key is removing its first occurrence. |
| HashTables.SplitBucket | Source.cpp:133-148 | The scan of one old bucket: the kept pairs are sorted and belong to the bucket under the new size. Every moved pair belongs elsewhere and changes its index. Every pair whose index does not change is kept. Kept and moved pairs together are the old bucket. |
| HashTables.HashTable.constructor | Source.cpp:35 | A new table has 3 empty buckets and no keys, is valid, and stores nothing. |
| HashTables.HashTable.Size | Source.cpp:38 | The size is the length of the key list, which is the number of stored entries on a synced table. |
| HashTables.HashTable.Empty | Source.cpp:39 | The table is empty iff the key list is. On a synced table, that is iff nothing is stored. |
| HashTables.HashTable.Find | Source.cpp:213-222 | The answer is the stored value of the key, or none when the key is absent. |
| HashTables.HashTable.InsertPair | Source.cpp:74-92 | An empty range is refused (the `invalid_argument`) and nothing changes. Otherwise the bucket becomes the old bucket with the pair inserted at the returned position inside `[start, end]`. On a sorted bucket, only keys at most the pair's key come before that position in the range, and only larger keys come after it. The key list is untouched. |
| HashTables.HashTable.Place | Source.cpp:154-159 | Placing an absent key, appended to an empty bucket or by `insert_pair`, grows its bucket by exactly one. The table stays valid, the key maps to its value and nothing else changes. |
| HashTables.HashTable.Rehash | Source.cpp:122-163 | After growth, every entry is in the bucket its key hashes to under the new size, and every bucket is sorted. The stored entries are unchanged, and the key list is restored. |
| HashTables.HashTable.Evict | Source.cpp:133-149 | After the first loop, every bucket holds only entries that belong there. Each old bucket still holds every pair whose index did not change, and every staged pair changed its index. The buckets plus the staged pairs are the old entries, and the key list is untouched. |
| HashTables.HashTable.PlaceAll | Source.cpp:151-160 | The second loop places every staged pair, and each target bucket grows by one, so the `throw` is unreachable. The table stays valid and gains exactly the staged pairs. |
| HashTables.HashTable.Grow | Source.cpp:187-191 | Growth to `2 * n + 1` buckets keeps the table valid and keeps every lookup and the key list. |
| HashTables.HashTable.Insert | Source.cpp:173-205 | Inserting a stored key returns false and changes nothing. Inserting an absent key returns true and appends it to the key list. The key then maps to the element, other keys keep their values, and the entries gain the pair. The table ends with `2 * n + 1` buckets if it had at least as many keys as buckets, and is otherwise unchanged in size. It stays valid. |
| HashTables.HashTable.AddNew | Source.cpp:184-203 | For an absent key, the insertion branch grows the table when due, stores the pair and appends the key. The table stays valid, and the bucket count follows the growth rule. |
| HashTables.HashTable.Append | Source.cpp:193-204 | For an absent key, the pair is stored in its bucket, the bucket grows by one, so the key is appended and the answer is true (the final `return false` is unreachable). The table stays valid and no other key changes. |
| HashTables.HashTable.Erase | Source.cpp:229-246 | Erasing makes the key absent and keeps other keys' values. A stored key also loses the first occurrence in the key list, so a synced size drops by one. An absent key changes nothing, and a synced table stays synced. |
| HashTables.HashTable.Clear | Source.cpp:53-59 | Back to 3 empty buckets and no keys: valid and storing nothing. |
| HashTables.HashTable.Subscript | Source.cpp:249-266 | `operator[]` as written. A stored key answers its value and changes nothing. An absent key is stored with the default value, and its key is listed only when its bucket was empty. A synced table stays synced exactly unless the key was absent from a non-empty bucket. |
| HashTables.HashTable.SubscriptRegistered | Source.cpp:249-266 | `operator[]` with the new key always listed: the same answers and buckets, and a synced table stays synced. |
| Scenarios.SubscriptDrift | Source.cpp:249-266 | `t[0]`, `t[3]`, `erase(0)` on a fresh table: `empty()` is true and `size()` is 0 while `find(3)` still answers a value. |
| Scenarios.SubscriptRegisteredKeepsCount | Source.cpp:249-266 | The same calls with the corrected `operator[]`: the table reports one key, and `find(3)` answers it. |
| Scenarios.GrowthSchedule | Source.cpp:185-192 | Inserting 0 to 7 into a fresh table gives bucket counts 3, 3, 3, 7, 7, 7, 7, 15. |

## Left out

- `print_table`, `getKey`, `getValue`, the interactive `main` and the commented-out test `main`: console input and output only.
- The debug output inside `insert` at `Source.cpp:190`: output only.
- Negative keys. Part of the code converts the key to unsigned before `%` and part takes a signed `%`, which disagree. Every public operation requires `key >= 0`.
- The stale-iterator erase loop at `Source.cpp:144-146` is undefined behaviour in C++. Its intended filter is modelled instead.
- Address and reference identity. `find` answers an `Option` rather than a `T*`, and `operator[]` answers the value rather than a `T&`. Writing through the returned reference, and iterator invalidation, are not modelled.
- Exception objects and messages. The `invalid_argument` of `insert_pair` is a `None` answer. The `throw` in `rehash` is an `assert` in `HashTables.HashTable.PlaceAll` that the bucket grew by one, which follows from the contract of `Place`.
- HashTables.HashTable.Insert: requires `Valid()`, so both parts of validity. Its shortcut at `Source.cpp:178` skips the search whenever the key list is empty, which is sound only while the key list matches the buckets. On a drifted table, such as the one `Scenarios.SubscriptDrift` builds, `insert` can store a key twice. That behaviour is not modelled.
- The `T element` in `operator[]` is default-initialised in C++, so for a scalar `T` its value is indeterminate. The model takes any value as the parameter `defaultValue`.
- Integer width. Keys, and the indices and sizes the code keeps in `int` variables, are 32-bit in C++; the model uses unbounded integers. So it admits keys above `INT_MAX` and does not model overflow of `old_size * 2 + 1` at `Source.cpp:188` or of `start + end` at `Source.cpp:89` and `Source.cpp:113`, which would take tables far larger than memory allows.
- The `vector::resize` of `insert` is modelled as appending empty buckets, and the `clear` in `clear()` as replacing the vector. Allocation and capacity are not modelled.

## Findings

| source | as written | input that shows it | evidently intended | confidence | as-written member | corrected member |
|---|---|---|---|---|---|---|
| Source.cpp:262-264 | `operator[]` on a key absent from a non-empty bucket stores the pair through `insert_pair`, which by its own comment does not update `keys`, and never pushes the key. | On a fresh table: `t[0]`, `t[3]`, `erase(0)`. Key 3 shares bucket 0 with key 0. Afterwards `empty()` is true and `size()` is 0, but `find(3)` answers a value. | Every stored key is listed in `keys`, as the empty-bucket branch at `Source.cpp:258` does. | not executed | HashTables.HashTable.Subscript, Scenarios.SubscriptDrift | HashTables.HashTable.SubscriptRegistered |
