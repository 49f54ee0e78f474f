/**
 * The container `HashTable<T>` (Source.cpp:23-266): a separately chained
 * table from non-negative `int` keys to values of type `T`. The field
 * `table` holds the buckets, each kept in ascending key order; the field
 * `keys` is the flat list of stored keys that `size` and `empty` answer from.
 */
module HashTables {
  import opened Wrappers
  import opened Buckets
  import opened Tables

  /** INI_HASH: the number of buckets of a new or cleared table. */
  const InitialCapacity: nat := 3

  /**
   * The growth test of `insert` (Source.cpp:187): `keys.size() / old_size`
   * is an unsigned integer quotient, compared with the double 0.8. It holds
   * exactly when there are at least as many keys as buckets.
   */
  function GrowthDue(count: nat, buckets: nat): (r: bool)
    requires buckets > 0
    ensures r <==> count >= buckets
  {
    (count / buckets) as real >= 0.8
  }

  /**
   * The quotient test against a real-valued load factor of 0.8: on 3 buckets
   * both first hold at 3 keys, but on 7 buckets 6 keys are a load of about
   * 0.86 while the quotient is still 0, so the table waits for a seventh key.
   */
  lemma GrowthDueVersusLoad()
    ensures forall count: nat :: count <= 3 ==> (GrowthDue(count, 3) <==> (count as real) / 3.0 >= 0.8)
    ensures (6 as real) / 7.0 >= 0.8 && !GrowthDue(6, 7)
  {
    assert (2 as real) / 3.0 < 0.8;
  }

  /** The key list after a removal: the first occurrence of `x` dropped. */
  function RemoveFirst(s: seq<int>, x: int): (r: seq<int>)
    ensures x in s ==> |r| == |s| - 1
    ensures x !in s ==> r == s
  {
    if |s| == 0 then s
    else if s[0] == x then s[1..]
    else [s[0]] + RemoveFirst(s[1..], x)
  }

  /** Dropping the first occurrence of a listed key takes exactly one copy of it out of the list's multiset. */
  lemma {:induction false} RemoveFirstBag(s: seq<int>, x: int)
    requires x in s
    ensures multiset(RemoveFirst(s, x)) == multiset(s) - multiset{x}
  {
    assert s == [s[0]] + s[1..];
    if s[0] != x {
      RemoveFirstBag(s[1..], x);
      calc {
        multiset(RemoveFirst(s, x));
        multiset([s[0]] + RemoveFirst(s[1..], x));
        multiset{s[0]} + (multiset(s[1..]) - multiset{x});
        (multiset{s[0]} + multiset(s[1..])) - multiset{x};
        multiset(s) - multiset{x};
      }
    }
  }

  /** Erasing at the first position that holds `x` is removing its first occurrence. */
  lemma {:induction false} RemoveFirstAt(s: seq<int>, x: int, i: nat)
    requires i < |s| && s[i] == x && x !in s[..i]
    ensures RemoveFirst(s, x) == s[..i] + s[i + 1..]
    decreases i
  {
    if i == 0 {
      assert s[..0] + s[1..] == s[1..];
    } else {
      var t := s[1..];
      assert s[0] != x by { assert s[0] == s[..i][0]; }
      assert x !in t[..i - 1] by { assert s[..i] == [s[0]] + t[..i - 1]; }
      RemoveFirstAt(t, x, i - 1);
      calc {
        RemoveFirst(s, x);
        [s[0]] + RemoveFirst(t, x);
        [s[0]] + (t[..i - 1] + t[i..]);
        { assert [s[0]] + t[..i - 1] == s[..i]; assert t[i..] == s[i + 1..]; }
        s[..i] + s[i + 1..];
      }
    }
  }

  /**
   * The scan of one old bucket in `rehash` (Source.cpp:133-148): the entries
   * whose key still hashes to `idx` under `newSize` buckets stay, in order;
   * the others are collected, in scan order, to be moved.
   */
  method SplitBucket<T>(b: Bucket<T>, oldSize: nat, newSize: nat, idx: nat) returns (kept: Bucket<T>, moving: seq<Entry<T>>)
    requires 0 < oldSize && 0 < newSize && Sorted(b) && Fits(b, oldSize, idx)
    ensures Sorted(kept) && Fits(kept, newSize, idx)
    ensures forall q :: 0 <= q < |moving| ==> moving[q].key >= 0 && moving[q].key % newSize != idx
    ensures multiset(kept) + multiset(moving) == multiset(b)
    ensures forall q :: 0 <= q < |moving| ==> moving[q].key % newSize != moving[q].key % oldSize
    ensures forall e :: e in b && e.key % newSize == idx ==> e in kept
  {
    kept := [];
    moving := [];
    var it := 0;
    while it < |b|
      invariant Scanned(b, it, kept, moving, newSize, idx)
    {
      ScanStep(b, it, kept, moving, oldSize, newSize, idx);
      var kv := b[it];
      if kv.key % newSize != idx {
        moving := moving + [kv];
      } else {
        kept := kept + [kv];
      }
      it := it + 1;
    }
    assert b[..|b|] == b;
    forall q | 0 <= q < |moving|
      ensures moving[q].key % oldSize == idx
    {
      assert moving[q] in multiset(b);
    }
    forall e | e in b && e.key % newSize == idx
      ensures e in kept
    {
      assert e in multiset(b);
      assert e !in multiset(moving);
    }
  }

  /**
   * Progress of the scan of one old bucket: after the first `it` entries of
   * `b`, the kept ones are sorted, belong to bucket `idx` under `n` buckets
   * and have keys below the next entry's; the moved ones belong elsewhere;
   * together they are the entries scanned so far.
   */
  ghost predicate Scanned<T>(b: Bucket<T>, it: nat, kept: Bucket<T>, moving: seq<Entry<T>>, n: nat, idx: nat) {
    n > 0 && it <= |b| && Sorted(kept) && Fits(kept, n, idx)
    && (it < |b| && |kept| > 0 ==> kept[|kept| - 1].key < b[it].key)
    && (forall q :: 0 <= q < |moving| ==> moving[q].key >= 0 && moving[q].key % n != idx)
    && multiset(kept) + multiset(moving) == multiset(b[..it])
  }

  /** Appending an entry that fits and has a larger key keeps a kept bucket sorted and fitting. */
  lemma KeepNext<T>(kept: Bucket<T>, e: Entry<T>, n: nat, idx: nat)
    requires n > 0 && Sorted(kept) && Fits(kept, n, idx)
    requires |kept| > 0 ==> kept[|kept| - 1].key < e.key
    requires e.key >= 0 && e.key % n == idx
    ensures Sorted(kept + [e]) && Fits(kept + [e], n, idx)
  {
  }

  lemma ScanStep<T>(b: Bucket<T>, it: nat, kept: Bucket<T>, moving: seq<Entry<T>>, oldSize: nat, n: nat, idx: nat)
    requires 0 < oldSize && Sorted(b) && Fits(b, oldSize, idx)
    requires Scanned(b, it, kept, moving, n, idx) && it < |b|
    ensures b[it].key % n != idx ==> Scanned(b, it + 1, kept, moving + [b[it]], n, idx)
    ensures b[it].key % n == idx ==> Scanned(b, it + 1, kept + [b[it]], moving, n, idx)
  {
    var kv := b[it];
    assert b[..it + 1] == b[..it] + [kv];
    assert it + 1 < |b| ==> kv.key < b[it + 1].key;
    if kv.key % n == idx {
      KeepNext(kept, kv, n, idx);
    }
  }

  /**
   * Progress of the first loop of `rehash`: the buckets before `idx` hold
   * only entries that belong there under the new size, and the others are
   * still those of `t0`.
   */
  ghost predicate Evicted<T>(t: Table<T>, t0: Table<T>, idx: nat) {
    |t| == |t0| && idx <= |t|
    && (forall j :: idx <= j < |t| ==> t[j] == t0[j])
    && (forall j :: 0 <= j < idx ==> |t| > 0 && Sorted(t[j]) && Fits(t[j], |t|, j))
  }

  /**
   * Progress of the first loop of `rehash`, for the entries that stay: every
   * entry of an old bucket before `idx` whose key still hashes to that
   * bucket is still in it.
   */
  ghost predicate Retained<T>(t: Table<T>, t0: Table<T>, idx: nat) {
    |t| == |t0| && 0 < |t|
    && forall j, e :: 0 <= j < idx && j < |t| && e in t0[j] && e.key % |t| == j ==> e in t[j]
  }

  /** Replacing bucket `idx` by one that keeps its staying entries extends `Retained` by one bucket. */
  lemma RetainStep<T>(t: Table<T>, t0: Table<T>, idx: nat, kept: Bucket<T>)
    requires Retained(t, t0, idx) && idx < |t| && t[idx] == t0[idx]
    requires forall e :: e in t0[idx] && e.key % |t| == idx ==> e in kept
    ensures Retained(t[idx := kept], t0, idx + 1)
  {
  }

  /** A table that grew by empty buckets still has distinct keys. */
  lemma GrownUnique<T>(t: Table<T>, oldSize: nat)
    requires 0 < oldSize <= |t| && SortedAndPlaced(t[..oldSize])
    requires forall j :: oldSize <= j < |t| ==> t[j] == []
    ensures UniqueKeys(Entries(t))
  {
    assert t == t[..oldSize] + t[oldSize..];
    EntriesConcat(t[..oldSize], t[oldSize..]);
    EmptyTable(t[oldSize..]);
    EntriesUnique(t[..oldSize]);
  }

  /** The next bucket the first loop of `rehash` scans is still an old, well-formed one. */
  lemma EvictNext<T>(t: Table<T>, t0: Table<T>, idx: nat, oldSize: nat)
    requires Evicted(t, t0, idx) && idx < oldSize <= |t0| && SortedAndPlaced(t0[..oldSize])
    ensures Sorted(t[idx]) && Fits(t[idx], oldSize, idx)
  {
    assert t[idx] == t0[..oldSize][idx];
  }

  /** One iteration of the first loop of `rehash` keeps its progress predicate. */
  lemma EvictStep<T>(t: Table<T>, t0: Table<T>, idx: nat, kept: Bucket<T>)
    requires Evicted(t, t0, idx) && idx < |t| && Sorted(kept) && Fits(kept, |t|, idx)
    ensures Evicted(t[idx := kept], t0, idx + 1)
  {
  }

  /** The entries moved out of a bucket are the ones added to the staged list. */
  lemma StageStep<T>(t: Table<T>, e0: multiset<Entry<T>>, idx: nat, staged: seq<Entry<T>>, kept: Bucket<T>, moving: seq<Entry<T>>)
    requires idx < |t| && Entries(t) + multiset(staged) == e0
    requires multiset(kept) + multiset(moving) == multiset(t[idx])
    ensures Entries(t[idx := kept]) + multiset(staged + moving) == e0
  {
    var s0, m := multiset(staged), multiset(moving);
    calc {
      multiset(kept) + multiset(staged + moving);
      multiset(kept) + (s0 + m);
      (multiset(kept) + m) + s0;
      multiset(t[idx]) + s0;
    }
    EntriesSplit(t, idx, kept, s0, multiset(staged + moving));
  }

  /** Staged entries keep non-negative keys that hash to another bucket under `n` than under `oldSize`. */
  lemma StageKeys<T>(staged: seq<Entry<T>>, moving: seq<Entry<T>>, n: nat, oldSize: nat)
    requires 0 < n && 0 < oldSize
    requires forall q :: 0 <= q < |staged| ==> staged[q].key >= 0 && staged[q].key % n != staged[q].key % oldSize
    requires forall q :: 0 <= q < |moving| ==> moving[q].key >= 0 && moving[q].key % n != moving[q].key % oldSize
    ensures forall q :: 0 <= q < |staged + moving| ==>
              (staged + moving)[q].key >= 0 && (staged + moving)[q].key % n != (staged + moving)[q].key % oldSize
  {
  }

  lemma EvictDone<T>(t: Table<T>, t0: Table<T>, oldSize: nat)
    requires 0 < oldSize <= |t| && Evicted(t, t0, oldSize)
    requires forall j :: oldSize <= j < |t0| ==> t0[j] == []
    ensures SortedAndPlaced(t)
  {
  }

  class HashTable<T> {
    var table: Table<T>
    var keys: seq<int>

    /** Every bucket is sorted and every entry sits in bucket `key % |table|`. */
    ghost predicate Structural()
      reads this
    {
      SortedAndPlaced(table)
    }

    /** `keys` lists exactly the stored keys, each as often as it is stored. */
    ghost predicate Synced()
      reads this
    {
      multiset(keys) == KeyBag(table)
    }

    ghost predicate Valid()
      reads this
    {
      Structural() && Synced()
    }

    /** `HashTable()`: INI_HASH empty buckets and no keys. */
    constructor ()
      ensures table == seq(InitialCapacity, _ => []) && keys == []
      ensures Valid() && forall k :: Lookup(table, k) == None
    {
      var t: Table<T> := seq(InitialCapacity, _ => []);
      EmptyTable(t);
      table := t;
      keys := [];
    }

    /** `size()`: the length of the key list, which is the number of stored entries when synced. */
    function Size(): (n: nat)
      reads this
      ensures Synced() ==> n == |Entries(table)|
    {
      KeyBagSize(table);
      |keys|
    }

    /** `empty()`: no keys listed, which means nothing stored when synced. */
    function Empty(): (r: bool)
      reads this
      ensures Synced() ==> (r <==> Entries(table) == multiset{})
    {
      KeyBagSize(table);
      |keys| == 0
    }

    /** `find` (Source.cpp:213-222): the value stored under `key`, by binary search of its bucket. */
    function Find(key: int): (r: Option<T>)
      reads this
      requires Structural() && key >= 0
      ensures r == Lookup(table, key)
    {
      var b := table[key % |table|];
      if |b| == 0 then None
      else
        var it := SearchKey(b, key, 0, |b|);
        SearchKeyFinds(b, key);
        if it == |b| then None else Some(b[it].value)
    }

    /**
     * `insert_pair` (Source.cpp:74-92): binary insertion of `kv` into the
     * range [start, end) of bucket `idx`, in place. `None` stands for the
     * `invalid_argument` thrown on an empty range; otherwise the answer is
     * the position of the inserted pair. On a sorted bucket that position
     * has only keys at most `kv.key` before it and only larger keys after it
     * within the range. The key list is not touched.
     */
    method InsertPair(idx: nat, kv: Entry<T>, start: nat, end: nat) returns (r: Option<nat>)
      requires idx < |table| && start <= end <= |table[idx]|
      modifies this
      ensures keys == old(keys)
      ensures start == end ==> r == None && table == old(table)
      ensures start < end ==> r.Some? && start <= r.value <= end
      ensures r.Some? ==> table == old(table)[idx := InsertAt(old(table[idx]), r.value, kv)]
      ensures r.Some? && Sorted(old(table[idx])) ==>
                (forall i :: start <= i < r.value ==> old(table[idx])[i].key <= kv.key)
                && (forall i :: r.value <= i < end ==> kv.key < old(table[idx])[i].key)
      decreases end - start
    {
      if end == start {
        return None;
      }
      if end - start == 1 {
        if kv.key < table[idx][start].key {
          table := table[idx := InsertAt(table[idx], start, kv)];
          return Some(start);
        } else {
          table := table[idx := InsertAt(table[idx], end, kv)];
          return Some(end);
        }
      }
      var mid := (start + end) / 2;
      if kv.key < table[idx][mid].key {
        r := InsertPair(idx, kv, start, mid);
      } else {
        r := InsertPair(idx, kv, mid, end);
      }
    }

    /**
     * Places `kv`, whose key is not stored, in the bucket its key hashes to:
     * appended when that bucket is empty, by `insert_pair` otherwise
     * (Source.cpp:154-156 in `rehash`, Source.cpp:194-198 in `insert`).
     * That bucket grows by exactly one, which is the check both callers make.
     */
    method Place(kv: Entry<T>) returns (pos: nat)
      requires SortedAndPlaced(table) && kv.key >= 0 && Lookup(table, kv.key) == None
      modifies this
      ensures SortedAndPlaced(table) && |table| == old(|table|) && keys == old(keys)
      ensures pos < |table[kv.key % |table|]| && table[kv.key % |table|][pos] == kv
      ensures |table[kv.key % |table|]| == old(|table[kv.key % |table|]|) + 1
      ensures Lookup(table, kv.key) == Some(kv.value)
      ensures forall k :: k != kv.key ==> Lookup(table, k) == old(Lookup(table, k))
      ensures Entries(table) == old(Entries(table)) + multiset{kv}
    {
      ghost var t1 := table;
      var idx := kv.key % |table|;
      var bSize := |table[idx]|;
      pos := 0;
      if bSize == 0 {
        table := table[idx := table[idx] + [kv]];
        assert table[idx] == InsertAt(t1[idx], 0, kv);
      } else {
        var r := InsertPair(idx, kv, 0, bSize);
        pos := r.value;
      }
      PlaceAbsent(t1, pos, kv);
    }

    /**
     * `rehash` (Source.cpp:122-163), called once the table has grown from
     * `oldSize` to `2 * oldSize + 1` buckets. Each old bucket keeps, in
     * order, the entries whose key still hashes to it; the others are staged
     * in scan order and then placed one by one in their new buckets. The
     * stored entries do not change, the key list is restored, and every
     * entry ends in the bucket its key hashes to.
     */
    method Rehash(oldSize: nat)
      requires 0 < oldSize && |table| == 2 * oldSize + 1
      requires SortedAndPlaced(table[..oldSize])
      requires forall j :: oldSize <= j < |table| ==> table[j] == []
      modifies this
      ensures SortedAndPlaced(table) && |table| == old(|table|)
      ensures Entries(table) == old(Entries(table))
      ensures keys == old(keys)
    {
      var keysBackup := keys;
      GrownUnique(table, oldSize);
      var staged := Evict(oldSize);
      PlaceAll(staged);
      keys := keysBackup;
    }

    /**
     * The first loop of `rehash` (Source.cpp:133-149): every old bucket is
     * split, its staying entries left in place and the others appended to
     * `staged`. Afterwards every bucket holds only entries that belong
     * there, an old bucket still holds every entry whose index did not
     * change, every staged entry changed its index, and the buckets and
     * `staged` together hold the old entries.
     */
    method Evict(oldSize: nat) returns (staged: seq<Entry<T>>)
      requires 0 < oldSize <= |table|
      requires SortedAndPlaced(table[..oldSize])
      requires forall j :: oldSize <= j < |table| ==> table[j] == []
      modifies this
      ensures SortedAndPlaced(table) && |table| == old(|table|) && keys == old(keys)
      ensures forall q :: 0 <= q < |staged| ==>
                staged[q].key >= 0 && staged[q].key % |table| != staged[q].key % oldSize
      ensures forall j, e :: 0 <= j < oldSize && e in old(table[j]) && e.key % |table| == j ==> e in table[j]
      ensures Entries(table) + multiset(staged) == old(Entries(table))
    {
      staged := [];
      ghost var t0 := table;
      var idx := 0;
      while idx < oldSize
        invariant 0 <= idx <= oldSize && keys == old(keys)
        invariant Evicted(table, t0, idx) && Retained(table, t0, idx)
        invariant forall q :: 0 <= q < |staged| ==>
                    staged[q].key >= 0 && staged[q].key % |table| != staged[q].key % oldSize
        invariant Entries(table) + multiset(staged) == Entries(t0)
      {
        EvictNext(table, t0, idx, oldSize);
        var kept, moving := SplitBucket(table[idx], oldSize, |table|, idx);
        EvictStep(table, t0, idx, kept);
        RetainStep(table, t0, idx, kept);
        StageStep(table, Entries(t0), idx, staged, kept, moving);
        StageKeys(staged, moving, |table|, oldSize);
        table := table[idx := kept];
        staged := staged + moving;
        idx := idx + 1;
      }
      EvictDone(table, t0, oldSize);
    }

    /**
     * The second loop of `rehash` (Source.cpp:151-160): the staged entries,
     * whose keys are distinct and not stored, are placed one by one. The
     * check at Source.cpp:157-159 is the assertion that the target bucket
     * grew by one, which `Place` guarantees.
     */
    method PlaceAll(staged: seq<Entry<T>>)
      requires SortedAndPlaced(table)
      requires forall q :: 0 <= q < |staged| ==> staged[q].key >= 0
      requires UniqueKeys(Entries(table) + multiset(staged))
      modifies this
      ensures SortedAndPlaced(table) && |table| == old(|table|) && keys == old(keys)
      ensures Entries(table) == old(Entries(table)) + multiset(staged)
    {
      ghost var e0 := Entries(table) + multiset(staged);
      var i := 0;
      assert staged[0..] == staged;
      while i < |staged|
        invariant 0 <= i <= |staged| && |table| == old(|table|) && keys == old(keys)
        invariant SortedAndPlaced(table)
        invariant Entries(table) + multiset(staged[i..]) == e0
      {
        StagedKeyAbsent(table, staged, i, e0);
        ghost var t1 := table;
        var newIdx := staged[i].key % |table|;
        var bSize := |table[newIdx]|;
        var _ := Place(staged[i]);
        assert |table[newIdx]| == bSize + 1;
        StagedStep(t1, table, staged, i, e0);
        i := i + 1;
      }
      assert staged[i..] == [];
    }

    /**
     * The growth step of `insert` (Source.cpp:187-191): `n` buckets become
     * `2 * n + 1` and the table is rehashed. Every key keeps its value and
     * the key list is unchanged.
     */
    method Grow()
      requires Valid()
      modifies this
      ensures Valid() && |table| == 2 * old(|table|) + 1 && keys == old(keys)
      ensures forall k :: Lookup(table, k) == old(Lookup(table, k))
      ensures Entries(table) == old(Entries(table))
    {
      ghost var t0 := table;
      var oldSize := |table|;
      var empties: seq<Bucket<T>> := seq(oldSize + 1, _ => []);
      table := table + empties;
      assert table[..oldSize] == t0;
      EntriesConcat(t0, empties);
      EmptyTable(empties);
      Rehash(oldSize);
      SameEntriesSameLookup(t0, table);
      SameLookupSameKeys(t0, table);
    }

    /**
     * `insert` (Source.cpp:173-205). A stored key is refused and nothing
     * changes. Otherwise the table first grows to `2 * n + 1` buckets when
     * there are at least as many keys as buckets; then the pair is placed in
     * its bucket and its key appended to the key list.
     */
    method Insert(key: int, element: T) returns (inserted: bool)
      requires Valid() && key >= 0
      modifies this
      ensures Valid()
      ensures inserted <==> old(Lookup(table, key)) == None
      ensures !inserted ==> table == old(table) && keys == old(keys)
      ensures inserted ==> keys == old(keys) + [key]
      ensures inserted ==> Lookup(table, key) == Some(element)
      ensures forall k :: k != key ==> Lookup(table, k) == old(Lookup(table, k))
      ensures inserted ==> Entries(table) == old(Entries(table)) + multiset{Entry(key, element)}
      ensures inserted ==> |table| == if old(|keys|) >= old(|table|) then 2 * old(|table|) + 1 else old(|table|)
    {
      var idx := key % |table|;
      var found := |table[idx]|;
      if |keys| > 0 {
        found := SearchKey(table[idx], key, 0, |table[idx]|);
        SearchKeyFinds(table[idx], key);
      } else {
        KeyBagCount(table, key);
      }
      if found != |table[idx]| {
        return false;
      }
      inserted := AddNew(key, element);
    }

    /**
     * The insertion branch of `insert` (Source.cpp:184-203), for a key that
     * is not stored: grow first when there are at least as many keys as
     * buckets, then place the pair; the bucket grows by one, so the key is
     * appended to the key list and the answer is true.
     */
    method AddNew(key: int, element: T) returns (added: bool)
      requires Valid() && key >= 0 && Lookup(table, key) == None
      modifies this
      ensures Valid() && added
      ensures keys == old(keys) + [key]
      ensures Lookup(table, key) == Some(element)
      ensures forall k :: k != key ==> Lookup(table, k) == old(Lookup(table, k))
      ensures Entries(table) == old(Entries(table)) + multiset{Entry(key, element)}
      ensures |table| == if old(|keys|) >= old(|table|) then 2 * old(|table|) + 1 else old(|table|)
    {
      if GrowthDue(|keys|, |table|) {
        Grow();
      }
      added := Append(key, element);
    }

    /**
     * The placement at the end of `insert` (Source.cpp:193-204): the pair
     * goes into its bucket and the key is appended to the key list when that
     * bucket grew by one, which it always does, so the final `return false`
     * is never reached.
     */
    method Append(key: int, element: T) returns (added: bool)
      requires Valid() && key >= 0 && Lookup(table, key) == None
      modifies this
      ensures Valid() && added && |table| == old(|table|)
      ensures keys == old(keys) + [key]
      ensures Lookup(table, key) == Some(element)
      ensures forall k :: k != key ==> Lookup(table, k) == old(Lookup(table, k))
      ensures Entries(table) == old(Entries(table)) + multiset{Entry(key, element)}
    {
      var idx := key % |table|;
      ghost var t1 := table;
      var bSize := |table[idx]|;
      var _ := Place(Entry(key, element));
      added := |table[idx]| == bSize + 1;
      if added {
        SyncedAdd(t1, keys, table, key);
        keys := keys + [key];
      }
    }

    /**
     * `erase` (Source.cpp:229-246). A stored key loses its entry and its
     * first occurrence in the key list, so the size drops by one; an absent
     * key changes nothing.
     */
    method Erase(key: int)
      requires Structural() && key >= 0
      modifies this
      ensures Structural() && |table| == old(|table|)
      ensures Lookup(table, key) == None
      ensures forall k :: k != key ==> Lookup(table, k) == old(Lookup(table, k))
      ensures old(Lookup(table, key)) == None ==> table == old(table) && keys == old(keys)
      ensures old(Lookup(table, key)).Some? ==> keys == RemoveFirst(old(keys), key)
      ensures old(Synced()) ==> Synced()
      ensures old(Synced()) && old(Lookup(table, key)).Some? ==> |keys| == old(|keys|) - 1
    {
      ghost var t0 := table;
      var idx := key % |table|;
      var b := table[idx];
      var it := SearchKey(b, key, 0, |b|);
      SearchKeyFinds(b, key);
      if it != |b| {
        RemoveFromTable(table, key, it);
        table := table[idx := RemoveAt(b, it)];
        var i := 0;
        while i < |keys| && keys[i] != key
          invariant 0 <= i <= |keys|
          invariant key !in keys[..i]
        {
          assert keys[..i + 1] == keys[..i] + [keys[i]];
          i := i + 1;
        }
        if i < |keys| {
          RemoveFirstAt(keys, key, i);
          RemoveFirstBag(keys, key);
          keys := keys[..i] + keys[i + 1..];
        } else {
          assert keys[..i] == keys;
        }
        if old(Synced()) {
          SyncedHas(t0, old(keys), key);
          SyncedRemove(t0, old(keys), table, keys, key);
        }
      }
    }

    /** `clear` (Source.cpp:53-59): back to INI_HASH empty buckets and no keys. */
    method Clear()
      modifies this
      ensures table == seq(InitialCapacity, _ => []) && keys == []
      ensures Valid() && forall k :: Lookup(table, k) == None
    {
      var t: Table<T> := seq(InitialCapacity, _ => []);
      EmptyTable(t);
      table := t;
      keys := [];
    }

    /**
     * `operator[]` (Source.cpp:249-266) as written, with the value a
     * default-constructed `T` would have passed in. A stored key answers its
     * value and nothing changes. An absent key is stored with the default
     * value: appended, with its key registered, when its bucket is empty;
     * placed by `insert_pair` WITHOUT registering its key otherwise, which
     * is exactly when a synced key list stops being synced.
     */
    method Subscript(key: int, defaultValue: T) returns (v: T)
      requires Structural() && key >= 0
      modifies this
      ensures Structural() && |table| == old(|table|)
      ensures v == if old(Lookup(table, key)).Some? then old(Lookup(table, key)).value else defaultValue
      ensures Lookup(table, key) == Some(v)
      ensures forall k :: k != key ==> Lookup(table, k) == old(Lookup(table, k))
      ensures old(Lookup(table, key)).Some? ==> table == old(table)
      ensures keys == if old(|table[key % |table|]|) == 0 then old(keys) + [key] else old(keys)
      ensures old(Synced()) ==>
                (Synced() <==> !(old(Lookup(table, key)) == None && old(|table[key % |table|]|) > 0))
    {
      ghost var t0 := table;
      var idx := key % |table|;
      var kv := Entry(key, defaultValue);
      if |table[idx]| == 0 {
        var _ := Place(kv);
        if old(Synced()) {
          SyncedAdd(t0, keys, table, key);
        }
        keys := keys + [key];
        return table[idx][0].value;
      }
      var b := table[idx];
      var it := SearchKey(b, key, 0, |b|);
      SearchKeyFinds(b, key);
      if it != |b| {
        return b[it].value;
      }
      var pos := Place(kv);
      if old(Synced()) {
        SyncedLost(t0, keys, table, key);
      }
      v := table[idx][pos].value;
    }

    /**
     * `operator[]` with the key list kept in step: the same as `Subscript`
     * except that a key stored by `insert_pair` is registered too, so a
     * synced table stays synced.
     */
    method SubscriptRegistered(key: int, defaultValue: T) returns (v: T)
      requires Structural() && key >= 0
      modifies this
      ensures Structural() && |table| == old(|table|)
      ensures v == if old(Lookup(table, key)).Some? then old(Lookup(table, key)).value else defaultValue
      ensures Lookup(table, key) == Some(v)
      ensures forall k :: k != key ==> Lookup(table, k) == old(Lookup(table, k))
      ensures old(Lookup(table, key)).Some? ==> table == old(table)
      ensures keys == if old(Lookup(table, key)) == None then old(keys) + [key] else old(keys)
      ensures old(Synced()) ==> Synced()
    {
      ghost var t0 := table;
      var idx := key % |table|;
      var kv := Entry(key, defaultValue);
      if |table[idx]| == 0 {
        var _ := Place(kv);
        if old(Synced()) {
          SyncedAdd(t0, keys, table, key);
        }
        keys := keys + [key];
        return table[idx][0].value;
      }
      var b := table[idx];
      var it := SearchKey(b, key, 0, |b|);
      SearchKeyFinds(b, key);
      if it != |b| {
        return b[it].value;
      }
      var pos := Place(kv);
      if old(Synced()) {
        SyncedAdd(t0, keys, table, key);
      }
      keys := keys + [key];
      v := table[idx][pos].value;
    }
  }
}
