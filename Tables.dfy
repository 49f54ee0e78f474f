/**
 * The table as a whole: a sequence of buckets in which every entry sits in
 * bucket `key % |t|`. This module holds the ghost view that the class in
 * HashTable.dfy is specified against: the multiset of stored entries, the
 * multiset of stored keys, and the value a key maps to.
 */
module Tables {
  import opened Wrappers
  import opened Buckets

  type Table<T> = seq<Bucket<T>>

  /** Every entry of `b` has a non-negative key that hashes to index `i` of an `n`-bucket table. */
  ghost predicate Fits<T>(b: Bucket<T>, n: nat, i: nat)
    requires n > 0
  {
    forall j :: 0 <= j < |b| ==> b[j].key >= 0 && b[j].key % n == i
  }

  /** The structural invariant: at least one bucket, each sorted, each entry in its own bucket. */
  ghost predicate SortedAndPlaced<T>(t: Table<T>) {
    |t| > 0 && forall i :: 0 <= i < |t| ==> Sorted(t[i]) && Fits(t[i], |t|, i)
  }

  /** The value stored under `k`: a linear scan of the bucket `k` hashes to. */
  ghost function Lookup<T>(t: Table<T>, k: int): Option<T>
    requires |t| > 0
  {
    ValueOf(t[k % |t|], k)
  }

  /** All stored entries, bucket by bucket. */
  ghost function Entries<T>(t: Table<T>): multiset<Entry<T>> {
    if |t| == 0 then multiset{} else Entries(t[..|t| - 1]) + multiset(t[|t| - 1])
  }

  /** All stored keys, bucket by bucket. */
  ghost function KeyBag<T>(t: Table<T>): multiset<int> {
    if |t| == 0 then multiset{} else KeyBag(t[..|t| - 1]) + multiset(KeysOf(t[|t| - 1]))
  }

  /** No two stored entries share a key, and none is stored twice. */
  ghost predicate UniqueKeys<T>(m: multiset<Entry<T>>) {
    forall e1, e2 :: e1 in m && e2 in m && e1.key == e2.key ==> e1 == e2 && m[e1] == 1
  }

  /** A table whose buckets are all empty holds nothing. */
  lemma {:induction false} EmptyTable<T>(t: Table<T>)
    requires forall i :: 0 <= i < |t| ==> t[i] == []
    ensures Entries(t) == multiset{} && KeyBag(t) == multiset{}
    ensures |t| > 0 ==> SortedAndPlaced(t) && forall k :: Lookup(t, k) == None
    decreases |t|
  {
    if |t| > 0 {
      EmptyTable(t[..|t| - 1]);
    }
  }

  /** Appending buckets adds their entries. */
  lemma {:induction false} EntriesConcat<T>(a: Table<T>, c: Table<T>)
    ensures Entries(a + c) == Entries(a) + Entries(c)
    decreases |c|
  {
    if |c| == 0 {
      assert a + c == a;
    } else {
      assert (a + c)[..|a + c| - 1] == a + c[..|c| - 1];
      EntriesConcat(a, c[..|c| - 1]);
    }
  }

  /** Replacing one bucket trades its entries for the new bucket's. */
  lemma {:induction false} EntriesUpdate<T>(t: Table<T>, i: nat, b: Bucket<T>)
    requires i < |t|
    ensures Entries(t[i := b]) + multiset(t[i]) == Entries(t) + multiset(b)
    decreases |t|
  {
    var last := |t| - 1;
    var t' := t[i := b];
    if i == last {
      assert t'[..last] == t[..last];
    } else {
      assert t'[..last] == t[..last][i := b];
      assert t[..last][i] == t[i];
      EntriesUpdate(t[..last], i, b);
      assert Entries(t') == Entries(t'[..last]) + multiset(t[last]);
      BagShuffle(Entries(t'[..last]), multiset(t[i]), Entries(t[..last]), multiset(b), multiset(t[last]));
    }
  }

  /** Adding the same bag to both sides of an equation of bags. */
  lemma BagShuffle<E>(f: multiset<E>, x: multiset<E>, g: multiset<E>, y: multiset<E>, l: multiset<E>)
    requires f + x == g + y
    ensures (f + l) + x == (g + l) + y
  {
    calc {
      (f + l) + x;
      (f + x) + l;
      (g + y) + l;
      (g + l) + y;
    }
  }

  /** A bucket that gains one entry adds that entry to the table's. */
  lemma EntriesGrow<T>(t: Table<T>, i: nat, b: Bucket<T>, e: Entry<T>)
    requires i < |t| && multiset(b) == multiset(t[i]) + multiset{e}
    ensures Entries(t[i := b]) == Entries(t) + multiset{e}
  {
    EntriesUpdate(t, i, b);
    var m := multiset(t[i]);
    calc {
      Entries(t[i := b]);
      (Entries(t[i := b]) + m) - m;
      (Entries(t) + (m + multiset{e})) - m;
      ((Entries(t) + multiset{e}) + m) - m;
      Entries(t) + multiset{e};
    }
  }

  /** Every bucket's entries are among the table's. */
  lemma {:induction false} BucketInEntries<T>(t: Table<T>, d: nat)
    requires d < |t|
    ensures multiset(t[d]) <= Entries(t)
    decreases |t|
  {
    if d < |t| - 1 {
      BucketInEntries(t[..|t| - 1], d);
    }
  }

  /** The count of `e` among the first `m` buckets: only its own bucket can hold it. */
  lemma {:induction false} EntriesPrefixCount<T>(t: Table<T>, m: nat, e: Entry<T>)
    requires SortedAndPlaced(t) && m <= |t|
    ensures Entries(t[..m])[e] == if e.key % |t| < m then multiset(t[e.key % |t|])[e] else 0
    decreases m
  {
    if m > 0 {
      var b := t[m - 1];
      assert t[..m][..m - 1] == t[..m - 1];
      assert Entries(t[..m]) == Entries(t[..m - 1]) + multiset(b);
      EntriesPrefixCount(t, m - 1, e);
      var d := e.key % |t|;
      if d != m - 1 {
        forall j | 0 <= j < |b|
          ensures b[j] != e
        {
          assert b[j].key % |t| == m - 1;
        }
        assert multiset(b)[e] == 0;
      }
    }
  }

  /** The count of `k` among the keys of the first `m` buckets. */
  lemma {:induction false} KeyBagPrefixCount<T>(t: Table<T>, m: nat, k: int)
    requires SortedAndPlaced(t) && m <= |t|
    ensures KeyBag(t[..m])[k] == if k % |t| < m then multiset(KeysOf(t[k % |t|]))[k] else 0
    decreases m
  {
    if m > 0 {
      var b := t[m - 1];
      var ks := KeysOf(b);
      assert t[..m][..m - 1] == t[..m - 1];
      assert KeyBag(t[..m]) == KeyBag(t[..m - 1]) + multiset(ks);
      KeyBagPrefixCount(t, m - 1, k);
      var d := k % |t|;
      if d != m - 1 {
        forall j | 0 <= j < |ks|
          ensures ks[j] != k
        {
          assert ks[j] == b[j].key && b[j].key % |t| == m - 1;
        }
        assert multiset(ks)[k] == 0;
      }
    }
  }

  /** An entry is stored as often as its own bucket holds it. */
  lemma EntriesCount<T>(t: Table<T>, e: Entry<T>)
    requires SortedAndPlaced(t)
    ensures Entries(t)[e] == multiset(t[e.key % |t|])[e]
  {
    EntriesPrefixCount(t, |t|, e);
    assert t[..|t|] == t;
  }

  /** In a well-formed table each key is counted once if it is stored and not at all otherwise. */
  lemma KeyBagCount<T>(t: Table<T>, k: int)
    requires SortedAndPlaced(t)
    ensures KeyBag(t)[k] == if Lookup(t, k).Some? then 1 else 0
  {
    KeyBagPrefixCount(t, |t|, k);
    assert t[..|t|] == t;
    KeysOfCount(t[k % |t|], k);
  }

  /** A well-formed table stores each key at most once. */
  lemma EntriesUnique<T>(t: Table<T>)
    requires SortedAndPlaced(t)
    ensures UniqueKeys(Entries(t))
  {
    forall e1, e2 | e1 in Entries(t) && e2 in Entries(t) && e1.key == e2.key
      ensures e1 == e2 && Entries(t)[e1] == 1
    {
      EntriesCount(t, e1);
      EntriesCount(t, e2);
      SortedOnce(t[e1.key % |t|], e1, e2);
    }
  }

  /** The value under `k` is `v` exactly when the pair (k, v) is stored. */
  lemma LookupEntry<T>(t: Table<T>, k: int, v: T)
    requires SortedAndPlaced(t)
    ensures Lookup(t, k) == Some(v) <==> Entry(k, v) in Entries(t)
  {
    EntriesCount(t, Entry(k, v));
    SortedValueOf(t[k % |t|], k, v);
  }

  /**
   * Two well-formed tables that store the same entries, whatever their
   * number of buckets, map every key alike.
   */
  lemma SameEntriesSameLookup<T>(t1: Table<T>, t2: Table<T>)
    requires SortedAndPlaced(t1) && SortedAndPlaced(t2) && Entries(t1) == Entries(t2)
    ensures forall k :: Lookup(t1, k) == Lookup(t2, k)
  {
    forall k
      ensures Lookup(t1, k) == Lookup(t2, k)
    {
      if Lookup(t1, k).Some? {
        LookupEntry(t1, k, Lookup(t1, k).value);
        LookupEntry(t2, k, Lookup(t1, k).value);
      }
      if Lookup(t2, k).Some? {
        LookupEntry(t2, k, Lookup(t2, k).value);
        LookupEntry(t1, k, Lookup(t2, k).value);
      }
    }
  }

  /** Two valid tables that answer every lookup alike store the same keys. */
  lemma SameLookupSameKeys<T>(t1: Table<T>, t2: Table<T>)
    requires SortedAndPlaced(t1) && SortedAndPlaced(t2)
    requires forall k :: Lookup(t1, k) == Lookup(t2, k)
    ensures KeyBag(t1) == KeyBag(t2)
  {
    forall k
      ensures KeyBag(t1)[k] == KeyBag(t2)[k]
    {
      KeyBagCount(t1, k);
      KeyBagCount(t2, k);
    }
  }

  /** As many keys as entries are stored. */
  lemma {:induction false} KeyBagSize<T>(t: Table<T>)
    ensures |KeyBag(t)| == |Entries(t)|
    decreases |t|
  {
    if |t| > 0 {
      KeyBagSize(t[..|t| - 1]);
    }
  }

  /** A key list matches the stored keys exactly when it lists each stored key once and no other. */
  lemma SyncedIff<T>(t: Table<T>, ks: seq<int>)
    requires SortedAndPlaced(t)
    ensures multiset(ks) == KeyBag(t) <==>
              forall k :: multiset(ks)[k] == if Lookup(t, k).Some? then 1 else 0
  {
    forall k
      ensures KeyBag(t)[k] == if Lookup(t, k).Some? then 1 else 0
    {
      KeyBagCount(t, k);
    }
    if forall k :: multiset(ks)[k] == if Lookup(t, k).Some? then 1 else 0 {
      forall k
        ensures multiset(ks)[k] == KeyBag(t)[k]
      {
      }
      assert multiset(ks) == KeyBag(t);
    }
  }

  /**
   * Trading a bucket for the part of it that stays, while the part that
   * leaves joins a staging multiset, keeps the table and the staging
   * multiset together unchanged.
   */
  lemma EntriesSplit<T>(t: Table<T>, i: nat, kept: Bucket<T>, s0: multiset<Entry<T>>, s: multiset<Entry<T>>)
    requires i < |t| && multiset(kept) + s == multiset(t[i]) + s0
    ensures Entries(t[i := kept]) + s == Entries(t) + s0
  {
    EntriesUpdate(t, i, kept);
    var b := multiset(t[i]);
    calc {
      Entries(t[i := kept]) + s;
      ((Entries(t[i := kept]) + b) + s) - b;
      ((Entries(t) + multiset(kept)) + s) - b;
      (Entries(t) + (multiset(kept) + s)) - b;
      (Entries(t) + (b + s0)) - b;
      ((Entries(t) + s0) + b) - b;
      Entries(t) + s0;
    }
  }

  /** Adding a key that became stored to a matching key list keeps it matching. */
  lemma SyncedAdd<T>(t: Table<T>, ks: seq<int>, t': Table<T>, key: int)
    requires SortedAndPlaced(t) && SortedAndPlaced(t') && multiset(ks) == KeyBag(t)
    requires Lookup(t, key) == None && Lookup(t', key).Some?
    requires forall k :: k != key ==> Lookup(t', k) == Lookup(t, k)
    ensures multiset(ks + [key]) == KeyBag(t')
  {
    SyncedIff(t, ks);
    SyncedIff(t', ks + [key]);
    assert multiset(ks + [key]) == multiset(ks) + multiset{key};
  }

  /** Dropping one occurrence of a key that stopped being stored keeps a matching key list matching. */
  lemma SyncedRemove<T>(t: Table<T>, ks: seq<int>, t': Table<T>, ks': seq<int>, key: int)
    requires SortedAndPlaced(t) && SortedAndPlaced(t') && multiset(ks) == KeyBag(t)
    requires Lookup(t, key).Some? && Lookup(t', key) == None
    requires forall k :: k != key ==> Lookup(t', k) == Lookup(t, k)
    requires multiset(ks') == multiset(ks) - multiset{key}
    ensures key in ks && multiset(ks') == KeyBag(t')
  {
    SyncedIff(t, ks);
    assert multiset(ks)[key] == 1;
    SyncedIff(t', ks');
  }

  /** A stored key occurs in a matching key list. */
  lemma SyncedHas<T>(t: Table<T>, ks: seq<int>, key: int)
    requires SortedAndPlaced(t) && multiset(ks) == KeyBag(t) && Lookup(t, key).Some?
    ensures key in ks
  {
    KeyBagCount(t, key);
  }

  /** A key that became stored without joining a matching key list leaves it no longer matching. */
  lemma SyncedLost<T>(t: Table<T>, ks: seq<int>, t': Table<T>, key: int)
    requires SortedAndPlaced(t) && SortedAndPlaced(t') && multiset(ks) == KeyBag(t)
    requires Lookup(t, key) == None && Lookup(t', key).Some?
    ensures multiset(ks) != KeyBag(t')
  {
    KeyBagCount(t, key);
    KeyBagCount(t', key);
  }

  /**
   * With the table and the staged entries together holding each key once,
   * no bucket holds the key of the next staged entry.
   */
  lemma StagedKeyAbsent<T>(t: Table<T>, s: seq<Entry<T>>, i: nat, e0: multiset<Entry<T>>)
    requires |t| > 0 && UniqueKeys(e0) && i < |s| && Entries(t) + multiset(s[i..]) == e0
    ensures Lookup(t, s[i].key) == None
  {
    assert s[i..][0] == s[i];
    assert s[i] in multiset(s[i..]);
    var d := s[i].key % |t|;
    var b := t[d];
    forall p | 0 <= p < |b|
      ensures KeysOf(b)[p] != s[i].key
    {
      BucketInEntries(t, d);
      assert b[p] in multiset(b);
      assert b[p] in Entries(t);
    }
  }

  /** Placing the next staged entry moves it from the staged rest into the table. */
  lemma StagedStep<T>(t1: Table<T>, t2: Table<T>, s: seq<Entry<T>>, i: nat, e0: multiset<Entry<T>>)
    requires i < |s| && Entries(t1) + multiset(s[i..]) == e0
    requires Entries(t2) == Entries(t1) + multiset{s[i]}
    ensures Entries(t2) + multiset(s[i + 1..]) == e0
  {
    assert s[i..] == [s[i]] + s[i + 1..];
    calc {
      Entries(t2) + multiset(s[i + 1..]);
      (Entries(t1) + multiset{s[i]}) + multiset(s[i + 1..]);
      Entries(t1) + (multiset{s[i]} + multiset(s[i + 1..]));
      Entries(t1) + multiset(s[i..]);
    }
  }

  /** A bucket keeps fitting its index when an entry that fits is added or one is removed. */
  lemma FitsInsert<T>(b: Bucket<T>, n: nat, d: nat, pos: nat, e: Entry<T>)
    requires n > 0 && Fits(b, n, d) && pos <= |b| && e.key >= 0 && e.key % n == d
    ensures Fits(InsertAt(b, pos, e), n, d)
  {
    var r := InsertAt(b, pos, e);
    forall j | 0 <= j < |r|
      ensures r[j].key >= 0 && r[j].key % n == d
    {
      if j < pos { assert r[j] == b[j]; }
      else if j > pos { assert r[j] == b[j - 1]; }
    }
  }

  /** Erasing one entry of a bucket leaves only entries that still belong to it. */
  lemma FitsRemove<T>(b: Bucket<T>, n: nat, d: nat, pos: nat)
    requires n > 0 && Fits(b, n, d) && pos < |b|
    ensures Fits(RemoveAt(b, pos), n, d)
  {
    var r := RemoveAt(b, pos);
    forall j | 0 <= j < |r|
      ensures r[j].key >= 0 && r[j].key % n == d
    {
      if j < pos { assert r[j] == b[j]; } else { assert r[j] == b[j + 1]; }
    }
  }

  /** Replacing one bucket by a sorted, fitting one keeps the table well formed. */
  lemma ReplaceBucket<T>(t: Table<T>, d: nat, b: Bucket<T>)
    requires SortedAndPlaced(t) && d < |t| && Sorted(b) && Fits(b, |t|, d)
    ensures SortedAndPlaced(t[d := b])
    ensures forall k :: k % |t| != d ==> Lookup(t[d := b], k) == Lookup(t, k)
  {
  }

  /**
   * Placing a new entry into its own bucket at a position that splits the
   * bucket around its key keeps the table well formed, stores the entry and
   * leaves every other key alone.
   */
  lemma InsertIntoTable<T>(t: Table<T>, pos: nat, e: Entry<T>)
    requires SortedAndPlaced(t) && e.key >= 0
    requires SplitsAt(t[e.key % |t|], pos, e.key)
    ensures var t' := t[e.key % |t| := InsertAt(t[e.key % |t|], pos, e)];
      && SortedAndPlaced(t')
      && Lookup(t', e.key) == Some(e.value)
      && (forall k :: k != e.key ==> Lookup(t', k) == Lookup(t, k))
      && Entries(t') == Entries(t) + multiset{e}
  {
    var d := e.key % |t|;
    var b' := InsertAt(t[d], pos, e);
    var t' := t[d := b'];
    InsertAtSorted(t[d], pos, e);
    FitsInsert(t[d], |t|, d, pos, e);
    ReplaceBucket(t, d, b');
    EntriesGrow(t, d, b', e);
    forall k | k != e.key
      ensures Lookup(t', k) == Lookup(t, k)
    {
      if k % |t| == d {
        assert Lookup(t', k) == ValueOf(b', k);
      }
    }
  }

  /**
   * The same for a key that is not stored, at a position with only smaller
   * or equal keys before it and only larger keys after it.
   */
  lemma PlaceAbsent<T>(t: Table<T>, pos: nat, e: Entry<T>)
    requires SortedAndPlaced(t) && e.key >= 0 && Lookup(t, e.key) == None
    requires pos <= |t[e.key % |t|]|
    requires forall i :: 0 <= i < pos ==> t[e.key % |t|][i].key <= e.key
    requires forall i :: pos <= i < |t[e.key % |t|]| ==> e.key < t[e.key % |t|][i].key
    ensures var t' := t[e.key % |t| := InsertAt(t[e.key % |t|], pos, e)];
      && SortedAndPlaced(t')
      && Lookup(t', e.key) == Some(e.value)
      && (forall k :: k != e.key ==> Lookup(t', k) == Lookup(t, k))
      && Entries(t') == Entries(t) + multiset{e}
  {
    AbsentSplit(t[e.key % |t|], pos, e.key);
    InsertIntoTable(t, pos, e);
  }

  /**
   * Removing the entry at `pos` of the bucket `k` hashes to, where `k` is
   * stored, keeps the table well formed, unmaps `k` and leaves every other
   * key alone.
   */
  lemma RemoveFromTable<T>(t: Table<T>, k: int, pos: nat)
    requires SortedAndPlaced(t) && pos < |t[k % |t|]| && t[k % |t|][pos].key == k
    ensures var t' := t[k % |t| := RemoveAt(t[k % |t|], pos)];
      && SortedAndPlaced(t')
      && Lookup(t', k) == None
      && (forall k' :: k' != k ==> Lookup(t', k') == Lookup(t, k'))
  {
    var d := k % |t|;
    var b' := RemoveAt(t[d], pos);
    var t' := t[d := b'];
    RemoveAtSorted(t[d], pos);
    FitsRemove(t[d], |t|, d, pos);
    ReplaceBucket(t, d, b');
    forall k' | k' != k
      ensures Lookup(t', k') == Lookup(t, k')
    {
      if k' % |t| == d {
        assert Lookup(t', k') == ValueOf(b', k');
      }
    }
  }
}
