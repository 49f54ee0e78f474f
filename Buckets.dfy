/**
 * One bucket of the hash table: a sequence of key-value pairs kept in
 * ascending key order, with the recursive binary search (`search_key`) and
 * the index arithmetic that binary insertion (`insert_pair`) relies on.
 */
module Buckets {
  import opened Wrappers

  /** A stored pair: `pair<int, T>` in the source. */
  datatype Entry<T> = Entry(key: int, value: T)

  /** One chain of the table. */
  type Bucket<T> = seq<Entry<T>>

  /** Keys strictly ascend along the bucket, so no key occurs twice. */
  ghost predicate Sorted<T>(b: Bucket<T>) {
    forall i, j :: 0 <= i < j < |b| ==> b[i].key < b[j].key
  }

  /** The keys of a bucket, in bucket order. */
  function KeysOf<T>(b: Bucket<T>): seq<int> {
    seq(|b|, i requires 0 <= i < |b| => b[i].key)
  }

  /**
   * The value that the bucket holds under `k`, found by a linear scan. This
   * is the reference meaning against which the binary search is proved.
   */
  function ValueOf<T>(b: Bucket<T>, k: int): (r: Option<T>)
    ensures r.Some? <==> k in KeysOf(b)
    ensures r.Some? ==> Entry(k, r.value) in b
  {
    if |b| == 0 then None
    else if b[0].key == k then
      assert KeysOf(b)[0] == k;
      Some(b[0].value)
    else
      assert k in KeysOf(b) <==> k in KeysOf(b[1..]) by {
        assert KeysOf(b) == [b[0].key] + KeysOf(b[1..]);
      }
      ValueOf(b[1..], k)
  }

  /**
   * `search_key` (Source.cpp:105-116): binary search of `key` over the
   * half-open range [start, end). It answers either a position in the range
   * that holds `key`, or |b|, the end-of-bucket marker. On a sorted bucket,
   * a key present in the range is always found.
   */
  function SearchKey<T>(b: Bucket<T>, key: int, start: nat, end: nat): (r: nat)
    requires start <= end <= |b|
    ensures r == |b| || (start <= r < end && b[r].key == key)
    ensures Sorted(b) && (exists i :: start <= i < end && b[i].key == key) ==> r < |b|
    decreases end - start
  {
    if end - start == 1 then
      if b[start].key == key then start else |b|
    else if start == end then |b|
    else
      var mid := (start + end) / 2;
      if key < b[mid].key then SearchKey(b, key, start, mid)
      else SearchKey(b, key, mid, end)
  }

  /** `b.insert(b.begin() + pos, e)`: `e` placed at `pos`, the rest shifted up. */
  function InsertAt<T>(b: Bucket<T>, pos: nat, e: Entry<T>): (r: Bucket<T>)
    requires pos <= |b|
    ensures |r| == |b| + 1 && r[pos] == e
    ensures forall i :: 0 <= i < pos ==> r[i] == b[i]
    ensures forall i :: pos < i < |r| ==> r[i] == b[i - 1]
    ensures multiset(r) == multiset(b) + multiset{e}
  {
    assert b == b[..pos] + b[pos..];
    b[..pos] + [e] + b[pos..]
  }

  /** `b.erase(b.begin() + pos)`: the entry at `pos` removed, the rest shifted down. */
  function RemoveAt<T>(b: Bucket<T>, pos: nat): (r: Bucket<T>)
    requires pos < |b|
    ensures |r| == |b| - 1
    ensures forall i :: 0 <= i < pos ==> r[i] == b[i]
    ensures forall i :: pos <= i < |r| ==> r[i] == b[i + 1]
    ensures multiset(r) == multiset(b) - multiset{b[pos]}
  {
    assert b == b[..pos] + [b[pos]] + b[pos + 1..];
    b[..pos] + b[pos + 1..]
  }

  /** Every key before `pos` is below `k` and every key from `pos` on is above it. */
  ghost predicate SplitsAt<T>(b: Bucket<T>, pos: nat, k: int)
  {
    pos <= |b|
    && (forall i :: 0 <= i < pos ==> b[i].key < k)
    && (forall i :: pos <= i < |b| ==> k < b[i].key)
  }

  /**
   * A position where everything before is at most `k` and everything after
   * is above it splits the bucket around `k` when `k` is not stored.
   */
  lemma AbsentSplit<T>(b: Bucket<T>, pos: nat, k: int)
    requires pos <= |b| && k !in KeysOf(b)
    requires forall i :: 0 <= i < pos ==> b[i].key <= k
    requires forall i :: pos <= i < |b| ==> k < b[i].key
    ensures SplitsAt(b, pos, k)
  {
    forall i | 0 <= i < pos
      ensures b[i].key < k
    {
      assert KeysOf(b)[i] == b[i].key;
    }
  }

  /** The binary search agrees with the linear reference on a sorted bucket. */
  lemma SearchKeyFinds<T>(b: Bucket<T>, key: int)
    requires Sorted(b)
    ensures SearchKey(b, key, 0, |b|) == |b| <==> ValueOf(b, key) == None
    ensures SearchKey(b, key, 0, |b|) < |b| ==>
              ValueOf(b, key) == Some(b[SearchKey(b, key, 0, |b|)].value)
  {
    var r := SearchKey(b, key, 0, |b|);
    if r < |b| {
      SortedValueOf(b, key, b[r].value);
    } else {
      forall i | 0 <= i < |b|
        ensures KeysOf(b)[i] != key
      {
        assert b[i].key == key ==> r < |b|;
      }
    }
  }

  /** In a sorted bucket, the value under `k` is `v` exactly when the pair (k, v) is stored. */
  lemma {:induction false} SortedValueOf<T>(b: Bucket<T>, k: int, v: T)
    requires Sorted(b)
    ensures ValueOf(b, k) == Some(v) <==> Entry(k, v) in b
    decreases |b|
  {
    if |b| > 0 {
      assert b == [b[0]] + b[1..];
      if b[0].key == k {
        assert forall i :: 1 <= i < |b| ==> b[i] != Entry(k, v);
      } else {
        SortedValueOf(b[1..], k, v);
      }
    }
  }

  /** A lookup in a concatenation finds the left part's entry first. */
  lemma {:induction false} ValueOfConcat<T>(a: Bucket<T>, c: Bucket<T>, k: int)
    ensures ValueOf(a + c, k) == if ValueOf(a, k).Some? then ValueOf(a, k) else ValueOf(c, k)
    decreases |a|
  {
    if |a| == 0 {
      assert a + c == c;
    } else {
      assert (a + c)[1..] == a[1..] + c;
      ValueOfConcat(a[1..], c, k);
    }
  }

  /** Inserting at a position that splits the bucket around the new key keeps it sorted. */
  lemma InsertAtKeepsSorted<T>(b: Bucket<T>, pos: nat, e: Entry<T>)
    requires Sorted(b) && SplitsAt(b, pos, e.key)
    ensures Sorted(InsertAt(b, pos, e))
  {
    var r := InsertAt(b, pos, e);
    forall i, j | 0 <= i < j < |r|
      ensures r[i].key < r[j].key
    {
      if j < pos {
        assert r[i] == b[i] && r[j] == b[j];
      } else if j == pos {
        assert r[i] == b[i];
      } else if i < pos {
        assert r[i] == b[i] && r[j] == b[j - 1];
      } else if i == pos {
        assert r[j] == b[j - 1];
      } else {
        assert r[i] == b[i - 1] && r[j] == b[j - 1];
      }
    }
  }

  /**
   * Inserting `e` at a position that splits the bucket around its key keeps
   * the bucket sorted, makes `e.key` map to `e.value` and leaves every other
   * key's value alone.
   */
  lemma InsertAtSorted<T>(b: Bucket<T>, pos: nat, e: Entry<T>)
    requires Sorted(b) && SplitsAt(b, pos, e.key)
    ensures Sorted(InsertAt(b, pos, e))
    ensures ValueOf(InsertAt(b, pos, e), e.key) == Some(e.value)
    ensures forall k :: k != e.key ==> ValueOf(InsertAt(b, pos, e), k) == ValueOf(b, k)
  {
    InsertAtKeepsSorted(b, pos, e);
    var r := InsertAt(b, pos, e);
    var front, back := b[..pos], b[pos..];
    assert r == front + ([e] + back);
    assert b == front + back;
    assert ([e] + back)[1..] == back;
    assert e.key !in KeysOf(front);
    ValueOfConcat(front, [e] + back, e.key);
    forall k | k != e.key
      ensures ValueOf(r, k) == ValueOf(b, k)
    {
      ValueOfConcat(front, [e] + back, k);
      ValueOfConcat(front, back, k);
    }
  }

  /** Removing an entry keeps a bucket sorted. */
  lemma RemoveAtKeepsSorted<T>(b: Bucket<T>, pos: nat)
    requires Sorted(b) && pos < |b|
    ensures Sorted(RemoveAt(b, pos))
  {
    var r := RemoveAt(b, pos);
    forall i, j | 0 <= i < j < |r|
      ensures r[i].key < r[j].key
    {
      if j < pos {
        assert r[i] == b[i] && r[j] == b[j];
      } else if i < pos {
        assert r[i] == b[i] && r[j] == b[j + 1];
      } else {
        assert r[i] == b[i + 1] && r[j] == b[j + 1];
      }
    }
  }

  /** Removing the entry at `pos` from a sorted bucket removes its key. */
  lemma RemoveAtDropsKey<T>(b: Bucket<T>, pos: nat)
    requires Sorted(b) && pos < |b|
    ensures ValueOf(RemoveAt(b, pos), b[pos].key) == None
  {
    var r := RemoveAt(b, pos);
    forall i | 0 <= i < |r|
      ensures KeysOf(r)[i] != b[pos].key
    {
      if i < pos {
        assert r[i] == b[i] && b[i].key < b[pos].key;
      } else {
        assert r[i] == b[i + 1] && b[pos].key < b[i + 1].key;
      }
    }
    assert b[pos].key !in KeysOf(r);
  }

  /** Removing the entry at `pos` leaves the value of every other key alone. */
  lemma RemoveAtOthers<T>(b: Bucket<T>, pos: nat, k: int)
    requires pos < |b| && k != b[pos].key
    ensures ValueOf(RemoveAt(b, pos), k) == ValueOf(b, k)
  {
    var front, back := b[..pos], b[pos + 1..];
    assert RemoveAt(b, pos) == front + back;
    assert b == front + ([b[pos]] + back);
    assert ([b[pos]] + back)[1..] == back;
    ValueOfConcat(front, [b[pos]] + back, k);
    ValueOfConcat(front, back, k);
  }

  /**
   * Removing the entry at `pos` from a sorted bucket keeps it sorted, removes
   * its key and leaves every other key's value alone.
   */
  lemma RemoveAtSorted<T>(b: Bucket<T>, pos: nat)
    requires Sorted(b) && pos < |b|
    ensures Sorted(RemoveAt(b, pos))
    ensures ValueOf(RemoveAt(b, pos), b[pos].key) == None
    ensures forall k :: k != b[pos].key ==> ValueOf(RemoveAt(b, pos), k) == ValueOf(b, k)
  {
    RemoveAtKeepsSorted(b, pos);
    RemoveAtDropsKey(b, pos);
    forall k | k != b[pos].key
      ensures ValueOf(RemoveAt(b, pos), k) == ValueOf(b, k)
    {
      RemoveAtOthers(b, pos, k);
    }
  }

  /** In a sorted bucket every key occurs at most once among its keys. */
  lemma {:induction false} KeysOfCount<T>(b: Bucket<T>, k: int)
    requires Sorted(b)
    ensures multiset(KeysOf(b))[k] == if k in KeysOf(b) then 1 else 0
    decreases |b|
  {
    if |b| > 0 {
      assert KeysOf(b) == [b[0].key] + KeysOf(b[1..]);
      KeysOfCount(b[1..], k);
      if b[0].key == k {
        assert k !in KeysOf(b[1..]);
      }
    }
  }

  /** In a sorted bucket two stored pairs with the same key are the same pair, stored once. */
  lemma SortedOnce<T>(b: Bucket<T>, e1: Entry<T>, e2: Entry<T>)
    requires Sorted(b) && e1 in b && e2 in b && e1.key == e2.key
    ensures e1 == e2 && multiset(b)[e1] == 1
  {
    var i :| 0 <= i < |b| && b[i] == e1;
    var j :| 0 <= j < |b| && b[j] == e2;
    assert i == j;
    assert b == b[..i] + [b[i]] + b[i + 1..];
    assert e1 !in b[..i] && e1 !in b[i + 1..];
  }
}
