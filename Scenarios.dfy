/**
 * Concrete runs of the container, stated as contracts of client methods.
 */
module Scenarios {
  import opened Wrappers
  import opened Tables
  import opened HashTables

  /**
   * `operator[]` as written loses track of a key: on a fresh table, `t[0]`
   * registers 0, `t[3]` lands in the same (now non-empty) bucket and is not
   * registered, and `erase(0)` empties the key list. The table then reports
   * itself empty although `find(3)` still answers a value.
   */
  method SubscriptDrift() returns (empty: bool, size: nat, found: Option<int>)
    ensures empty && size == 0 && found == Some(0)
  {
    var h := new HashTable<int>();
    var _ := h.Subscript(0, 0);
    var _ := h.Subscript(3, 0);
    h.Erase(0);
    empty := h.Empty();
    size := h.Size();
    found := h.Find(3);
  }

  /** The same calls with the key list kept in step: one key is left and it is counted. */
  method SubscriptRegisteredKeepsCount() returns (empty: bool, size: nat, found: Option<int>)
    ensures !empty && size == 1 && found == Some(0)
  {
    var h := new HashTable<int>();
    var _ := h.SubscriptRegistered(0, 0);
    var _ := h.SubscriptRegistered(3, 0);
    h.Erase(0);
    empty := h.Empty();
    size := h.Size();
    found := h.Find(3);
  }

  /** The bucket count after `k` of the inserts of `GrowthSchedule`. */
  function BucketsAfter(k: nat): nat {
    if k < 4 then 3 else if k < 8 then 7 else 15
  }

  /**
   * Inserting the keys 0 to 7 into a fresh table: the table grows from 3 to
   * 7 buckets on the fourth insert and from 7 to 15 on the eighth.
   */
  method GrowthSchedule() returns (sizes: seq<nat>)
    ensures sizes == [3, 3, 3, 7, 7, 7, 7, 15]
  {
    var h := new HashTable<char>();
    sizes := [];
    var k := 0;
    while k < 8
      invariant 0 <= k <= 8 && Fresh(h, k)
      invariant |sizes| == k && forall i :: 0 <= i < k ==> sizes[i] == BucketsAfter(i + 1)
    {
      InsertNext(h, k);
      sizes := sizes + [|h.table|];
      k := k + 1;
    }
  }

  /** After inserting the keys `0` to `k - 1` into a fresh table. */
  ghost predicate Fresh(h: HashTable<char>, k: nat)
    reads h
  {
    h.Valid() && |h.keys| == k && |h.table| == BucketsAfter(k)
    && forall j :: k <= j ==> Lookup(h.table, j) == None
  }

  /** Inserts the next key, which is not stored yet. */
  method InsertNext(h: HashTable<char>, k: nat)
    requires k < 8 && Fresh(h, k)
    modifies h
    ensures Fresh(h, k + 1)
  {
    var ok := h.Insert(k, 'a');
  }
}
