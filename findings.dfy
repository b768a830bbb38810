/** `Remove`, `Resize` and `View` of hashyt.js as they are written, apart
    from the misspelt method and field names, which are read as intended.
    Concrete inputs show the written `Remove` and `Resize` breaking the
    table's invariant that the corrected class keeps. */
module Findings {
  import opened Sdbm
  import opened Primes
  import opened Buckets

  /** The fields of a `HashTable` object at one moment. */
  datatype Table<V> = Table(storage: seq<Bucket<V>>, limit: int, curSize: int)

  /** `Remove` of hashyt.js:71-89 as written: the entry is spliced out of
      its bucket but `_curSize` is left as it was. An index past the end of
      the storage is a missing bucket (the `!bucket` branch). */
  function RemoveAsWritten<V>(t: Table<V>, key: Key): (r: (Table<V>, bool))
    requires t.limit > 0
    ensures r.0.limit == t.limit && r.0.curSize == t.curSize && |r.0.storage| == |t.storage|
    ensures var h := Slot(Hash, t.limit, key);
      r.1 <==> h < |t.storage| && Lookup(t.storage[h], key).Some?
  {
    var h := Slot(Hash, t.limit, key);
    if h < |t.storage| then
      var i := FirstIndex(t.storage[h], key);
      LookupAt(t.storage[h], key, i);
      if i < |t.storage[h]| then (t.(storage := t.storage[h := RemoveAt(t.storage[h], i)]), true)
      else (t, false)
    else (t, false)
  }

  /** `Resize` of hashyt.js:119-122 as written: only `_limit` changes, to
      `getNextPrime(2 * _limit)` (the least prime at or above twice the old
      capacity), and the entries stay where they are. */
  function ResizeAsWritten<V>(t: Table<V>, newLimit: int): (r: Table<V>)
    requires newLimit >= 2 * t.limit && Prime(newLimit) && NoPrimeIn(2 * t.limit, newLimit)
    ensures r.storage == t.storage && r.curSize == t.curSize && r.limit == newLimit
  {
    t.(limit := newLimit)
  }

  /** `View` of hashyt.js:97-113 read against the fields as they are: an
      index past the end of the storage array is a missing bucket, which
      yields `null`; otherwise the scan returns the first matching value. */
  function ViewAsWritten<V>(t: Table<V>, key: Key): (r: Option<V>)
    requires t.limit > 0
    ensures var h := Slot(Hash, t.limit, key);
      r == if h < |t.storage| then Lookup(t.storage[h], key) else None
  {
    var h := Slot(Hash, t.limit, key);
    if h < |t.storage| then
      var i := FirstIndex(t.storage[h], key);
      LookupAt(t.storage[h], key, i);
      if i < |t.storage[h]| then Some(t.storage[h][i].value) else None
    else None
  }

  /** The key "a" (code unit 97): its hash is 97, bucket 6 of 7 and bucket
      12 of 17. */
  lemma HashOfA()
    ensures Hash([97]) == 97 && Slot(Hash, 7, [97]) == 6 && Slot(Hash, 17, [97]) == 12
  {
  }

  /** A capacity-7 table holding only ("a", v), as Insert("a", v) leaves a
      fresh table when the increment at hashyt.js:60 (`this.curSize++`) is
      read as an increment of `_curSize`. */
  function OnlyA<V>(v: V): Table<V> {
    Table(seq(7, i => [])[6 := [Entry([97], v)]], 7, 1)
  }

  lemma OnlyARepresents<V>(v: V)
    ensures Represents(OnlyA(v).storage, Hash, map[[97] := v])
  {
    var empty: seq<Bucket<V>> := seq(7, i => []);
    var bs := OnlyA(v).storage;
    HashOfA();
    CountEmpty(empty);
    CountUpdate(empty, 6, [Entry([97], v)]);
    forall k
      ensures Lookup(bs[Slot(Hash, 7, k)], k) == Get(map[[97] := v], k)
    {
      if k != [97] {
        LookupAt(bs[Slot(Hash, 7, k)], k, |bs[Slot(Hash, 7, k)]|);
      }
    }
  }

  /** Insert("a", v) then Remove("a") as written (with Insert's increment
      read as one of `_curSize`): the table is empty but `_curSize` still
      says 1, so the count no longer equals the number of entries. */
  lemma RemoveAsWrittenMiscounts<V>(v: V)
    ensures var (t, ok) := RemoveAsWritten(OnlyA(v), [97]);
      ok && Represents(t.storage, Hash, map[]) && t.curSize == 1
  {
    OnlyARepresents(v);
    HashOfA();
    var t := OnlyA(v);
    RemovePreserves(t.storage, Hash, map[[97] := v], [97], 0);
    assert map[[97] := v] - {[97]} == map[];
  }

  /** Insert("a", v) then a resize as written to `newLimit`, which
      `getNextPrime(14)` makes 17: "a" is still stored in bucket 6, but
      View("a") now looks at index 12, past the 7 buckets, and finds
      nothing. */
  lemma ResizeAsWrittenOrphansKey<V>(v: V, newLimit: int)
    requires newLimit >= 14 && Prime(newLimit) && NoPrimeIn(14, newLimit)
    ensures newLimit == 17
    ensures ViewAsWritten(OnlyA(v), [97]) == Some(v)
    ensures ResizeAsWritten(OnlyA(v), newLimit).storage[6] == [Entry([97], v)]
    ensures ViewAsWritten(ResizeAsWritten(OnlyA(v), newLimit), [97]) == None
  {
    NextPrimeAfterFourteen(newLimit);
    HashOfA();
  }
}
