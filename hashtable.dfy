/** The `HashTable` object of hashyt.js: storage, capacity and entry count,
    updated in place by Insert, Remove and Resize. */
module HashTables {
  import opened Sdbm
  import opened Primes
  import opened Buckets

  /** `moved` holds exactly the entries of `m` whose keys sit in buckets
      before `i` of the `n` buckets they are placed in under `hash`. */
  ghost predicate MovedBuckets<V>(hash: Key -> int, n: int, m: map<Key, V>, i: int, moved: map<Key, V>) {
    n > 0 &&
    (forall k :: k in moved <==> k in m && Slot(hash, n, k) < i) &&
    (forall k :: k in moved ==> moved[k] == m[k])
  }

  /** `moved` holds exactly the entries of `m` in buckets before `i` and
      the first `j` entries of bucket `i` of `bs`. */
  ghost predicate MovedPrefix<V>(bs: seq<Bucket<V>>, hash: Key -> int, m: map<Key, V>, i: int, j: int, moved: map<Key, V>) {
    0 <= i < |bs| && 0 <= j <= |bs[i]| &&
    (forall k :: k in moved <==>
      k in m && (Slot(hash, |bs|, k) < i || (Slot(hash, |bs|, k) == i && Lookup(bs[i][..j], k).Some?))) &&
    (forall k :: k in moved ==> moved[k] == m[k])
  }

  lemma StartBucket<V>(bs: seq<Bucket<V>>, hash: Key -> int, m: map<Key, V>, i: int, moved: map<Key, V>)
    requires MovedBuckets(hash, |bs|, m, i, moved) && 0 <= i < |bs|
    ensures MovedPrefix(bs, hash, m, i, 0, moved)
  {
  }

  lemma FinishBucket<V>(bs: seq<Bucket<V>>, hash: Key -> int, m: map<Key, V>, i: int, moved: map<Key, V>)
    requires Represents(bs, hash, m) && 0 <= i < |bs|
    requires MovedPrefix(bs, hash, m, i, |bs[i]|, moved)
    ensures MovedBuckets(hash, |bs|, m, i + 1, moved)
  {
    assert bs[i][..|bs[i]|] == bs[i];
  }

  lemma AllMoved<V>(hash: Key -> int, n: int, m: map<Key, V>, moved: map<Key, V>)
    requires MovedBuckets(hash, n, m, n, moved)
    ensures moved == m
  {
  }

  /** The next entry of bucket `i` has not been moved yet, and moving it
      extends the moved prefix by one. */
  lemma AdvancePrefix<V>(bs: seq<Bucket<V>>, hash: Key -> int, m: map<Key, V>, i: int, j: int, moved: map<Key, V>)
    requires Represents(bs, hash, m) && MovedPrefix(bs, hash, m, i, j, moved) && j < |bs[i]|
    ensures bs[i][j].key !in moved
    ensures MovedPrefix(bs, hash, m, i, j + 1, moved[bs[i][j].key := bs[i][j].value])
  {
    var e := bs[i][j];
    LookupUnique(bs[i], e.key, j);
    LookupPrefixMissing(bs[i], j);
    forall k {
      LookupPrefixStep(bs[i], j, k);
    }
  }

  /** Appends every entry of bucket `i` of `bs`, in order, to the bucket
      of `ns` its key hashes to. */
  method MoveBucket<V>(ns: array<Bucket<V>>, bs: seq<Bucket<V>>, ghost m: map<Key, V>, i: int, ghost moved: map<Key, V>)
    returns (ghost moved': map<Key, V>)
    requires Represents(bs, Hash, m) && 0 <= i < |bs|
    requires MovedBuckets(Hash, |bs|, m, i, moved) && Represents(ns[..], Hash, moved)
    modifies ns
    ensures MovedBuckets(Hash, |bs|, m, i + 1, moved') && Represents(ns[..], Hash, moved')
  {
    moved' := moved;
    StartBucket(bs, Hash, m, i, moved');
    for j := 0 to |bs[i]|
      invariant Represents(ns[..], Hash, moved')
      invariant MovedPrefix(bs, Hash, m, i, j, moved')
    {
      var e := bs[i][j];
      var h := HashFunc(e.key, ns.Length);
      AdvancePrefix(bs, Hash, m, i, j, moved');
      InsertPreserves(ns[..], Hash, moved', e);
      ns[h] := ns[h] + [e];
      moved' := moved'[e.key := e.value];
    }
    FinishBucket(bs, Hash, m, i, moved');
  }

  /** The relocation a correct resize needs (hashyt.js:119-122 only changes
      the capacity): every entry of `bs` is appended, in bucket order, to the
      bucket of a fresh storage of `newLimit` buckets that its key hashes to
      under the new capacity. */
  method Rehash<V>(bs: seq<Bucket<V>>, newLimit: int, ghost m: map<Key, V>)
    returns (ns: array<Bucket<V>>)
    requires Represents(bs, Hash, m) && newLimit > 0
    ensures fresh(ns) && ns.Length == newLimit && Represents(ns[..], Hash, m)
  {
    ns := new Bucket<V>[newLimit](_ => []);
    EmptyRepresents(ns[..], Hash);
    ghost var moved: map<Key, V> := map[];
    for i := 0 to |bs|
      invariant Represents(ns[..], Hash, moved)
      invariant MovedBuckets(Hash, |bs|, m, i, moved)
    {
      moved := MoveBucket(ns, bs, m, i, moved);
    }
    AllMoved(Hash, |bs|, m, moved);
  }

  class HashTable<V> {
    /** `_storage`: one bucket per index; a missing bucket is an empty one. */
    var storage: array<Bucket<V>>
    /** `_limit`: the capacity. */
    var limit: int
    /** `_curSize`: the number of stored entries. */
    var curSize: nat
    /** The key-to-value mapping the table stores. */
    ghost var Contents: map<Key, V>

    /** The table's invariant: the storage has `limit` buckets, `limit` is
        prime, the buckets store exactly Contents (each entry at the index
        its key hashes to, keys unique) and `curSize` counts its keys. */
    ghost predicate Valid()
      reads this, storage
    {
      storage.Length == limit && Prime(limit) &&
      Represents(storage[..], Hash, Contents) &&
      curSize == |Contents|
    }

    /** `HashTable()` of hashyt.js:1-5: empty, with capacity 7. */
    constructor ()
      ensures Valid() && fresh(storage)
      ensures Contents == map[] && curSize == 0 && limit == 7
    {
      curSize := 0;
      limit := 7;
      var buckets := new Bucket<V>[7](_ => []);
      EmptyRepresents(buckets[..], Hash);
      storage := buckets;
      Contents := map[];
      assert Prime(7) by {
        forall d | 2 <= d < 7
          ensures 7 % d != 0
        {
        }
      }
    }

    /** `isNeededToResize` of hashyt.js:128-130: the load factor exceeds
        0.75. Dafny's reals are exact, as the source's doubles are for
        these magnitudes. */
    function IsNeededToResize(): (r: bool)
      reads this
      ensures r <==> 4 * curSize > 3 * limit
    {
      curSize as real > limit as real * 0.75
    }

    /** `Resize` of hashyt.js:119-122 with the relocation it lacks: the
        capacity becomes `getNextPrime(2 * limit)` and every entry moves to
        the bucket it hashes to under the new capacity. */
    method Resize()
      requires Valid()
      modifies this
      ensures Valid() && fresh(storage)
      ensures Contents == old(Contents) && curSize == old(curSize)
      ensures limit >= 2 * old(limit)
      ensures NoPrimeIn(2 * old(limit), limit)
    {
      var newLimit := GetNextPrime(limit * 2);
      storage := Rehash(storage[..], newLimit, Contents);
      limit := newLimit;
    }

    /** `Insert` of hashyt.js:31-63: grow first if the load factor calls
        for it, then append (key, value) to the key's bucket unless the key
        is already there, in which case nothing is stored and the result is
        false. */
    method Insert(key: Key, value: V) returns (ok: bool)
      requires Valid()
      modifies this, storage
      ensures Valid()
      ensures ok <==> key !in old(Contents)
      ensures Contents == if ok then old(Contents)[key := value] else old(Contents)
      ensures curSize == old(curSize) + (if ok then 1 else 0)
      ensures old(IsNeededToResize()) ==>
        fresh(storage) && limit >= 2 * old(limit) &&
        NoPrimeIn(2 * old(limit), limit)
      ensures !old(IsNeededToResize()) ==>
        storage == old(storage) && limit == old(limit) &&
        var h := Slot(Hash, limit, key);
        storage[..] == if ok then old(storage[..])[h := old(storage[h]) + [Entry(key, value)]]
                       else old(storage[..])
    {
      if IsNeededToResize() {
        Resize();
      }
      ok := Place(key, value);
    }

    /** The part of `Insert` after the resize check (hashyt.js:37-62):
        scan the key's bucket and append unless the key is found. */
    method Place(key: Key, value: V) returns (ok: bool)
      requires Valid()
      modifies this, storage
      ensures Valid() && storage == old(storage) && limit == old(limit)
      ensures ok <==> key !in old(Contents)
      ensures Contents == if ok then old(Contents)[key := value] else old(Contents)
      ensures curSize == old(curSize) + (if ok then 1 else 0)
      ensures var h := Slot(Hash, limit, key);
        storage[..] == if ok then old(storage[..])[h := old(storage[h]) + [Entry(key, value)]]
                       else old(storage[..])
    {
      var index := HashFunc(key, limit);
      var bucket := storage[index];
      var i := Scan(bucket, key);
      StoredIffInBucket(storage[..], Hash, Contents, key, i);
      if i < |bucket| {
        return false;
      }
      InsertPreserves(storage[..], Hash, Contents, Entry(key, value));
      storage[index] := bucket + [Entry(key, value)];
      Contents := Contents[key := value];
      curSize := curSize + 1;
      return true;
    }

    /** `Remove` of hashyt.js:71-89, with the decrement of the count that
        the source omits: splice the key's entry out of its bucket, keeping
        the order of the others; false, and no change, if it is absent. */
    method Remove(key: Key) returns (ok: bool)
      requires Valid()
      modifies this, storage
      ensures Valid() && storage == old(storage) && limit == old(limit)
      ensures ok <==> key in old(Contents)
      ensures Contents == old(Contents) - {key}
      ensures curSize == old(curSize) - (if ok then 1 else 0)
      ensures !ok ==> storage[..] == old(storage[..])
      ensures ok ==>
        var h := Slot(Hash, limit, key);
        var i := FirstIndex(old(storage[h]), key);
        i < |old(storage[h])| &&
        storage[..] == old(storage[..])[h := RemoveAt(old(storage[h]), i)]
    {
      var hashVal := HashFunc(key, limit);
      var bucket := storage[hashVal];
      var i := Scan(bucket, key);
      StoredIffInBucket(storage[..], Hash, Contents, key, i);
      if i == |bucket| {
        assert key !in Contents;
        assert Contents - {key} == Contents;
        return false;
      }
      SpliceOut(key, hashVal, i);
      return true;
    }

    /** The found branch of `Remove` (hashyt.js:82-84, with the decrement):
        splice entry `i` of bucket `h`, which holds `key`, out of it. */
    method SpliceOut(key: Key, h: int, i: nat)
      requires Valid() && h == Slot(Hash, limit, key)
      requires i < |storage[h]| && storage[h][i].key == key
      modifies this, storage
      ensures Valid() && storage == old(storage) && limit == old(limit)
      ensures key in old(Contents) && Contents == old(Contents) - {key}
      ensures curSize == old(curSize) - 1
      ensures storage[..] == old(storage[..])[h := RemoveAt(old(storage[h]), i)]
    {
      ghost var after := storage[..][h := RemoveAt(storage[h], i)];
      RemovePreserves(storage[..], Hash, Contents, key, i);
      storage[h] := RemoveAt(storage[h], i);
      assert storage[..] == after;
      Contents := Contents - {key};
      curSize := curSize - 1;
    }

    /** `View` of hashyt.js:97-113: the value stored under `key`, or `None`
        (the source's `null`) when the key is absent. Reads only. */
    method View(key: Key) returns (r: Option<V>)
      requires Valid()
      ensures r == if key in Contents then Some(Contents[key]) else None
    {
      var hashVal := HashFunc(key, limit);
      var bucket := storage[hashVal];
      var i := Scan(bucket, key);
      StoredIffInBucket(storage[..], Hash, Contents, key, i);
      if i < |bucket| {
        return Some(bucket[i].value);
      }
      return None;
    }
  }
}
