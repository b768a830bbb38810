/** Buckets (the arrays of `{key, value}` tuples of hashyt.js) and what it
    means for an array of buckets to store a key-to-value mapping. */
module Buckets {
  import opened Sdbm

  /** `null`, or a value: what `View` returns. */
  datatype Option<T> = None | Some(value: T)

  /** The tuple `{key: key, value: value}` pushed at hashyt.js:47 and :54. */
  datatype Entry<V> = Entry(key: Key, value: V)

  type Bucket<V> = seq<Entry<V>>

  /** The value of the first entry of `b` whose key is `k`. */
  function Lookup<V>(b: Bucket<V>, k: Key): Option<V> {
    if b == [] then None
    else if b[0].key == k then Some(b[0].value)
    else Lookup(b[1..], k)
  }

  /** The value `m` maps `k` to, if any. */
  function Get<V>(m: map<Key, V>, k: Key): Option<V> {
    if k in m then Some(m[k]) else None
  }

  /** No two entries of `b` have the same key. */
  ghost predicate UniqueKeys<V>(b: Bucket<V>) {
    forall i, j :: 0 <= i < j < |b| ==> b[i].key != b[j].key
  }

  /** `bucket.splice(i, 1)`: `b` without its i-th entry. */
  function RemoveAt<V>(b: Bucket<V>, i: nat): (r: Bucket<V>)
    requires i < |b|
    ensures |r| == |b| - 1
    ensures forall j :: 0 <= j < i ==> r[j] == b[j]
    ensures forall j :: i <= j < |r| ==> r[j] == b[j + 1]
  {
    b[..i] + b[i + 1..]
  }

  /** The number of entries across all buckets. */
  function Count<V>(bs: seq<Bucket<V>>): nat {
    if bs == [] then 0 else |bs[0]| + Count(bs[1..])
  }

  /** The bucket of `key` among `n` buckets: its hash reduced modulo n. */
  function Slot(hash: Key -> int, n: int, key: Key): (i: int)
    requires n > 0
    ensures 0 <= i < n
  {
    hash(key) % n
  }

  /** The buckets `bs` store exactly the mapping `m` under `hash`: every
      entry sits in the bucket its key hashes to, keys are unique within a
      bucket, looking a key up in its bucket yields what `m` says, and there
      are as many entries as `m` has keys. */
  ghost predicate Represents<V>(bs: seq<Bucket<V>>, hash: Key -> int, m: map<Key, V>) {
    |bs| > 0 &&
    (forall i, j :: 0 <= i < |bs| && 0 <= j < |bs[i]| ==> Slot(hash, |bs|, bs[i][j].key) == i) &&
    (forall i :: 0 <= i < |bs| ==> UniqueKeys(bs[i])) &&
    (forall k :: Lookup(bs[Slot(hash, |bs|, k)], k) == Get(m, k)) &&
    Count(bs) == |m|
  }

  /** The position of the first entry of `b` whose key is `key`, or |b|
      when there is none. */
  function FirstIndex<V>(b: Bucket<V>, key: Key): (i: nat)
    ensures i <= |b|
    ensures i < |b| ==> b[i].key == key
    ensures forall j :: 0 <= j < i ==> b[j].key != key
  {
    if b == [] then 0
    else if b[0].key == key then 0
    else 1 + FirstIndex(b[1..], key)
  }

  /** The scan of a bucket for `key` that the loops at hashyt.js:49-53,
      :80-86 and :106-109 perform (`===` on strings compares their code
      units): it stops at the first match. */
  method Scan<V>(b: Bucket<V>, key: Key) returns (i: nat)
    ensures i == FirstIndex(b, key)
  {
    i := 0;
    while i < |b|
      invariant i <= |b|
      invariant forall j :: 0 <= j < i ==> b[j].key != key
    {
      if b[i].key == key {
        break;
      }
      i := i + 1;
    }
  }

  /** Lookup returns the value of the first entry with the key, and nothing
      when there is none. */
  lemma {:induction false} LookupAt<V>(b: Bucket<V>, k: Key, i: nat)
    requires i <= |b|
    requires forall j :: 0 <= j < i ==> b[j].key != k
    requires i < |b| ==> b[i].key == k
    ensures Lookup(b, k) == if i < |b| then Some(b[i].value) else None
  {
    if b != [] && b[0].key != k {
      LookupAt(b[1..], k, i - 1);
    }
  }

  /** In a bucket with unique keys, the entry with key k is the one found. */
  lemma LookupUnique<V>(b: Bucket<V>, k: Key, i: nat)
    requires UniqueKeys(b) && i < |b| && b[i].key == k
    ensures Lookup(b, k) == Some(b[i].value)
  {
    LookupAt(b, k, i);
  }

  /** Appending an entry to a bucket only adds its key, if it was absent. */
  lemma {:induction false} LookupAppend<V>(b: Bucket<V>, e: Entry<V>, k: Key)
    ensures Lookup(b + [e], k) ==
      if Lookup(b, k).Some? then Lookup(b, k)
      else if e.key == k then Some(e.value)
      else None
  {
    if b == [] {
    } else {
      assert (b + [e])[1..] == b[1..] + [e];
      LookupAppend(b[1..], e, k);
    }
  }

  /** Extending a prefix of a bucket by one entry. */
  lemma LookupPrefixStep<V>(b: Bucket<V>, j: nat, k: Key)
    requires j < |b|
    ensures Lookup(b[..j + 1], k) ==
      if Lookup(b[..j], k).Some? then Lookup(b[..j], k)
      else if b[j].key == k then Some(b[j].value)
      else None
  {
    assert b[..j + 1] == b[..j] + [b[j]];
    LookupAppend(b[..j], b[j], k);
  }

  /** In a bucket with unique keys, an entry's key is absent before it. */
  lemma LookupPrefixMissing<V>(b: Bucket<V>, j: nat)
    requires UniqueKeys(b) && j < |b|
    ensures Lookup(b[..j], b[j].key) == None
  {
    LookupAt(b[..j], b[j].key, j);
  }

  /** Splicing an entry out of a bucket with unique keys removes exactly
      its key and keeps the lookups of all other keys. */
  lemma {:induction false} LookupRemoveAt<V>(b: Bucket<V>, i: nat, k: Key)
    requires UniqueKeys(b) && i < |b|
    ensures UniqueKeys(RemoveAt(b, i))
    ensures Lookup(RemoveAt(b, i), k) == if k == b[i].key then None else Lookup(b, k)
  {
    var r := RemoveAt(b, i);
    forall j, l | 0 <= j < l < |r|
      ensures r[j].key != r[l].key
    {
      var j', l' := if j < i then j else j + 1, if l < i then l else l + 1;
      assert r[j] == b[j'] && r[l] == b[l'] && j' < l';
    }
    if i == 0 {
      assert r == b[1..];
      if k == b[0].key {
        LookupAt(r, k, |r|);
      }
    } else {
      assert r == [b[0]] + RemoveAt(b[1..], i - 1);
      assert r[1..] == RemoveAt(b[1..], i - 1);
      LookupRemoveAt(b[1..], i - 1, k);
    }
  }

  /** Replacing one bucket changes the entry count by the difference in
      that bucket's length. */
  lemma {:induction false} CountUpdate<V>(bs: seq<Bucket<V>>, i: nat, nb: Bucket<V>)
    requires i < |bs|
    ensures Count(bs[i := nb]) == Count(bs) - |bs[i]| + |nb|
  {
    if i > 0 {
      assert bs[i := nb][1..] == bs[1..][i - 1 := nb];
      CountUpdate(bs[1..], i - 1, nb);
    }
  }

  /** Buckets that are all empty hold no entries. */
  lemma {:induction false} CountEmpty<V>(bs: seq<Bucket<V>>)
    requires forall i :: 0 <= i < |bs| ==> bs[i] == []
    ensures Count(bs) == 0
  {
    if bs != [] {
      CountEmpty(bs[1..]);
    }
  }

  /** A fresh storage of empty buckets represents the empty map. */
  lemma EmptyRepresents<V>(bs: seq<Bucket<V>>, hash: Key -> int)
    requires |bs| > 0
    requires forall i :: 0 <= i < |bs| ==> bs[i] == []
    ensures Represents(bs, hash, map[])
  {
    CountEmpty(bs);
  }

  /** Appending an entry whose key is absent to the bucket its key hashes to
      adds exactly that key and value to the stored mapping. */
  lemma InsertPreserves<V>(bs: seq<Bucket<V>>, hash: Key -> int, m: map<Key, V>, e: Entry<V>)
    requires Represents(bs, hash, m) && e.key !in m
    ensures var h := Slot(hash, |bs|, e.key);
      Represents(bs[h := bs[h] + [e]], hash, m[e.key := e.value])
  {
    var h := Slot(hash, |bs|, e.key);
    var nb := bs[h] + [e];
    var bs' := bs[h := nb];
    var m' := m[e.key := e.value];
    assert Lookup(bs[h], e.key) == None;
    forall j | 0 <= j < |bs[h]|
      ensures bs[h][j].key != e.key
    {
      LookupUnique(bs[h], bs[h][j].key, j);
    }
    forall k
      ensures Lookup(bs'[Slot(hash, |bs|, k)], k) == Get(m', k)
    {
      if Slot(hash, |bs|, k) == h {
        LookupAppend(bs[h], e, k);
      }
    }
    CountUpdate(bs, h, nb);
  }

  /** Splicing out the entry of key k from its bucket removes exactly k
      from the stored mapping. */
  lemma RemovePreserves<V>(bs: seq<Bucket<V>>, hash: Key -> int, m: map<Key, V>, k: Key, i: nat)
    requires Represents(bs, hash, m)
    requires var h := Slot(hash, |bs|, k); i < |bs[h]| && bs[h][i].key == k
    ensures k in m && |m - {k}| == |m| - 1
    ensures var h := Slot(hash, |bs|, k);
      Represents(bs[h := RemoveAt(bs[h], i)], hash, m - {k})
  {
    var h := Slot(hash, |bs|, k);
    LookupUnique(bs[h], k, i);
    var nb := RemoveAt(bs[h], i);
    var bs' := bs[h := nb];
    var m' := m - {k};
    forall k' | Slot(hash, |bs|, k') == h
      ensures Lookup(bs'[h], k') == Get(m', k')
    {
      LookupRemoveAt(bs[h], i, k');
    }
    LookupRemoveAt(bs[h], i, k);
    CountUpdate(bs, h, nb);
    assert m'.Keys == m.Keys - {k};
  }

  /** Under Represents, a key is stored iff its bucket holds an entry with
      that key. */
  lemma StoredIffInBucket<V>(bs: seq<Bucket<V>>, hash: Key -> int, m: map<Key, V>, k: Key, i: nat)
    requires Represents(bs, hash, m)
    requires var b := bs[Slot(hash, |bs|, k)];
      i <= |b| && (i < |b| ==> b[i].key == k) && forall j :: 0 <= j < i ==> b[j].key != k
    ensures var b := bs[Slot(hash, |bs|, k)];
      (k in m <==> i < |b|) && (i < |b| ==> m[k] == b[i].value)
  {
    LookupAt(bs[Slot(hash, |bs|, k)], k, i);
  }
}
