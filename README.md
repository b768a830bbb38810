# HashyT in Dafny

HashyT (`hashyt.js`) is a separate-chaining hash table with string keys. A
`HashTable` object has three fields:

- `_storage`: an array of buckets, each a list of `{key, value}` tuples;
- `_limit`: the capacity, a prime that starts at 7;
- `_curSize`: the entry count.

Keys are hashed with SDBM and reduced to a bucket index by a sign-safe
modulus. `Insert` first grows the table when the load factor exceeds 0.75,
then appends to the key's bucket unless the key is already there. `Remove`
splices the key's tuple out of its bucket. `View` returns the stored value
or `null`. Growth picks the next prime at or above twice the capacity.

The project has six modules:

- `Sdbm` (`sdbm.dfy`): the hash with the 32-bit behaviour of JavaScript's
  `<<` written out, the truncating `%`, and the `mod` helper.
- `Primes` (`primes.dfy`): `isPrime` and `getNextPrime`, with the proof
  that the search ends at the least prime.
- `Buckets` (`buckets.dfy`): buckets as sequences of entries. The predicate
  `Represents` says when an array of buckets stores a key-to-value map.
- `HashTables` (`hashtable.dfy`): the `HashTable` class. Its fields are
  updated in place, and a ghost `Contents` map is kept equal to what the
  buckets store (`Valid`).
- `Scenarios` (`scenarios.dfy`): clients that replay the table's usage
  stories using only the class contracts.
- `Findings` (`findings.dfy`): `Remove`, `Resize` and `View` as written,
  with concrete inputs on which `Remove` and `Resize` break the table's
  invariant. Two differences from the code remain. The misspelt method and
  field names are read as intended, as in the class. The new capacity of
  `Resize` is a parameter constrained to what `getNextPrime(2 * _limit)`
  returns, since a function cannot call the `GetNextPrime` method.

The class models the evident intent of the code. The source differs from
that intent in five places:

- `Insert` calls `this.hashFunc` and `this.resize` (hashyt.js:34, :37).
  `Remove` and `View` call `this.hashFunc` (:73, :99). The methods are
  defined as `HashFunc` and `Resize` (:12, :119), so in JavaScript these
  calls fail with a TypeError. The model calls the defined operations.
- `Insert` increments `this.curSize` (:60), but the field read by
  `isNeededToResize` is `_curSize`. The model increments the count that
  the resize test reads.
- `Remove` never decrements the count, and `Resize` never moves entries to
  their new buckets. Both are listed under "## Findings". The class uses
  the corrected behaviour.
- The comment above `Insert` (:29) says a duplicate key overwrites the old
  value. The code returns `false` and stores nothing (:50-51), and the
  model follows the code.
- The load check runs before the new entry is placed. In a fresh table the
  sixth insert therefore sees 5 > 5.25, which is false, and the seventh
  insert sees 6 > 5.25 and grows the capacity from 7 to 17
  (`Scenarios.FillSeven`).

## Model

| member | source | states |
|---|---|---|
| Sdbm.Wrap32 | hashyt.js:16 | the result of ToInt32 is a signed 32-bit integer congruent to its argument modulo 2^32 |
| Sdbm.Step | hashyt.js:16 | after one SDBM step the new accumulator's magnitude exceeds the old one's by at most 2^32 + 2^16, so the accumulator grows at most linearly with the key |
| Sdbm.Hash | hashyt.js:15-17 | the SDBM accumulator of a key of n code units lies within n * (2^32 + 2^16) of zero |
| Sdbm.HashExactInDoubles | hashyt.js:15-17 | for keys of at most 2^20 code units the accumulator stays below 2^53, so the source's double arithmetic is exact and agrees with the integer model |
| Sdbm.JsRem | hashyt.js:134 | JavaScript `%` with a positive divisor: the remainder has the dividend's sign, is smaller than the divisor in magnitude, and differs from the dividend by a multiple of it |
| Sdbm.Mod | hashyt.js:133-135 | `((n % m) + m) % m` is always in [0, m) and equals the mathematical (Euclidean) remainder of n by m, negative n included |
| Sdbm.HashFunc | hashyt.js:12-22 | the loop computes a bucket index in [0, limit), namely the SDBM hash of the whole key reduced modulo the limit |
| Primes.IsPrime | hashyt.js:148-153 | trial division accepts exactly the primes and every number below 2 |
| Primes.GetNextPrime | hashyt.js:137-146 | the result is odd and at least the input; for inputs of at least 3 it is the least prime at or above the input (no prime is skipped, so the search ends at the first prime) |
| Primes.NoPrimeBeforeOdd | hashyt.js:139 | rounding an even candidate up to the next odd number skips no prime |
| Primes.NoPrimeStep | hashyt.js:142-144 | stepping by two from an odd non-prime skips no prime |
| Primes.EvenNotPrime | hashyt.js:139 | even numbers other than 2 are not prime, which is why the search may visit odd candidates only |
| Primes.OddPrimeAtLeast | hashyt.js:142-144 | an odd prime reachable from every odd candidate in steps of two exists, so the loop of `getNextPrime` ends |
| Primes.ExistsPrimeAtLeast | hashyt.js:142-144 | there is a prime at or above every number (Euclid), so the search for the next prime always ends |
| Primes.SeventeenAfterFourteen | hashyt.js:121 | 17 is prime and no number in [14, 17) is, so 17 is what getNextPrime(14) must return |
| Primes.NextPrimeAfterFourteen | hashyt.js:121 | the first growth from capacity 7 picks getNextPrime(14) = 17 |
| Buckets.Slot | hashyt.js:19 | the bucket index of a key among n buckets, its hash reduced modulo n, always lies in [0, n); `HashFunc` returns exactly this index |
| Buckets.RemoveAt | hashyt.js:82 | `splice(i, 1)` removes exactly the i-th entry and shifts the later ones down by one |
| Buckets.FirstIndex | hashyt.js:49-53 | the position of the first entry with the key, or the bucket's length when there is none: every entry before it has another key |
| Buckets.Scan | hashyt.js:80-86 | the bucket scan stops at the first entry whose key is `===` the searched key, or at the end |
| Buckets.LookupAt | hashyt.js:106-108 | the value found for a key is that of its first entry, and nothing when no entry has that key |
| Buckets.LookupUnique | hashyt.js:106-108 | in a bucket without duplicate keys, the entry holding a key is the one found |
| Buckets.LookupAppend | hashyt.js:54 | pushing an entry onto a bucket changes only the lookup of that entry's key, and only if it was absent |
| Buckets.LookupRemoveAt | hashyt.js:82 | splicing out an entry keeps keys unique, removes only that entry's key and keeps every other lookup |
| Buckets.CountUpdate | hashyt.js:57 | replacing one bucket changes the entry count by the change in that bucket's length |
| Buckets.EmptyRepresents | hashyt.js:1-5 | storage whose buckets are all empty stores the empty map |
| Buckets.InsertPreserves | hashyt.js:47-57 | appending an absent key's entry to its own bucket stores exactly the old map plus that key and value |
| Buckets.RemovePreserves | hashyt.js:80-85 | splicing a key's entry out of its bucket stores exactly the old map without that key, and the map had that key |
| Buckets.StoredIffInBucket | hashyt.js:101-111 | in a valid storage a key is stored if and only if its bucket's scan finds it, and the entry found holds the stored value |
| HashTables.StartBucket | hashyt.js:119-122 | relocation before any entry of a bucket is moved: the moved entries are those of earlier buckets |
| HashTables.FinishBucket | hashyt.js:119-122 | after a whole bucket is moved, the moved entries are exactly those of that bucket and the earlier ones |
| HashTables.AllMoved | hashyt.js:119-122 | once every bucket has been moved, the relocated map is the whole stored map |
| HashTables.AdvancePrefix | hashyt.js:119-122 | the next entry of the bucket being moved has not been moved yet, and moving it extends the moved set by that entry |
| HashTables.MoveBucket | hashyt.js:119-122 | moving one bucket into the new storage keeps the new storage valid for the entries moved so far |
| HashTables.Rehash | hashyt.js:119-122 | the new storage of the new capacity stores exactly the same map, each entry in the bucket its key hashes to under the new capacity |
| HashTables.HashTable.constructor | hashyt.js:1-5 | a new table is valid and empty, with capacity 7 and count 0 |
| HashTables.HashTable.IsNeededToResize | hashyt.js:128-130 | growth is needed exactly when the count exceeds three quarters of the capacity (4 * count > 3 * capacity) |
| HashTables.HashTable.Resize | hashyt.js:119-122 | the capacity becomes the least prime at or above twice the old one, the table stays valid and its map and count are unchanged |
| HashTables.HashTable.Insert | hashyt.js:31-63 | the result is true if and only if the key was absent; only then is the pair added to the map and the count incremented; a present key keeps its old value; growth happens exactly when the load check says so, and otherwise only the key's bucket changes, by the appended pair |
| HashTables.HashTable.Place | hashyt.js:37-62 | after the resize check, the pair is appended to the key's bucket exactly when the key is absent; nothing else in the storage changes |
| HashTables.HashTable.Remove | hashyt.js:71-89 | the result is true if and only if the key was present; the key leaves the map, the count drops by one only on success, and only the first matching entry of the key's bucket is spliced out, with the capacity unchanged |
| HashTables.HashTable.SpliceOut | hashyt.js:80-85 | splicing a found entry out removes exactly its key from the map and keeps the table valid |
| HashTables.HashTable.View | hashyt.js:97-113 | the result is the value stored under the key, or none (`null`) when the key is absent |
| Scenarios.DuplicateInsert | hashyt.js:49-52 | a second insert of the same key is refused and the first value stays |
| Scenarios.MissingKey | hashyt.js:77-78 | on an empty table View finds nothing and Remove reports false |
| Scenarios.RemoveThenView | hashyt.js:71-113 | after removing the only key, View finds nothing and the count is back to 0 |
| Scenarios.Fill | hashyt.js:31-63 | six distinct inserts into a fresh table leave capacity 7 and store exactly those six pairs |
| Scenarios.FillSeven | hashyt.js:33-34 | the seventh distinct insert, not the sixth, grows the capacity from 7 to 17 |
| Scenarios.Growth | hashyt.js:97-122 | after growth to 17 every one of the seven keys is still found with its value |
| Findings.RemoveAsWritten | hashyt.js:71-89 | the code as written reports success exactly when the key's bucket holds the key, and leaves the count and the capacity unchanged |
| Findings.ResizeAsWritten | hashyt.js:119-122 | the code as written changes only the capacity, to the least prime at or above twice the old one; the storage and the count stay as they were |
| Findings.ViewAsWritten | hashyt.js:97-113 | the code as written yields the value of the first entry with the key in the bucket at the key's index, and `null` when no entry matches or the index lies past the end of the storage (a missing bucket) |
| Findings.HashOfA | hashyt.js:12-22 | the key "a" hashes to 97, which is bucket 6 of 7 and bucket 12 of 17 |
| Findings.OnlyARepresents | hashyt.js:31-63 | a capacity-7 table holding only "a" in bucket 6 is a valid storage of that one pair |
| Findings.RemoveAsWrittenMiscounts | hashyt.js:71-89 | after Insert("a") and Remove("a") as written, the storage is empty but the count is still 1 (reading the increment at :60 as one of `_curSize`) |
| Findings.ResizeAsWrittenOrphansKey | hashyt.js:97-122 | after Insert("a") and Resize as written, the new capacity is getNextPrime(14) = 17; "a" is still in bucket 6, but View("a") looks at bucket 12 and returns null |

## Left out

- `console.log` at hashyt.js:38 is output only and is not modelled.
- The `HashyT` factory and `module.exports` (hashyt.js:155-159) only call the constructor, which is modelled.
- The TypeErrors that the misspelt calls (`hashFunc`, `resize`) would raise are not modelled. The model calls the operations the names evidently mean.
- Keys are strings only. Other key types, which `key[i].charCodeAt(0)` would treat differently, are not modelled.
- Values have a generic type `V`, standing for JavaScript's untyped values.
- Numbers are unbounded integers. This agrees with the source's doubles for keys of at most 2^20 code units (`Sdbm.HashExactInDoubles`). Rounding for longer keys is not modelled.
- `View` returns `Option<V>`, so the model tells a stored `null` value apart from an absent key. The source cannot: hashyt.js:108 returns the stored value, which may itself be `null`, and an absent key also gives `null` (:104, :111).
- `isNeededToResize` compares exact reals, not doubles. The two agree for every capacity and count a table can reach.
- `_storage` starts as an empty, sparse JavaScript array. The model uses a dense array of empty buckets with one bucket per index, because `!bucket` makes a missing bucket behave exactly like an empty one.
- `Sdbm.HashFunc` takes the capacity as a parameter instead of reading `this._limit`.
- The class's `Resize` relocates every entry into fresh storage, so its storage is a new array. The source grows only `_limit` and keeps the old array; that behaviour is `Findings.ResizeAsWritten`.
- Primes.GetNextPrime: its contract states the least prime only for inputs of at least 3. For smaller inputs `isPrime` accepts 0 and 1, and for 2 the result is 3. The table only calls it with inputs of at least 14.

## Findings

| source | as written | input that shows it | evidently intended | confidence | as-written member | corrected member |
|---|---|---|---|---|---|---|
| hashyt.js:71-89 | a successful `Remove` splices the tuple out but never decrements `_curSize` | Insert("a", v) then Remove("a") on a new table: no entry is left, but the count is 1. This holds when the increment at :60 (`this.curSize++`) is read as one of `_curSize`; literally, `_curSize` stays 0 throughout | decrement the count when a tuple is removed | not executed | Findings.RemoveAsWrittenMiscounts | HashTables.HashTable.Remove |
| hashyt.js:119-122 | `Resize` changes `_limit` only, so stored tuples stay at indices computed under the old capacity | Insert("a", v) on a new table puts "a" in bucket 6 of 7; after growth to 17, View("a") looks at bucket 12 and returns null | move every tuple to the bucket its key hashes to under the new capacity | not executed | Findings.ResizeAsWrittenOrphansKey | HashTables.HashTable.Resize |
