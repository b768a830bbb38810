/** Clients of the table that replay its usage scenarios, using nothing
    but the contracts of the table's methods. */
module Scenarios {
  import opened Sdbm
  import opened Primes
  import opened Buckets
  import opened HashTables

  /** Insert("a", 1) succeeds, Insert("a", 2) is refused and View("a")
      still yields 1 (hashyt.js:49-52: a duplicate is not overwritten). */
  method DuplicateInsert() returns (first: bool, second: bool, seen: Option<int>)
    ensures first && !second && seen == Some(1)
  {
    var t := new HashTable<int>();
    first := t.Insert([97], 1);
    second := t.Insert([97], 2);
    seen := t.View([97]);
  }

  /** On an empty table View finds nothing and Remove reports false. */
  method MissingKey() returns (seen: Option<int>, removed: bool)
    ensures seen == None && !removed
  {
    var t := new HashTable<int>();
    seen := t.View([109, 105, 115, 115, 105, 110, 103]);
    removed := t.Remove([109, 105, 115, 115, 105, 110, 103]);
  }

  /** After Remove("a"), View("a") finds nothing and the table is empty. */
  method RemoveThenView() returns (removed: bool, seen: Option<int>, size: nat)
    ensures removed && seen == None && size == 0
  {
    var t := new HashTable<int>();
    var inserted := t.Insert([97], 1);
    removed := t.Remove([97]);
    seen := t.View([97]);
    size := t.curSize;
  }

  /** A fresh table after inserting the one-letter keys "a", "b", ... up to
      (not including) code unit `last`, key [c] with value c - 96. */
  method Fill(last: int) returns (t: HashTable<int>)
    requires 97 <= last <= 103
    ensures fresh(t) && fresh(t.storage) && t.Valid() && t.limit == 7 && t.curSize == last - 97
    ensures forall k :: k in t.Contents <==> |k| == 1 && 97 <= k[0] < last
    ensures forall k :: k in t.Contents ==> t.Contents[k] == k[0] - 96
  {
    t := new HashTable<int>();
    for c := 97 to last
      invariant fresh(t) && fresh(t.storage) && t.Valid() && t.limit == 7 && t.curSize == c - 97
      invariant forall k :: k in t.Contents <==> |k| == 1 && 97 <= k[0] < c
      invariant forall k :: k in t.Contents ==> t.Contents[k] == k[0] - 96
    {
      var ok := t.Insert([c], c - 96);
      forall k | |k| == 1 && k[0] == c
        ensures k == [c]
      {
      }
    }
  }

  /** Seven distinct keys go into a fresh table. The load check runs before
      placement, so the sixth insert (5 > 5.25 is false) leaves capacity 7
      and the seventh (6 > 5.25) grows it to getNextPrime(14) = 17. */
  method FillSeven() returns (t: HashTable<int>, limitAfterSix: int)
    ensures fresh(t) && t.Valid() && limitAfterSix == 7 && t.limit == 17
    ensures forall k :: k in t.Contents <==> |k| == 1 && 97 <= k[0] < 104
    ensures forall k :: k in t.Contents ==> t.Contents[k] == k[0] - 96
  {
    t := Fill(103);
    limitAfterSix := t.limit;
    var ok := t.Insert([103], 7);
    forall k | |k| == 1 && k[0] == 103
      ensures k == [103]
    {
    }
    NextPrimeAfterFourteen(t.limit);
  }

  /** After the growth of FillSeven every key is still found with its
      value. */
  method Growth() returns (limitAfterSix: int, limitAfterSeven: int, seen: seq<Option<int>>)
    ensures limitAfterSix == 7 && limitAfterSeven == 17
    ensures seen == [Some(1), Some(2), Some(3), Some(4), Some(5), Some(6), Some(7)]
  {
    var t;
    t, limitAfterSix := FillSeven();
    limitAfterSeven := t.limit;
    seen := [];
    for c := 97 to 104
      invariant t.Valid() && t.limit == 17
      invariant forall k :: k in t.Contents <==> |k| == 1 && 97 <= k[0] < 104
      invariant forall k :: k in t.Contents ==> t.Contents[k] == k[0] - 96
      invariant |seen| == c - 97 && forall j :: 0 <= j < |seen| ==> seen[j] == Some(j + 1)
    {
      var r := t.View([c]);
      seen := seen + [r];
    }
  }
}
