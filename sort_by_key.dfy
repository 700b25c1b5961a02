/**
 * The standard library's `sort_by_key`, modelled by a functional insertion
 * sort whose contract is what the library promises: the result is ordered by
 * the key and is a permutation of the input.
 */
module SortByKey {

  /** Non-decreasing by `key`. */
  predicate SortedByKey<T>(s: seq<T>, key: T -> int) {
    forall i, j :: 0 <= i < j < |s| ==> key(s[i]) <= key(s[j])
  }

  /** No two elements share a key. */
  predicate KeysDistinct<T>(s: seq<T>, key: T -> int) {
    forall i, j :: 0 <= i < j < |s| ==> key(s[i]) != key(s[j])
  }

  /** Inserts `x` into the sorted `s` in front of the first element whose key is not smaller. */
  function Insert<T(==)>(x: T, s: seq<T>, key: T -> int): (r: seq<T>)
    requires SortedByKey(s, key)
    ensures SortedByKey(r, key)
    ensures multiset(r) == multiset(s) + multiset{x}
    ensures |r| == |s| + 1 && (r[0] == x || (s != [] && r[0] == s[0]))
  {
    if s == [] || key(x) <= key(s[0]) then [x] + s
    else
      var rest := Insert(x, s[1..], key);
      assert s == [s[0]] + s[1..];
      assert key(s[0]) <= key(rest[0]);
      [s[0]] + rest
  }

  /** `s.sort_by_key(key)`. */
  function Sort<T(==)>(s: seq<T>, key: T -> int): (r: seq<T>)
    ensures SortedByKey(r, key)
    ensures multiset(r) == multiset(s)
  {
    if s == [] then []
    else
      assert s == [s[0]] + s[1..];
      Insert(s[0], Sort(s[1..], key), key)
  }

  /** Sorting keeps the length, and every element of the result comes from the input. */
  lemma SortTakesFromInput<T>(s: seq<T>, key: T -> int)
    ensures |Sort(s, key)| == |s|
    ensures forall j :: 0 <= j < |s| ==> Sort(s, key)[j] in s
  {
    var r := Sort(s, key);
    assert |multiset(r)| == |multiset(s)|;
    forall j | 0 <= j < |r|
      ensures r[j] in s
    {
      assert r[j] in multiset(s);
    }
  }

  /** Inserting an element whose key is new keeps the keys distinct. */
  lemma {:induction false} InsertKeepsKeysDistinct<T>(x: T, s: seq<T>, key: T -> int)
    requires SortedByKey(s, key) && KeysDistinct(s, key)
    requires forall y :: y in s ==> key(y) != key(x)
    ensures KeysDistinct(Insert(x, s, key), key)
  {
    if s != [] && key(x) > key(s[0]) {
      InsertKeepsKeysDistinct(x, s[1..], key);
      var rest := Insert(x, s[1..], key);
      forall k | 0 <= k < |rest|
        ensures key(rest[k]) != key(s[0])
      {
        assert rest[k] in multiset(s[1..]) + multiset{x};
      }
    }
  }

  /** Sorting input whose keys are distinct gives output whose keys are distinct. */
  lemma {:induction false} SortKeepsKeysDistinct<T>(s: seq<T>, key: T -> int)
    requires KeysDistinct(s, key)
    ensures KeysDistinct(Sort(s, key), key)
  {
    if s != [] {
      SortKeepsKeysDistinct(s[1..], key);
      var sorted := Sort(s[1..], key);
      forall y | y in sorted
        ensures key(y) != key(s[0])
      {
        assert y in multiset(s[1..]);
      }
      InsertKeepsKeysDistinct(s[0], sorted, key);
    }
  }

  /** A sorted sequence with distinct keys drawn from 1..|s| has key k + 1 at position k. */
  lemma {:induction false} DenseKeysArePositions<T>(s: seq<T>, key: T -> int)
    requires SortedByKey(s, key) && KeysDistinct(s, key)
    requires forall i :: 0 <= i < |s| ==> 1 <= key(s[i]) <= |s|
    ensures forall i :: 0 <= i < |s| ==> key(s[i]) == i + 1
  {
    if s != [] {
      var n := |s|;
      var prefix := s[..n - 1];
      forall i | 0 <= i < |prefix|
        ensures 1 <= key(prefix[i]) <= |prefix|
      {
        assert key(s[i]) < key(s[n - 1]);
      }
      DenseKeysArePositions(prefix, key);
      if n >= 2 {
        assert key(prefix[n - 2]) == n - 1;
        assert key(s[n - 2]) < key(s[n - 1]);
      }
    }
  }
}
