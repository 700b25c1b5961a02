/**
 * Symbols and the small sequence facts the interner relies on.
 */
module Symbols {

  /** A symbol. The builder hands out values of `NonZeroU32`; 0 is the
      sentinel that always stands for the empty string. */
  type Symbol = nat

  /** `u32::MAX`, the largest value a symbol can hold. */
  const U32_MAX: nat := 0xFFFF_FFFF

  /** No element occurs twice. */
  predicate Distinct<T(==)>(s: seq<T>) {
    forall i, j :: 0 <= i < j < |s| ==> s[i] != s[j]
  }

  /** Everything after the first element: `into_iter().skip(1)`. */
  function Tail<T>(s: seq<T>): (t: seq<T>)
    ensures |t| == if s == [] then 0 else |s| - 1
    ensures forall i :: 0 <= i < |t| ==> t[i] == s[i + 1]
  {
    if s == [] then [] else s[1..]
  }

  /** A sequence without repetitions has as many distinct elements as it is long. */
  lemma {:induction false} DistinctCardinality<T>(s: seq<T>)
    requires Distinct(s)
    ensures |set x | x in s| == |s|
  {
    if s != [] {
      DistinctCardinality(s[1..]);
      assert (set x | x in s) == {s[0]} + (set x | x in s[1..]);
      assert s[0] !in (set x | x in s[1..]);
    }
  }
}
