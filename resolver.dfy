/**
 * The frozen phase of the interner: a `Resolver` owns one arena holding the
 * bytes of every interned string back to back, a symbol-indexed sequence of
 * views into that arena (slot 0 is the empty-string sentinel), and a reverse
 * map from string to symbol.
 *
 * A view is the (offset, length) pair standing for a `&str` borrowed from the
 * arena, so resolving a view is slicing the arena.
 */
module Resolving {
  import opened Wrappers
  import opened Symbols

  /** A string view into the arena. */
  datatype View = View(offset: nat, length: nat)

  /** The view lies inside the arena. */
  predicate Fits(arena: seq<char>, v: View) {
    v.offset + v.length <= |arena|
  }

  /** The bytes a view points at. */
  function Slice(arena: seq<char>, v: View): (s: string)
    requires Fits(arena, v)
    ensures |s| == v.length
  {
    arena[v.offset..v.offset + v.length]
  }

  /** Two views cover non-overlapping byte ranges. */
  predicate Disjoint(v: View, w: View) {
    v.offset + v.length <= w.offset || w.offset + w.length <= v.offset
  }

  datatype Resolver = Resolver(strsMap: map<string, Symbol>, strs: seq<View>, arena: seq<char>)
  {
    /** Every view points into the arena. */
    predicate ViewsFit() {
      forall k :: 0 <= k < |strs| ==> Fits(arena, strs[k])
    }

    /** The strings the views stand for, indexed by symbol. */
    function Contents(): (c: seq<string>)
      requires ViewsFit()
      ensures |c| == |strs|
      ensures forall k :: 0 <= k < |strs| ==> c[k] == Slice(arena, strs[k])
    {
      seq(|strs|, k requires 0 <= k < |strs| => Slice(arena, strs[k]))
    }

    /** The resolver invariant: the sentinel sits in slot 0, symbols fit in a
        `u32`, and the forward sequence and the reverse map agree. */
    ghost predicate Valid() {
      && ViewsFit()
      && 1 <= |strs| <= U32_MAX
      && Slice(arena, strs[0]) == ""
      && (forall s :: s in strsMap ==> 1 <= strsMap[s] < |strs| && Slice(arena, strs[strsMap[s]]) == s)
      && (forall k :: 1 <= k < |strs| ==> Slice(arena, strs[k]) in strsMap && strsMap[Slice(arena, strs[k])] == k)
    }

    /** `Resolver::get`: the symbol of an interned string. The sentinel is not
        in the reverse map, so `""` is found only if it was interned. */
    function Get(s: string): (r: Option<Symbol>)
      ensures Valid() && r.Some? ==> 1 <= r.value < |strs| && Contents()[r.value] == s
      ensures Valid() && r.None? ==> forall k :: 1 <= k < |strs| ==> Contents()[k] != s
    {
      if s in strsMap then Some(strsMap[s]) else None
    }

    /** `Resolver::len`: the number of slots, sentinel included. */
    function Len(): (n: nat)
      ensures Valid() ==> n == |strsMap| + 1
    {
      StrsMapCount(this);
      |strs|
    }

    /** `Resolver::resolve_unchecked`: the string of a symbol below `len()`. */
    function ResolveUnchecked(sym: nat): (s: string)
      requires Valid() && sym < Len()
      ensures sym == 0 ==> s == ""
      ensures sym != 0 ==> Get(s) == Some(sym)
    {
      Slice(arena, strs[sym])
    }

    /** `Resolver::resolve_many_unchecked_from_slice`: resolves each symbol in turn. */
    function ResolveManyUncheckedFromSlice(syms: seq<nat>): (out: seq<string>)
      requires Valid() && forall i :: 0 <= i < |syms| ==> syms[i] < Len()
      ensures |out| == |syms|
      ensures forall i :: 0 <= i < |syms| ==> out[i] == ResolveUnchecked(syms[i])
      ensures forall i :: 0 <= i < |syms| && syms[i] != 0 ==> Get(out[i]) == Some(syms[i])
    {
      seq(|syms|, i requires 0 <= i < |syms| => ResolveUnchecked(syms[i]))
    }
  }

  /** Resolving the symbol `get` finds gives the string back. */
  lemma ResolveInvertsGet(r: Resolver, s: string)
    requires r.Valid() && r.Get(s).Some?
    ensures r.Get(s).value < r.Len() && r.ResolveUnchecked(r.Get(s).value) == s
  {
    StrsMapCount(r);
  }

  /** In a valid resolver the reverse map holds one entry per non-sentinel slot. */
  lemma StrsMapCount(r: Resolver)
    ensures r.Valid() ==> |r.strsMap| == |r.strs| - 1
  {
    if r.Valid() {
      var named := r.Contents()[1..];
      forall i, j | 0 <= i < j < |named|
        ensures named[i] != named[j]
      {
        assert r.strsMap[named[i]] == i + 1;
        assert r.strsMap[named[j]] == j + 1;
      }
      DistinctCardinality(named);
      forall s | s in r.strsMap
        ensures s in named
      {
        assert named[r.strsMap[s] - 1] == s;
      }
      assert r.strsMap.Keys == set x | x in named;
    }
  }
}
