/**
 * The mutable phase of the interner: `InternerBuilder` hands out symbols
 * 1, 2, ... to distinct strings, and `Build` freezes it into a `Resolver`.
 */
module Building {
  import opened Wrappers
  import opened Symbols
  import opened SortByKey
  import opened Resolving

  /** `m` numbers the strings of `interned` 1, 2, ... in order, and holds nothing else. */
  ghost predicate Numbered(m: map<string, Symbol>, interned: seq<string>) {
    && (forall i :: 0 <= i < |interned| ==> interned[i] in m && m[interned[i]] == i + 1)
    && (forall s :: s in m ==> s in interned)
  }

  /** A numbering is a bijection between its keys and the symbols 1..|interned|. */
  lemma NumberedIsBijection(m: map<string, Symbol>, interned: seq<string>)
    requires Numbered(m, interned)
    ensures Distinct(interned)
    ensures forall s :: s in m ==> 1 <= m[s] <= |interned| && interned[m[s] - 1] == s
    ensures forall s, t :: s in m && t in m && s != t ==> m[s] != m[t]
    ensures m.Keys == set s | s in interned
    ensures |m| == |interned|
  {
    forall i, j | 0 <= i < j < |interned|
      ensures interned[i] != interned[j]
    {
      assert m[interned[i]] != m[interned[j]];
    }
    DistinctCardinality(interned);
  }

  /** The total length of a set of strings. */
  ghost function SetLength(ks: set<string>): (n: nat) {
    if ks == {} then 0
    else
      var k :| k in ks;
      |k| + SetLength(ks - {k})
  }

  /** Any element may be taken out first when summing the lengths of a set. */
  lemma {:induction false} SetLengthRemove(ks: set<string>, k: string)
    requires k in ks
    ensures SetLength(ks) == |k| + SetLength(ks - {k})
    decreases |ks|
  {
    var x :| x in ks && SetLength(ks) == |x| + SetLength(ks - {x});
    if x != k {
      SetLengthRemove(ks - {x}, k);
      SetLengthRemove(ks - {k}, x);
      assert ks - {x} - {k} == ks - {k} - {x};
    }
  }

  /** One `(symbol, offset, length)` record of `build`'s `indices`. */
  datatype IndexEntry = IndexEntry(sym: Symbol, offset: nat, length: nat)

  /** The sort key of `indices.sort_by_key(|(i, _, _)| *i)`. */
  function EntrySymbol(e: IndexEntry): int {
    e.sym
  }

  /** The caller-visible condition that the symbol space is exhausted. */
  datatype InternError = Overflow

  class InternerBuilder {
    /** The symbol the next new string receives. */
    var count: nat
    /** Each interned string with its symbol. */
    var mapStrs: map<string, Symbol>
    /** The interned strings in symbol order: `Interned[k - 1]` has symbol `k`. */
    ghost var Interned: seq<string>

    /** Symbols 1..count-1 have been handed out, one per interned string. */
    ghost predicate Valid()
      reads this
    {
      && 1 <= count <= U32_MAX
      && |Interned| == count - 1
      && Numbered(mapStrs, Interned)
    }

    /** `InternerBuilder::new`: nothing interned, the first symbol is 1. */
    constructor ()
      ensures Valid()
      ensures count == 1 && mapStrs == map[] && Interned == []
    {
      count := 1;
      mapStrs := map[];
      Interned := [];
    }

    /** `InternerBuilder::get_or_intern`. A known string gets its stored symbol
        back and nothing changes; a new one is stored under `count`, which then
        advances by one. When `count` is already `u32::MAX` there is no next
        symbol and a new string is refused with `Overflow`. */
    method GetOrIntern(s: string) returns (r: Result<Symbol, InternError>)
      requires Valid()
      modifies this
      ensures Valid()
      ensures s in old(mapStrs) ==>
        r == Success(old(mapStrs)[s]) && count == old(count) && mapStrs == old(mapStrs) && Interned == old(Interned)
      ensures s !in old(mapStrs) && old(count) < U32_MAX ==>
        && r == Success(old(count))
        && count == old(count) + 1
        && mapStrs == old(mapStrs)[s := old(count)]
        && Interned == old(Interned) + [s]
      ensures s !in old(mapStrs) && old(count) == U32_MAX ==>
        r == Failure(Overflow) && count == old(count) && mapStrs == old(mapStrs) && Interned == old(Interned)
    {
      if s in mapStrs {
        return Success(mapStrs[s]);
      }
      if count == U32_MAX {
        return Failure(Overflow);
      }
      r := Success(count);
      mapStrs := mapStrs[s := count];
      Interned := Interned + [s];
      count := count + 1;
    }

    /** `InternerBuilder::build`. Packs every key into one arena, sorts the
        records by symbol, and builds the symbol-indexed views and the reverse
        map over the same arena. */
    method Build() returns (r: Resolver)
      requires Valid()
      ensures r.Valid()
      ensures r.Contents() == [""] + Interned
      ensures r.strsMap == mapStrs
      ensures |r.arena| == SetLength(mapStrs.Keys)
      ensures forall i, j :: 1 <= i < j < |r.strs| ==> Disjoint(r.strs[i], r.strs[j])
    {
      var indices, arena := PackArena(mapStrs);
      var sorted := Sort(indices, EntrySymbol);
      assert |indices| == |Interned| && Distinct(Interned) by {
        NumberedIsBijection(mapStrs, Interned);
      }
      RecordSymbols(mapStrs, Interned, indices, arena);
      SortKeepsKeysDistinct(indices, EntrySymbol);
      SortTakesFromInput(indices, EntrySymbol);
      SortedSymbolsArePositions(indices, sorted);
      SortedRecordsPointAtNames(Interned, indices, arena, sorted);
      SortedRecordsDisjoint(indices, sorted);
      var strs, strsMap := IndexViews(sorted, arena, Interned);
      r := Resolver(strsMap, strs, arena);
      ResolverMapIsNumbering(r, mapStrs, Interned);
    }
  }

  /** The reverse map of a valid resolver numbers its non-sentinel strings. */
  lemma ResolverIsNumbered(r: Resolver)
    requires r.Valid()
    ensures Numbered(r.strsMap, r.Contents()[1..])
  {
    var names := r.Contents()[1..];
    forall s | s in r.strsMap
      ensures s in names
    {
      assert names[r.strsMap[s] - 1] == s;
    }
  }

  /** A valid resolver holding the numbered strings has the numbering as its reverse map. */
  lemma ResolverMapIsNumbering(r: Resolver, m: map<string, Symbol>, names: seq<string>)
    requires r.Valid() && r.Contents() == [""] + names
    requires Numbered(m, names)
    ensures r.strsMap == m
  {
    NumberedIsBijection(m, names);
    forall s | s in m
      ensures s in r.strsMap && r.strsMap[s] == m[s]
    {
      var k := m[s];
      assert r.Contents()[k] == s;
    }
    forall s | s in r.strsMap
      ensures s in m
    {
      assert r.Contents()[r.strsMap[s]] == s;
    }
    assert r.strsMap.Keys == m.Keys;
  }

  /** The view a record describes. */
  function ViewOf(e: IndexEntry): (v: View) {
    View(e.offset, e.length)
  }

  /** Where a record's range ends. */
  function End(e: IndexEntry): (n: nat) {
    e.offset + e.length
  }

  /** The records tile `[0, size)`: the first starts at 0, each starts where
      the previous one ends, and the last ends at `size`. */
  predicate Tiles(indices: seq<IndexEntry>, size: nat) {
    && (forall p :: 0 <= p < |indices| ==> indices[p].offset == if p == 0 then 0 else End(indices[p - 1]))
    && size == if indices == [] then 0 else End(indices[|indices| - 1])
  }

  /** Record p points at `names[p]` in the arena, and the records lie in
      increasing, non-overlapping order. */
  ghost predicate Layout(indices: seq<IndexEntry>, arena: seq<char>, names: seq<string>) {
    && |indices| == |names|
    && Tiles(indices, |arena|)
    && (forall p :: 0 <= p < |indices| ==> Fits(arena, ViewOf(indices[p])) && Slice(arena, ViewOf(indices[p])) == names[p])
    && (forall p, q :: 0 <= p < q < |indices| ==> End(indices[p]) <= indices[q].offset)
  }

  /** Appending to the arena leaves what a fitting view points at unchanged. */
  lemma SliceOfExtension(before: seq<char>, extra: seq<char>, v: View)
    requires Fits(before, v)
    ensures Fits(before + extra, v) && Slice(before + extra, v) == Slice(before, v)
  {
  }

  /** One step of the packing loop keeps the layout. */
  lemma PackStep(indices: seq<IndexEntry>, arena: seq<char>, names: seq<string>, key: string, sym: Symbol)
    requires Layout(indices, arena, names)
    ensures Layout(indices + [IndexEntry(sym, |arena|, |key|)], arena + key, names + [key])
  {
    var indices', arena' := indices + [IndexEntry(sym, |arena|, |key|)], arena + key;
    forall p | 0 <= p < |indices|
      ensures Fits(arena', ViewOf(indices'[p])) && Slice(arena', ViewOf(indices'[p])) == names[p]
    {
      SliceOfExtension(arena, key, ViewOf(indices[p]));
    }
    assert Slice(arena', ViewOf(indices'[|indices|])) == key;
  }

  /** The first loop of `build`: visits the keys in an arbitrary order (the
      hash map's), records `(symbol, offset, length)` for each and appends its
      bytes to the arena. The records tile the arena, each points at its own
      key, every key gets exactly one record, and the arena is exactly as long
      as all keys together. */
  method PackArena(m: map<string, Symbol>) returns (indices: seq<IndexEntry>, arena: seq<char>)
    ensures |indices| == |m|
    ensures Tiles(indices, |arena|)
    ensures forall p, q :: 0 <= p < q < |indices| ==> End(indices[p]) <= indices[q].offset
    ensures forall p :: 0 <= p < |indices| ==>
      && Fits(arena, ViewOf(indices[p]))
      && Slice(arena, ViewOf(indices[p])) in m
      && m[Slice(arena, ViewOf(indices[p]))] == indices[p].sym
    ensures forall p, q :: 0 <= p < q < |indices| ==> Slice(arena, ViewOf(indices[p])) != Slice(arena, ViewOf(indices[q]))
    ensures forall k :: k in m ==> exists p :: 0 <= p < |indices| && Slice(arena, ViewOf(indices[p])) == k
    ensures |arena| == SetLength(m.Keys)
  {
    indices, arena := [], [];
    var remaining := m.Keys;
    ghost var packed: seq<string> := [];
    while remaining != {}
      invariant remaining <= m.Keys
      invariant forall k :: k in packed <==> k in m && k !in remaining
      invariant Distinct(packed)
      invariant Layout(indices, arena, packed)
      invariant forall p :: 0 <= p < |indices| ==> indices[p].sym == m[packed[p]]
      invariant |arena| + SetLength(remaining) == SetLength(m.Keys)
      decreases remaining
    {
      var key :| key in remaining;
      SetLengthRemove(remaining, key);
      PackStep(indices, arena, packed, key, m[key]);
      indices := indices + [IndexEntry(m[key], |arena|, |key|)];
      arena := arena + key;
      packed := packed + [key];
      remaining := remaining - {key};
    }
    PackedRecords(m, indices, arena, packed);
  }

  /** What the packing loop leaves behind, once every key has been visited. */
  lemma PackedRecords(m: map<string, Symbol>, indices: seq<IndexEntry>, arena: seq<char>, packed: seq<string>)
    requires forall k :: k in packed <==> k in m
    requires Distinct(packed)
    requires Layout(indices, arena, packed)
    requires forall p :: 0 <= p < |indices| ==> indices[p].sym == m[packed[p]]
    ensures |indices| == |m|
    ensures forall p :: 0 <= p < |indices| ==>
      && Fits(arena, ViewOf(indices[p]))
      && Slice(arena, ViewOf(indices[p])) in m
      && m[Slice(arena, ViewOf(indices[p]))] == indices[p].sym
    ensures forall p, q :: 0 <= p < q < |indices| ==> Slice(arena, ViewOf(indices[p])) != Slice(arena, ViewOf(indices[q]))
    ensures forall k :: k in m ==> exists p :: 0 <= p < |indices| && Slice(arena, ViewOf(indices[p])) == k
  {
    assert (set s | s in packed) == m.Keys;
    DistinctCardinality(packed);
    forall p, q | 0 <= p < q < |indices|
      ensures Slice(arena, ViewOf(indices[p])) != Slice(arena, ViewOf(indices[q]))
    {
      assert packed[p] != packed[q];
    }
    forall k | k in m
      ensures exists p :: 0 <= p < |indices| && Slice(arena, ViewOf(indices[p])) == k
    {
      var p :| 0 <= p < |packed| && packed[p] == k;
      assert Slice(arena, ViewOf(indices[p])) == k;
    }
  }

  /** Each record carries the symbol of the key it points at; so no two
      records share a symbol, and the key of symbol k is `interned[k - 1]`. */
  lemma RecordSymbols(m: map<string, Symbol>, interned: seq<string>, indices: seq<IndexEntry>, arena: seq<char>)
    requires Numbered(m, interned)
    requires forall p :: 0 <= p < |indices| ==>
      && Fits(arena, ViewOf(indices[p]))
      && Slice(arena, ViewOf(indices[p])) in m
      && m[Slice(arena, ViewOf(indices[p]))] == indices[p].sym
    requires forall p, q :: 0 <= p < q < |indices| ==> Slice(arena, ViewOf(indices[p])) != Slice(arena, ViewOf(indices[q]))
    ensures KeysDistinct(indices, EntrySymbol)
    ensures forall p :: 0 <= p < |indices| ==>
      1 <= indices[p].sym <= |interned| && Slice(arena, ViewOf(indices[p])) == interned[indices[p].sym - 1]
  {
    NumberedIsBijection(m, interned);
    forall p, q | 0 <= p < q < |indices|
      ensures EntrySymbol(indices[p]) != EntrySymbol(indices[q])
    {
      assert Slice(arena, ViewOf(indices[p])) != Slice(arena, ViewOf(indices[q]));
    }
  }

  /** After `indices.sort_by_key`, the record at position j has symbol j + 1,
      given that the symbols are distinct and drawn from 1..|indices|. */
  lemma SortedSymbolsArePositions(indices: seq<IndexEntry>, sorted: seq<IndexEntry>)
    requires forall p :: 0 <= p < |indices| ==> 1 <= indices[p].sym <= |indices|
    requires |sorted| == |indices| && forall j :: 0 <= j < |sorted| ==> sorted[j] in indices
    requires SortedByKey(sorted, EntrySymbol) && KeysDistinct(sorted, EntrySymbol)
    ensures forall j :: 0 <= j < |sorted| ==> sorted[j].sym == j + 1
  {
    forall j | 0 <= j < |sorted|
      ensures 1 <= EntrySymbol(sorted[j]) <= |sorted|
    {
      assert sorted[j] in indices;
    }
    DenseKeysArePositions(sorted, EntrySymbol);
    forall j | 0 <= j < |sorted|
      ensures sorted[j].sym == j + 1
    {
      assert EntrySymbol(sorted[j]) == j + 1;
    }
  }

  /** Records taken from pairwise non-overlapping records, at distinct
      positions with distinct symbols, do not overlap either. */
  lemma SortedRecordsDisjoint(indices: seq<IndexEntry>, sorted: seq<IndexEntry>)
    requires forall p, q :: 0 <= p < q < |indices| ==> End(indices[p]) <= indices[q].offset
    requires forall j :: 0 <= j < |sorted| ==> sorted[j] in indices
    requires KeysDistinct(sorted, EntrySymbol)
    ensures forall i, j :: 0 <= i < j < |sorted| ==> Disjoint(ViewOf(sorted[i]), ViewOf(sorted[j]))
  {
    forall i, j | 0 <= i < j < |sorted|
      ensures Disjoint(ViewOf(sorted[i]), ViewOf(sorted[j]))
    {
      var p :| 0 <= p < |indices| && indices[p] == sorted[i];
      var q :| 0 <= q < |indices| && indices[q] == sorted[j];
      assert EntrySymbol(sorted[i]) != EntrySymbol(sorted[j]);
      if p < q {
        assert End(indices[p]) <= indices[q].offset;
      } else {
        assert End(indices[q]) <= indices[p].offset;
      }
    }
  }

  /** Each sorted record points at the string its symbol stands for. */
  lemma SortedRecordsPointAtNames(interned: seq<string>, indices: seq<IndexEntry>, arena: seq<char>, sorted: seq<IndexEntry>)
    requires forall p :: 0 <= p < |indices| ==>
      && 1 <= indices[p].sym <= |interned|
      && Fits(arena, ViewOf(indices[p]))
      && Slice(arena, ViewOf(indices[p])) == interned[indices[p].sym - 1]
    requires |sorted| <= |interned|
    requires forall j :: 0 <= j < |sorted| ==> sorted[j] in indices && sorted[j].sym == j + 1
    ensures forall j :: 0 <= j < |sorted| ==>
      Fits(arena, ViewOf(sorted[j])) && Slice(arena, ViewOf(sorted[j])) == interned[j]
  {
    forall j | 0 <= j < |sorted|
      ensures Fits(arena, ViewOf(sorted[j])) && Slice(arena, ViewOf(sorted[j])) == interned[j]
    {
      var p :| 0 <= p < |indices| && indices[p] == sorted[j];
      assert indices[p].sym == j + 1;
      assert Slice(arena, ViewOf(indices[p])) == interned[j];
    }
  }

  /** Numbers the strings 1, 2, ... in order, entry by entry. */
  ghost function Numbering(names: seq<string>): (m: map<string, Symbol>)
  {
    if names == [] then map[]
    else Numbering(names[..|names| - 1])[names[|names| - 1] := |names|]
  }

  /** Numbering strings without repetitions gives each its position plus one. */
  lemma {:induction false} NumberingOfDistinct(names: seq<string>)
    requires Distinct(names)
    ensures Numbered(Numbering(names), names)
  {
    if names != [] {
      var n := |names|;
      var init := names[..n - 1];
      NumberingOfDistinct(init);
      var m := Numbering(names);
      forall i | 0 <= i < n
        ensures names[i] in m && m[names[i]] == i + 1
      {
        if i < n - 1 {
          assert init[i] == names[i];
        }
      }
      forall s | s in m
        ensures s in names
      {
        if s != names[n - 1] {
          assert s in init;
        }
      }
    }
  }

  /** Views that put the numbered strings in slots 1.. behind an empty slot 0
      make a valid resolver whose contents are those strings. */
  lemma NumberedViewsAreValid(strsMap: map<string, Symbol>, strs: seq<View>, arena: seq<char>, names: seq<string>)
    requires |strs| == |names| + 1 <= U32_MAX && strs[0] == View(0, 0)
    requires forall k :: 1 <= k < |strs| ==> Fits(arena, strs[k]) && Slice(arena, strs[k]) == names[k - 1]
    requires Numbered(strsMap, names)
    ensures Resolver(strsMap, strs, arena).Valid()
    ensures Resolver(strsMap, strs, arena).Contents() == [""] + names
  {
    NumberedIsBijection(strsMap, names);
    var r := Resolver(strsMap, strs, arena);
    assert r.Contents() == [""] + names;
  }

  /** The second loop of `build`: slot 0 is the empty sentinel, then one view
      per sorted record, each also entered into the reverse map under its
      symbol. When record j names the (j + 1)-th of some distinct strings, the
      result is a valid resolver holding exactly those strings. */
  method IndexViews(sorted: seq<IndexEntry>, arena: seq<char>, ghost names: seq<string>)
    returns (strs: seq<View>, strsMap: map<string, Symbol>)
    requires |sorted| == |names| < U32_MAX
    requires Distinct(names)
    requires forall j :: 0 <= j < |sorted| ==>
      sorted[j].sym == j + 1 && Fits(arena, ViewOf(sorted[j])) && Slice(arena, ViewOf(sorted[j])) == names[j]
    ensures Resolver(strsMap, strs, arena).Valid()
    ensures Resolver(strsMap, strs, arena).Contents() == [""] + names
    ensures forall i :: 1 <= i < |strs| ==> strs[i] == ViewOf(sorted[i - 1])
  {
    strs := [View(0, 0)];
    strsMap := map[];
    for j := 0 to |sorted|
      invariant |strs| == j + 1 && strs[0] == View(0, 0)
      invariant forall k :: 1 <= k <= j ==> strs[k] == ViewOf(sorted[k - 1])
      invariant strsMap == Numbering(names[..j])
    {
      var e := sorted[j];
      var current := arena[e.offset..e.offset + e.length];
      strsMap := strsMap[current := e.sym];
      strs := strs + [ViewOf(e)];
      assert names[..j + 1][..j] == names[..j];
    }
    assert names[..|sorted|] == names;
    NumberingOfDistinct(names);
    NumberedViewsAreValid(strsMap, strs, arena, names);
  }
}

/**
 * `get_or_intern` and the loop of `deserialize` advance the counter with
 * `saturating_add(1)`. Both are modelled here exactly as written, on the
 * builder's fields taken as values, to show what happens once the counter
 * reaches `u32::MAX`: it stays there, so every later new string receives the
 * same symbol. `InternerBuilder.GetOrIntern` and `Serde.Decode` refuse
 * instead.
 */
module SaturatingCounter {
  import opened Wrappers
  import opened Symbols

  /** `NonZeroU32::saturating_add(1)`. */
  function SaturatingInc(c: nat): (r: nat)
    requires 1 <= c <= U32_MAX
    ensures 1 <= r <= U32_MAX
    ensures c < U32_MAX ==> r == c + 1
    ensures c == U32_MAX ==> r == U32_MAX
  {
    if c < U32_MAX then c + 1 else U32_MAX
  }

  /** The builder's two fields. */
  datatype BuilderState = BuilderState(count: nat, mapStrs: map<string, Symbol>)

  /** `get_or_intern` as written. A known string gets its stored symbol back
      and nothing changes. A new string is stored under the counter, which
      then saturates upwards. */
  function GetOrInternAsWritten(st: BuilderState, s: string): (res: (BuilderState, Symbol))
    requires 1 <= st.count <= U32_MAX
    ensures 1 <= res.0.count <= U32_MAX
    ensures s in st.mapStrs ==> res == (st, st.mapStrs[s])
    ensures s !in st.mapStrs ==>
      && res.1 == st.count
      && res.0.count == SaturatingInc(st.count)
      && res.0.mapStrs == st.mapStrs[s := st.count]
    ensures s in res.0.mapStrs && res.0.mapStrs[s] == res.1
    ensures res.0.mapStrs.Keys == st.mapStrs.Keys + {s}
    ensures forall t :: t in st.mapStrs ==> res.0.mapStrs[t] == st.mapStrs[t]
  {
    if s in st.mapStrs then (st, st.mapStrs[s])
    else (BuilderState(SaturatingInc(st.count), st.mapStrs[s := st.count]), st.count)
  }

  /** Interns the strings one after the other, as written. */
  function InternAllAsWritten(st: BuilderState, names: seq<string>): (r: BuilderState)
    requires 1 <= st.count <= U32_MAX
    ensures 1 <= r.count <= U32_MAX
    decreases |names|
  {
    if names == [] then st
    else InternAllAsWritten(GetOrInternAsWritten(st, names[0]).0, names[1..])
  }

  /** Below the limit, each new string advances the counter by one. */
  lemma {:induction false} CounterAdvancesPerNewString(st: BuilderState, names: seq<string>)
    requires 1 <= st.count && st.count + |names| <= U32_MAX
    requires Distinct(names) && forall i :: 0 <= i < |names| ==> names[i] !in st.mapStrs
    ensures InternAllAsWritten(st, names).count == st.count + |names|
    decreases |names|
  {
    if names != [] {
      var st1 := GetOrInternAsWritten(st, names[0]).0;
      forall i | 0 <= i < |names[1..]|
        ensures names[1..][i] !in st1.mapStrs
      {
        assert names[1..][i] == names[i + 1] != names[0];
      }
      CounterAdvancesPerNewString(st1, names[1..]);
    }
  }

  /** After u32::MAX - 1 distinct strings have been interned into a new
      builder, the next two distinct new strings both receive u32::MAX: the
      map is no longer injective. */
  lemma SaturationSharesSymbol(names: seq<string>, x: string, y: string)
    requires |names| == U32_MAX - 1 && Distinct(names)
    requires x != y && x !in names && y !in names
    ensures var st := InternAllAsWritten(BuilderState(1, map[]), names);
            var (st1, symX) := GetOrInternAsWritten(st, x);
            var (st2, symY) := GetOrInternAsWritten(st1, y);
            symX == symY == U32_MAX && st2.mapStrs[x] == st2.mapStrs[y]
  {
    CounterAdvancesPerNewString(BuilderState(1, map[]), names);
    var st := InternAllAsWritten(BuilderState(1, map[]), names);
    assert x !in st.mapStrs && y !in st.mapStrs by {
      InternAllAddsNames(BuilderState(1, map[]), names);
    }
  }

  /** Interning adds exactly the given strings to the map. */
  lemma {:induction false} InternAllAddsNames(st: BuilderState, names: seq<string>)
    requires 1 <= st.count <= U32_MAX
    ensures InternAllAsWritten(st, names).mapStrs.Keys == st.mapStrs.Keys + set s | s in names
    decreases |names|
  {
    if names != [] {
      InternAllAddsNames(GetOrInternAsWritten(st, names[0]).0, names[1..]);
      assert (set s | s in names) == {names[0]} + set s | s in names[1..];
    }
  }

  /** Interning `a` then `b` is interning `a + b`. */
  lemma {:induction false} InternAllAppend(st: BuilderState, a: seq<string>, b: seq<string>)
    requires 1 <= st.count <= U32_MAX
    ensures InternAllAsWritten(st, a + b) == InternAllAsWritten(InternAllAsWritten(st, a), b)
    decreases |a|
  {
    if a != [] {
      assert (a + b)[0] == a[0] && (a + b)[1..] == a[1..] + b;
      InternAllAppend(GetOrInternAsWritten(st, a[0]).0, a[1..], b);
    } else {
      assert a + b == b;
    }
  }

  /** The loop of `deserialize` as written: every value must be new, is
      stored under the counter, and the counter saturates upwards. `None` is
      the "Duplicate value" error. */
  function DeserializeLoopAsWritten(st: BuilderState, vals: seq<string>): (r: Option<BuilderState>)
    requires 1 <= st.count <= U32_MAX
    ensures r.Some? ==> 1 <= r.value.count <= U32_MAX && st.mapStrs.Keys <= r.value.mapStrs.Keys
    ensures vals != [] && vals[0] in st.mapStrs ==> r.None?
    decreases |vals|
  {
    if vals == [] then Some(st)
    else if vals[0] in st.mapStrs then None
    else DeserializeLoopAsWritten(BuilderState(SaturatingInc(st.count), st.mapStrs[vals[0] := st.count]), vals[1..])
  }

  /** `deserialize` as written, up to the final `build`: skip the first
      value and run the loop on a new builder. */
  function DeserializeAsWritten(values: seq<string>): (r: Option<BuilderState>)
    ensures r.Some? ==> 1 <= r.value.count <= U32_MAX
  {
    DeserializeLoopAsWritten(BuilderState(1, map[]), Tail(values))
  }

  /** The loop succeeds exactly when the values are distinct and all new,
      and then it has interned them one after the other. */
  lemma {:induction false} DeserializeLoopIsInternAll(st: BuilderState, vals: seq<string>)
    requires 1 <= st.count <= U32_MAX
    ensures DeserializeLoopAsWritten(st, vals).Some? <==>
      Distinct(vals) && forall i :: 0 <= i < |vals| ==> vals[i] !in st.mapStrs
    ensures DeserializeLoopAsWritten(st, vals).Some? ==>
      DeserializeLoopAsWritten(st, vals).value == InternAllAsWritten(st, vals)
    decreases |vals|
  {
    if vals != [] && vals[0] !in st.mapStrs {
      var st1 := GetOrInternAsWritten(st, vals[0]).0;
      DeserializeLoopIsInternAll(st1, vals[1..]);
      if Distinct(vals) && forall i :: 0 <= i < |vals| ==> vals[i] !in st.mapStrs {
        forall i | 0 <= i < |vals[1..]|
          ensures vals[1..][i] !in st1.mapStrs
        {
          assert vals[1..][i] == vals[i + 1] != vals[0];
        }
      }
      if DeserializeLoopAsWritten(st1, vals[1..]).Some? {
        forall i, j | 0 <= i < j < |vals|
          ensures vals[i] != vals[j]
        {
          if i == 0 {
            assert vals[j] == vals[1..][j - 1];
          } else {
            assert vals[i] == vals[1..][i - 1] && vals[j] == vals[1..][j - 1];
          }
        }
      }
    }
  }

  /** Deserializing `u32::MAX + 2` values whose tail is distinct succeeds,
      yet the last two values share the symbol `u32::MAX`. */
  lemma DeserializeSaturationSharesSymbol(first: string, names: seq<string>, x: string, y: string)
    requires |names| == U32_MAX - 1 && Distinct(names)
    requires x != y && x !in names && y !in names
    ensures var r := DeserializeAsWritten([first] + names + [x, y]);
            r.Some? && x in r.value.mapStrs && y in r.value.mapStrs &&
            r.value.mapStrs[x] == r.value.mapStrs[y] == U32_MAX
  {
    var st0 := BuilderState(1, map[]);
    var vals := names + [x, y];
    assert Tail([first] + names + [x, y]) == vals;
    assert Distinct(vals) by {
      forall i, j | 0 <= i < j < |vals|
        ensures vals[i] != vals[j]
      {
        if j < |names| {
          assert vals[i] == names[i] && vals[j] == names[j];
        } else if i < |names| {
          assert vals[i] == names[i];
        }
      }
    }
    DeserializeLoopIsInternAll(st0, vals);
    InternAllAppend(st0, names, [x, y]);
    SaturationSharesSymbol(names, x, y);
    var st := InternAllAsWritten(st0, names);
    var st1 := GetOrInternAsWritten(st, x).0;
    var st2 := GetOrInternAsWritten(st1, y).0;
    assert [x, y][0] == x && [x, y][1..] == [y] && [y][1..] == [];
    assert InternAllAsWritten(st2, []) == st2;
    assert InternAllAsWritten(st1, [y]) == st2;
    assert InternAllAsWritten(st, [x, y]) == st2;
  }
}
