# String interner, modelled in Dafny

This project models the two-phase string interner of `src/interner.rs`.
It proves properties of that model.

- `InternerBuilder` is the mutable phase. Its counter `count` starts at 1. Its map `map_strs` takes strings to symbols (`NonZeroU32`). `get_or_intern` returns the stored symbol for a known string. A new string gets the current counter value, and the counter then advances.
- `build` turns the builder into a `Resolver`. It packs all keys into one byte arena, in hash-map order, and records `(symbol, offset, length)` for each key. It sorts those records by symbol. Then it builds `strs`, where slot 0 is the empty-string sentinel and slot k views the string with symbol k. It also builds the reverse map `strs_map`.
- `Resolver` answers `get` (string to symbol), `resolve_unchecked` and `resolve_many_unchecked_from_slice` (symbol to string, for symbols below `len()`), and `len`.
- Serialization writes `strs` as a sequence of strings. Deserialization skips element 0 and numbers the rest 1, 2, … into a fresh builder. It rejects a repeated string, then builds.

## How the model is laid out

- `wrappers.dfy`: `Option` and `Result`.
- `symbols.dfy`: the symbol type, `u32::MAX`, "no repetitions" (`Distinct`), `skip(1)` (`Tail`), and a cardinality lemma.
- `sort_by_key.dfy`: the standard library's `sort_by_key`. It is modelled by a functional insertion sort. Its contract is that the output is ordered by key and is a permutation of the input. There are lemmas about distinct keys.
- `resolver.dfy`: the `Resolver` datatype. The self-referential `&'static str` views are `(offset, length)` pairs into `arena: seq<char>`. Resolving a view means slicing the arena. `Valid()` is the resolver invariant: slot 0 is `""`, every view lies inside the arena, and the forward sequence and the reverse map agree in both directions.
- `builder.dfy`: the `InternerBuilder` class. It has the fields `count` and `mapStrs`, plus a ghost field `Interned` that lists the interned strings in symbol order. `GetOrIntern` updates the fields in place. `Build` runs the packing loop (`PackArena`), the sort, and the indexing loop (`IndexViews`). The module `SaturatingCounter` models the saturating counter exactly as written (see Findings).
- `serde.dfy`: `Encode` and `Decode` on `seq<string>`, and the encode/decode round trip.
- `scenarios.dfy`: the repository's `can_build_interner` test, and intern-then-resolve for an arbitrary builder.

A Dafny `char` stands for one byte, so a string's length is its byte length. Symbols are unbounded `nat`s. Their 32-bit range is kept explicit: `count <= u32::MAX` in the builder, and `len() <= u32::MAX` in the resolver.

Two behaviours of `src/interner.rs` that the model keeps:
- `get_or_intern("")` does not return the sentinel 0. Like any other new string, `""` gets a fresh symbol. `get("")` is `None` unless `""` was interned.
- The arena is filled in hash-map iteration order, not in symbol order. The model picks an arbitrary remaining key at each step. Every stated property holds whatever that order is.

## Model

| member | source | states |
|---|---|---|
| `Building.InternerBuilder.constructor` | src/interner.rs:12-17 | a new builder is valid, has `count == 1` and an empty map |
| `Building.InternerBuilder.GetOrIntern` | src/interner.rs:19-31 | a known string returns its stored symbol and changes nothing. A new string is stored under `count`, `count` grows by exactly 1, and no other entry changes. At `u32::MAX` it reports `Overflow` and changes nothing. The invariant (symbols 1..count-1, one per string) is kept |
| `Building.NumberedIsBijection` | src/interner.rs:7-8 | the builder map is a bijection between its keys and the symbols `1..count-1`: no two keys share a symbol, and `|map| == count - 1` |
| `Building.InternerBuilder.Build` | src/interner.rs:33-61 | the result is a valid resolver. `strs` is `""` followed by the interned strings in symbol order. `strs_map` equals the builder's map. The arena is exactly as long as all keys together. The views of distinct slots do not overlap |
| `Building.PackArena` | src/interner.rs:34-40 | the first loop makes one record per key. Each record carries that key's symbol and points at that key's bytes. The records tile the arena in order (first at 0, each starts where the previous ends, the last ends at the arena's end). The arena length is the sum of the key lengths |
| `Building.PackStep` | src/interner.rs:37-39 | appending one key and its record keeps every earlier record pointing at its key, and keeps the tiling |
| `Building.SetLengthRemove` | src/interner.rs:36-39 | the total key length does not depend on the order in which the keys are visited |
| `Building.RecordSymbols` | src/interner.rs:36-38 | no two records share a symbol, and the record of symbol k points at the k-th interned string |
| `SortByKey.Sort` | src/interner.rs:46 | `sort_by_key` returns its input reordered (same multiset) and ordered by key |
| `SortByKey.SortKeepsKeysDistinct` | src/interner.rs:46 | sorting records whose symbols are distinct leaves them distinct |
| `SortByKey.DenseKeysArePositions` | src/interner.rs:46-47 | a sorted sequence with distinct keys drawn from 1..n has key j+1 at position j |
| `Building.SortedSymbolsArePositions` | src/interner.rs:46-47 | after sorting, the record at position j has symbol j+1 |
| `Building.SortedRecordsPointAtNames` | src/interner.rs:47-50 | after sorting, record j points at the string with symbol j+1 |
| `Building.SortedRecordsDisjoint` | src/interner.rs:47-50 | after sorting, the ranges of distinct records still do not overlap |
| `Building.IndexViews` | src/interner.rs:43-53 | the second loop gives a valid resolver. Slot 0 is `""` and slot j+1 is record j's view. The reverse map numbers the strings 1, 2, … |
| `Building.NumberingOfDistinct` | src/interner.rs:47-52 | inserting distinct strings one by one under 1, 2, … maps the i-th string to i+1 and holds nothing else |
| `Building.NumberedViewsAreValid` | src/interner.rs:44-53 | views of the numbered strings behind an empty slot 0 form a valid resolver with exactly those contents |
| `Building.ResolverMapIsNumbering` | src/interner.rs:51 | a valid resolver holding the numbered strings has that numbering as its reverse map |
| `Building.ResolverIsNumbered` | src/interner.rs:69-70 | a valid resolver's reverse map numbers its non-sentinel strings by slot |
| `Resolving.Resolver.Get` | src/interner.rs:77-79 | `Some(k)` only if slot k (k ≥ 1) holds the string. `None` only if no slot from 1 on holds it, so `""` is found only if it was interned |
| `Resolving.Resolver.ResolveUnchecked` | src/interner.rs:81-83 | for `sym < len()`, slot 0 resolves to `""` and any other slot resolves to a string that `get` maps back to `sym` |
| `Resolving.ResolveInvertsGet` | src/interner.rs:77-83 | resolving the symbol that `get` returns gives the string back |
| `Resolving.Resolver.ResolveManyUncheckedFromSlice` | src/interner.rs:85-89 | same length as the input; element i resolves `syms[i]`, and `get` maps it back to `syms[i]` when that is not 0 |
| `Resolving.Resolver.Len` | src/interner.rs:91-93 | `len()` is the number of interned strings plus one |
| `Resolving.StrsMapCount` | src/interner.rs:44-53 | a valid resolver's reverse map has one entry per non-sentinel slot |
| `Serde.Encode` | src/interner.rs:97-108 | emits `len()` strings, `""` first, and `get` maps each later string back to its position |
| `Serde.Decode` | src/interner.rs:112-132 | succeeds exactly when the strings after the first have no repetition and fit below `u32::MAX`. On success the resolver holds `""` followed by those strings in order. `DuplicateValue` is returned only when there is a repetition |
| `Serde.EncodingIsDecodable` | src/interner.rs:103-107 | an encoding starts with `""`, and the strings after it are distinct and few enough to decode |
| `Serde.EncodeDecodeRoundTrip` | src/interner.rs:97-132 | decoding the encoding of a resolver succeeds with the same `strs` contents and the same reverse map |
| `SaturatingCounter.SaturatingInc` | src/interner.rs:27 | `saturating_add(1)` on the counter: below `u32::MAX` it adds exactly one, at `u32::MAX` it stays there, and it never leaves `1..u32::MAX` |
| `SaturatingCounter.GetOrInternAsWritten` | src/interner.rs:19-31 | `get_or_intern` with the saturating counter: a known string gets its stored symbol and nothing changes. A new string is stored under `count` and gets `count`, the counter becomes `saturating_add(count, 1)`, and no other entry changes |
| `SaturatingCounter.CounterAdvancesPerNewString` | src/interner.rs:22-28 | below the limit, each new string advances the counter by exactly one |
| `SaturatingCounter.InternAllAddsNames` | src/interner.rs:19-31 | interning a sequence adds exactly its strings to the map |
| `SaturatingCounter.SaturationSharesSymbol` | src/interner.rs:27 | after `u32::MAX - 1` distinct strings, the next two distinct strings both get `u32::MAX` |
| `SaturatingCounter.InternAllAppend` | src/interner.rs:19-31 | interning `a` and then `b` gives the same builder as interning `a + b` |
| `SaturatingCounter.DeserializeLoopAsWritten` | src/interner.rs:118-128 | the deserialize loop as written: a value already in the map is the "Duplicate value" error, and on success the counter stays in `1..u32::MAX` and no key is lost |
| `SaturatingCounter.DeserializeAsWritten` | src/interner.rs:117-129 | `deserialize` as written, up to the final `build`: a new builder, `skip(1)`, then the loop. Its own contract bounds the counter to `1..u32::MAX` on success; `DeserializeLoopIsInternAll` characterises the loop it runs |
| `SaturatingCounter.DeserializeLoopIsInternAll` | src/interner.rs:118-128 | the loop succeeds exactly when its values are distinct and none is already in the map, and it then equals interning them one after the other |
| `SaturatingCounter.DeserializeSaturationSharesSymbol` | src/interner.rs:123 | deserializing a first value, `u32::MAX - 1` distinct strings and two more distinct strings succeeds, yet those last two share the symbol `u32::MAX` |
| `Scenarios.CanBuildInterner` | src/interner.rs:140-148 | "Hello" gets 1 and "World" gets 2; "Hello" again gets 1. The resolver holds `["", "Hello", "World"]` with `len() == 3`, `get("World") == Some(2)`, `resolve(1) == "Hello"` and `resolve(0) == ""` |
| `Scenarios.InternThenResolve` | src/interner.rs:19-83 | interning a string (known, or new below `u32::MAX`) keeps the builder valid: a known string returns its stored symbol and leaves the map unchanged, a new one is added under the returned symbol and nothing else changes. Building then gives a valid resolver on which the returned symbol resolves to the string, and so does the symbol of every interned string, earlier ones included |

## Findings

| source | as written | input that shows it | evidently intended | confidence | as-written member | corrected member |
|---|---|---|---|---|---|---|
| src/interner.rs:27 | `count.saturating_add(1)` stays at `u32::MAX`, so every later new string gets symbol `u32::MAX` | a new builder given `u32::MAX - 1` distinct strings, then two more distinct strings | one symbol per string; report overflow instead of reusing the last symbol | high, not executed | `SaturatingCounter.SaturationSharesSymbol` | `Building.InternerBuilder.GetOrIntern` |
| src/interner.rs:123 | deserialization advances the counter with the same `saturating_add(1)`, so a sequence with more than `u32::MAX` distinct values after the first is accepted with two strings sharing `u32::MAX` | a first value, `u32::MAX - 1` distinct strings, then two more distinct strings | reject the input instead of reusing the last symbol | high, not executed | `SaturatingCounter.DeserializeSaturationSharesSymbol` | `Serde.Decode` |

The corrected `GetOrIntern` and `Serde.Decode` refuse a new string when `count` is already `u32::MAX`. Both keep the bijection invariant (`Valid()`, `NumberedIsBijection`). As a result, symbol `u32::MAX` itself is never handed out.

## Left out

- The raw-pointer self-reference is not modelled: `from_raw_parts`, `from_utf8_unchecked` and the `'static` lifetime (src/interner.rs:42, 48-50, 64-73). Views are `(offset, length)` pairs into the arena instead. Address stability under moves (the `can_access_after_move` test) has no counterpart in a value model.
- Ownership transfer is not modelled. `build` consumes the builder in the source; here `Build` reads the builder and leaves it unchanged.
- Hashing is not modelled: `FxBuildHasher`, `shrink_to_fit`, and hash-map iteration order. The maps are Dafny `map`s. The packing order is an arbitrary choice of the next key.
- The serde `Serializer`/`Deserializer` plumbing and its error types are not modelled. Only the `seq<string>` that is exchanged is kept.
- UTF-8 is not modelled. A string is a `seq<char>`, and one `char` stands for one byte.
- The `Clone` derive is not modelled.
- `Building.InternerBuilder.GetOrIntern`: refuses the `u32::MAX`-th new string with `Overflow`, which the source stores under `u32::MAX`; only the string after it collides in the source. This is the corrected behaviour from Findings; the as-written behaviour is in `SaturatingCounter`.
- `Serde.Decode`: reports `SymbolOverflow` on the `u32::MAX`-th value after the first, which the source stores under `u32::MAX` at line 122, for the same reason.
- `Resolving.Resolver.ResolveUnchecked`: the unchecked precondition `sym < len()` is a verified `requires`. What happens on an out-of-range symbol (undefined behaviour) is not modelled.
- `SortByKey.Sort`: the standard library's stable sort is modelled by an insertion sort. Only the sort's order and permutation are stated, not its stability; the keys sorted here are distinct, so stability does not matter.
