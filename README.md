# generic-bloom in Dafny

A model of the core of `generic-bloom`, a Bloom filter library that is generic over its
counter storage. One hashing and indexing algorithm drives two kinds of storage:

- a bit slice (`BitBox`), which gives a classic Bloom filter with `union` and `intersect`;
- a slice of saturating counters (`Box<[T]>`), which gives a counting filter (with
  `remove`) and a spectral filter (with `contains_more_than` and `find_count`).

The project has three modules, one per source file:

- `storage.dfy`, module `Storage` (`src/traits.rs`). The classes `BitBox` and `CountBox` each
  hold a constant array, so `size()` (`Size`) is the array length and can never change.
  Every mutator (`Increment`, `Decrement`, `Clear`, `Union`, `Intersect`) states the whole
  new array contents in terms of the old. `Query` and `QueryCount` are read functions on the array.
  The counter type is an 8-bit unsigned integer: `Count` is a natural number up to `Max = 255`.
- `filter.dfy`, module `Filter` (`src/traits/filter.rs`). This module states what each
  filter operation does to a storage value, given the index sequence a value hashes to:
  - `AllSet` and `AllAbove` are `contains` and `contains_more_than`.
  - `Marked`, `Added` and `Subtracted` are `insert` and `remove`.
  - `MinAt` is `find_count`.

  The lemmas here prove the promises made by the trait documentation: no false negatives,
  `remove` after `insert` gives the old answers back, `union` is a superset, and `intersect`
  keeps the common members.
  For any interleaving of inserts and removes, `Covers` says the counters account for the
  inserts not yet removed. `insert` preserves it, and so does `remove` of any of those inserts,
  which is then always safe. Under it, every such value is contained, and `find_count` is at
  least its number of inserts not yet removed.
- `simple_filter.dfy`, module `SimpleFilter` (`src/simple_filter.rs`). It holds the hashing
  function `Indices` and the two ways the source instantiates `SimpleBloomFilter`:
  - `BinaryFilter`, over `BitBox`. Its operations are `insert`, `contains`, `clear`, `union`,
    `intersect` and `counters`.
  - `CountingFilter`, over `CountBox`. Its operations are `insert`, `contains`, `clear`,
    `remove`, `contains_more_than`, `find_count` and `counters`.

  Each method is proved against the `Filter` functions. The module also holds the three
  documentation examples, written as client methods.

Hashers are modelled as functions from values to digests (`Hasher<V> = V -> nat`). This
keeps every property deterministic: a property holds for every choice of hashers.

Decrementing a zero counter is not modelled as a no-op. The code (`src/traits.rs:146-150`) has no zero check, so `-=`
on a zero counter panics in debug builds and wraps in release builds. The model follows the
code: `Decrement` requires a non-zero counter. `Remove` requires `Removable`: no counter is
decremented more often than it holds, unless it is saturated.

## Model

| member | source | states |
|---|---|---|
| `Storage.Zeros` | src/traits.rs:79-81 | new bit storage has the requested length and no bit set |
| `Storage.NoCounts` | src/traits.rs:118-123 | new counter storage has the requested length and every counter at zero |
| `Storage.Or` | src/traits.rs:105-107 | bit `union` keeps the length, and its set positions are the union of both sides' set positions |
| `Storage.And` | src/traits.rs:109-111 | bit `intersect` keeps the length, and its set positions are the intersection of both sides' set positions |
| `Storage.BitBox.constructor` | src/traits.rs:79-81 | a fresh array of `count` cleared bits |
| `Storage.BitBox.Size` | src/traits.rs:83-85 | the number of counters: the slice length, fixed for the storage's lifetime |
| `Storage.BitBox.Query` | src/traits.rs:95-97 | presence at `index` is exactly "`index` is one of the set positions" |
| `Storage.BitBox.Increment` | src/traits.rs:87-89 | sets bit `index` and leaves every other bit alone; the set of positions gains exactly `index`, so a second call changes nothing |
| `Storage.BitBox.Clear` | src/traits.rs:91-93 | every bit cleared, length unchanged |
| `Storage.BitBox.Union` | src/traits.rs:105-107 | new bits are the pointwise OR of the old bits and `other`'s, for equal lengths |
| `Storage.BitBox.Intersect` | src/traits.rs:109-111 | new bits are the pointwise AND of the old bits and `other`'s, for equal lengths |
| `Storage.CountBox.constructor` | src/traits.rs:118-123 | a fresh array of `count` zero counters |
| `Storage.CountBox.Size` | src/traits.rs:125-127 | the number of counters: the slice length, fixed for the storage's lifetime |
| `Storage.CountBox.QueryCount` | src/traits.rs:159-161 | the raw count stored at `index` |
| `Storage.CountBox.Increment` | src/traits.rs:129-131 | counter `index` gains one below `Max` and stays at `Max` once there; no other counter changes |
| `Storage.CountBox.Decrement` | src/traits.rs:146-150 | a saturated counter is left alone and any other counter loses exactly one; no other counter changes; a zero counter is a caller error |
| `Storage.CountBox.Clear` | src/traits.rs:133-135 | every counter back to zero, length unchanged |
| `Storage.CountBox.Query` | src/traits.rs:137-139 | presence is exactly "count is not zero" |
| `Filter.Marked` | src/simple_filter.rs:106-110 | setting the bits at the indices one after another sets exactly the indexed positions and keeps every bit already set |
| `Filter.Added` | src/simple_filter.rs:106-110 | `insert` on counters keeps the storage length |
| `Filter.AddedLast` | src/simple_filter.rs:106-110 | incrementing the indices one at a time, in order, adds to each counter one saturating unit per occurrence of its position, so duplicate indices count twice |
| `Filter.Subtracted` | src/simple_filter.rs:133-137 | `remove` on counters keeps the storage length |
| `Filter.SubtractedLast` | src/simple_filter.rs:133-137 | decrementing the indices one at a time takes one unit per occurrence from every unsaturated counter, never decrements a zero counter, and is safe on every prefix |
| `Filter.MinAt` | src/simple_filter.rs:182-187 | the result is at most every indexed count and equal to one of them: the minimum |
| `Filter.MarkedKeepsMembers` | src/traits/filter.rs:86-95 | after `insert` the value is contained, and every value contained before still is: no false negatives |
| `Filter.MarkedIdempotent` | src/traits.rs:87-89 | inserting a value twice into bit storage equals inserting it once |
| `Filter.UnionKeepsMembers` | src/traits/filter.rs:100-104 | whatever either filter contained, their union contains |
| `Filter.IntersectKeepsCommon` | src/traits/filter.rs:136-142 | the intersection contains a value exactly when both filters did |
| `Filter.ClearedContainsNothing` | src/traits/filter.rs:35-36 | after `clear`, no value with at least one index is contained, for either storage |
| `Filter.AddedKeepsMembers` | src/traits/filter.rs:52-60 | after a counting `insert` the value is contained, and every true `contains_more_than` answer stays true |
| `Filter.AddedIsRemovable` | src/traits/filter.rs:44-46 | what `insert` added, `remove` may take away again without decrementing a zero counter |
| `Filter.RemoveUndoesInsert` | src/simple_filter.rs:133-137 | if no counter touched by the value reaches `Max`, `remove` right after `insert` restores the storage exactly |
| `Filter.RemoveAfterInsertNeverLowers` | src/traits.rs:146-150 | because saturated counters are never decremented, `remove` right after `insert` never lowers a counter |
| `Filter.RemoveAfterInsertKeepsContains` | src/traits/filter.rs:52-65 | when no position occurs `Max` times among the indices, `insert` then `remove` gives every value its `contains` answer back, both ways |
| `Filter.RemoveOfAbsentCanLoseOthers` | src/traits/filter.rs:44-46 | removing a value that was never inserted can make a contained value vanish |
| `Filter.AboveIffMinAbove` | src/simple_filter.rs:168-187 | `contains_more_than(v, t)` holds exactly when `find_count(v) > t` |
| `Filter.InsertRaisesMin` | src/traits/filter.rs:163-164 | one `insert` raises the `find_count` estimate by at least one, up to `Max` |
| `Filter.FindCountAtLeastInserts` | src/traits/filter.rs:163-164 | after `n` back-to-back inserts of a value, from any storage, `find_count` is at least `n` (or `Max`); `Filter.CoversFindCount` extends this to any history |
| `Filter.InsertCovers` | src/simple_filter.rs:106-110 | `insert` keeps the counters covering the history of inserts not yet removed, with this insert added |
| `Filter.RemoveCovers` | src/traits/filter.rs:44-46 | `remove` of any value inserted and not yet removed is safe, whatever came in between: it decrements no zero counter, and the counters then cover the history without that insert |
| `Filter.CoversContains` | src/traits/filter.rs:44-46 | over any history of inserts and removes of inserted values, every value inserted and not removed since is contained: no false negatives |
| `Filter.CoversFindCount` | src/traits/filter.rs:163-164 | over any such history, `find_count` is at least the number of inserts not yet removed of the value's index sequence (or `Max`): it never underestimates |
| `SimpleFilter.Indices` | src/simple_filter.rs:79-90 | one index per hasher, in hasher order, each the digest modulo the storage size and so a valid position |
| `SimpleFilter.BinaryFilter.WithHashers` | src/simple_filter.rs:61-68 | needs at least one hasher; keeps the given hashers and allocates `n_counters` cleared bits |
| `SimpleFilter.BinaryFilter.New` | src/simple_filter.rs:46-57 | exactly `n_hashers` default hashers, in construction order, over `n_counters` cleared bits |
| `SimpleFilter.BinaryFilter.Counters` | src/simple_filter.rs:102-104 | the filter's own storage, returned without change |
| `SimpleFilter.BinaryFilter.Insert` | src/simple_filter.rs:106-110 | the bits become `Marked` by the value's indices, so the value is contained afterwards |
| `SimpleFilter.BinaryFilter.Contains` | src/simple_filter.rs:112-120 | true exactly when the bit at every index of the value is set |
| `SimpleFilter.BinaryFilter.Clear` | src/simple_filter.rs:122-124 | every bit cleared; the hashers are constant |
| `SimpleFilter.BinaryFilter.Union` | src/simple_filter.rs:146-151 | the bits become the OR with the other filter's counters; equal size and shared hashers required |
| `SimpleFilter.BinaryFilter.Intersect` | src/simple_filter.rs:153-158 | the bits become the AND with the other filter's counters; equal size and shared hashers required |
| `SimpleFilter.CountingFilter.WithHashers` | src/simple_filter.rs:61-68 | needs at least one hasher; keeps the given hashers and allocates `n_counters` zero counters |
| `SimpleFilter.CountingFilter.New` | src/simple_filter.rs:46-57 | exactly `n_hashers` default hashers over `n_counters` zero counters |
| `SimpleFilter.CountingFilter.Counters` | src/simple_filter.rs:102-104 | the filter's own storage, returned without change |
| `SimpleFilter.CountingFilter.Insert` | src/simple_filter.rs:106-110 | the counters become `Added` by the value's indices, so the value is contained afterwards |
| `SimpleFilter.CountingFilter.Contains` | src/simple_filter.rs:112-120 | true exactly when every indexed counter is non-zero |
| `SimpleFilter.CountingFilter.Clear` | src/simple_filter.rs:122-124 | every counter back to zero |
| `SimpleFilter.CountingFilter.Remove` | src/simple_filter.rs:133-137 | the counters become `Subtracted` by the value's indices, provided no zero counter would be decremented |
| `SimpleFilter.CountingFilter.ContainsMoreThan` | src/simple_filter.rs:168-180 | true exactly when every indexed count exceeds `count`, which is exactly `find_count(v) > count` |
| `SimpleFilter.CountingFilter.FindCount` | src/simple_filter.rs:182-187 | needs at least one hasher; returns the minimum count over the value's indices: at most each of them and equal to one |
| `SimpleFilter.UnionExample` | src/traits/filter.rs:86-104 | with shared hashers, after `f1.union(&f2)` the filter contains 48, 32 and 39 |
| `SimpleFilter.IntersectExample` | src/traits/filter.rs:121-142 | 32, inserted into both filters, is still contained after `f1.intersect(&f2)` |
| `SimpleFilter.RemoveExample` | src/traits/filter.rs:52-65 | with 10 hashers over 8-bit counters, after 0..30 are inserted, inserting 30 and then removing it makes `contains(30)` true in between and returns it to its earlier value |
| `SimpleFilter.InsertInsertRemove` | src/traits/filter.rs:44-46 | from any counter storage, inserting two values and removing the first is safe, and leaves the second contained with a count of at least one |
| `SimpleFilter.InterleavedExample` | src/traits/filter.rs:44-46 | with 10 hashers over 20 counters, after `insert x; insert y; remove x`, `contains(y)` holds and `find_count(y) >= 1`, for every `x` and `y` |

## Left out

- Hashing internals are not modelled: `BuildHasher`, `RandomState`, `Hash`, the 64-bit digest and the `u64 as usize` cast. A hasher is a function from values to a natural-number digest. `new` takes a function that gives the hasher of the i-th default construction, because a randomly seeded hasher can differ on every call.
- The counter type is fixed to `u8` (`Max = 255`, the type used in the crate's examples). Other unsigned types differ only in `Max`. Signed counter types are not modelled.
- `Storage.CountBox.Decrement`: a zero counter is excluded by a precondition. The source would panic or wrap there.
- Hashing operations (`Insert`, `Contains`, `Remove`, `ContainsMoreThan`, `FindCount`) require non-empty storage, because the source's `% set_size` panics on zero.
- `with_hashers` and `new` require at least one hasher. This is the source's `debug_assert!`; release builds that skip it are not modelled.
- `SimpleFilter.BinaryFilter.Union` and `SimpleFilter.BinaryFilter.Intersect` require equal sizes and the same hashers. The source leaves other combinations meaningless and cannot check hasher equality. Their `other` is a `BinaryFilter`, the one type in the source that implements `BinaryBloomFilter`.
- `Filter.Added` and `Filter.Subtracted`: their own contracts state only the length. What they compute is stated by `Filter.AddedLast`, `Filter.SubtractedLast` and the lemmas about them.
- `into_inner`, `hashers`, `Rc`, `PhantomData` and the `V: AsRef<[S]>` parameter are ownership plumbing and are not modelled. `counters()` is the function `Counters`, which returns the constant storage field. The `BitBox` store and bit-order type parameters are not modelled either.
- `find_count` returns a value here, not a reference.
- In the source, `insert`, `contains`, `remove`, `contains_more_than` and `find_count` are generic per call (`fn insert<T: Hash>`), so one filter can take values of several types. The model fixes one value type `V` per filter.
- The index sequence is computed eagerly, not as a lazy iterator. This gives the same result, because it is consumed once, in order.
- False-positive rates and parameter sizing are probabilistic and are not stated.
- Concurrency is not modelled, because the source is single-threaded.
- `src/lib.rs` and `src/traits/mod.rs` hold only module wiring and re-exports, and are not part of this model.
