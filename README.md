# svector engine model

`svector` is a pmemkv storage engine that keeps its data in one durable aggregate, `kv_container`:
two parallel vectors of byte strings. `keys` is strictly ascending and `values[i]` is the value
bound to `keys[i]`. Point lookups (`exists`, `get`, `remove`) use an exact-match binary search.
`put` finds the insertion point with `std::lower_bound` and then either overwrites the value in
place or inserts the pair at that index of both vectors. Scans hand pairs to a visitor callback
in ascending key order until the callback returns non-zero:
- `get_all` visits every pair.
- `get_above` and `get_equal_above` walk from the upper or lower bound to the end.
- `get_equal_below` and `get_below` walk from the front and stop at the first key out of range.

When the engine opens, `Recover` reattaches to the container stored in the pool's root slot, or
creates an empty container and stores it there.

The project has five modules:

- `ByteOrder` (`bytes.dfy`) defines keys as sequences of unsigned bytes. `Less` is the
  byte-lexicographic order that `std::string`'s `<` uses (its character traits compare as unsigned
  char). Lemmas prove it a strict total order that agrees with the textbook lexicographic
  definition. The file also holds the `StrictlySorted` invariant of the keys.
- `Search` (`search.dfy`) states `std::lower_bound` and `std::upper_bound` as the first index
  whose key is not less than, or greater than, the probe. On sorted keys both are partition points.
- `KvModel` (`kvmodel.dfy`) holds the abstract view:
  - the map that two parallel vectors represent (`MapOf`), with lemmas for what overwrite, insert
    and erase do to it;
  - the four key ranges ((b, +inf), [b, +inf), (-inf, b], (-inf, b)) with `Filter`;
  - the visitor protocol `Visit`, a pure reference for every scan.
- `SvectorEngine` (`svector.dfy`) has three classes. `KvContainer` holds the two vectors,
  `Pool` holds the root slot and `SVector` is the engine. The engine's methods follow the C++
  step by step: the binary-search loop with its `l`/`r`/`m` indices, the scan loops with their
  parallel `it`/`index` cursors and early return. Each method is proved against the abstract view.
- `SvectorUsage` (`usage.dfy`) is a client. It opens a fresh pool, inserts "c", "a", "b" (front,
  end and middle inserts), and derives from the contracts alone the results of lookups, the four
  range scans around "b", an early-stopping scan, an overwrite, a double remove and a reopen.

The visitor is a pure function `(key, value) -> int`. A scan returns a `ScanResult`: the status
together with the exact sequence of pairs the visitor was handed.

## Model

| member | source | states |
|---|---|---|
| ByteOrder.LessIrreflexive | src/engines/svector.cpp:240 | no key is less than itself |
| ByteOrder.LessAsymmetric | src/engines/svector.cpp:240 | `a < b` excludes `b < a` |
| ByteOrder.LessTransitive | src/engines/svector.cpp:240 | the key order is transitive |
| ByteOrder.LessTotal | src/engines/svector.cpp:237-244 | two different keys are ordered one way or the other, so a probe that is neither equal to nor less than `keys[m]` is greater |
| ByteOrder.LessImpliesLexLess | src/engines/svector.cpp:240 | `Less` implies the textbook lexicographic order: a proper prefix, or a first differing byte that is smaller |
| ByteOrder.LexLessImpliesLess | src/engines/svector.cpp:240 | the textbook lexicographic order implies `Less` |
| ByteOrder.LessIsLexLess | src/engines/svector.cpp:240 | `Less` and the textbook lexicographic order coincide, in both directions |
| ByteOrder.SortedDistinct | src/engines/svector.h:23-27 | keys stored in strictly ascending order contain no duplicates |
| Search.LowerBound | src/engines/svector.cpp:177-179 | every key before the returned index is less than the probe; the key at the index, if any, is not |
| Search.UpperBound | src/engines/svector.cpp:69-70 | every key before the returned index is not greater than the probe; the key at the index, if any, is greater |
| Search.LowerBoundPartitions | src/engines/svector.cpp:91-93 | on sorted keys, every key from the lower bound on is at least the probe |
| Search.UpperBoundPartitions | src/engines/svector.cpp:69-71 | on sorted keys, every key from the upper bound on is greater than the probe |
| Search.LowerBoundFinds | src/engines/svector.cpp:177-181 | on sorted keys, the probe is stored exactly when the key at its lower bound equals it (the overwrite test of `put`) |
| KvModel.MapOfDomain | src/engines/svector.h:23-28 | the keys of the represented map are exactly the stored keys |
| KvModel.MapOfAt | src/engines/svector.cpp:166-167 | with distinct keys, the map binds `keys[i]` to `values[i]` |
| KvModel.MapOfSize | src/engines/svector.cpp:41-42 | with distinct keys, the map has as many entries as `keys` |
| KvModel.ZipMembers | src/engines/svector.cpp:53-55 | a pair handed out by a full walk is a binding of the map, and every binding is such a pair |
| KvModel.MapOfOverwrite | src/engines/svector.cpp:183-185 | replacing `values[i]` rebinds `keys[i]` and changes no other binding |
| KvModel.MapOfInsert | src/engines/svector.cpp:187-190 | inserting an absent key and its value at the same index of both vectors adds exactly that binding |
| KvModel.MapOfEraseHead | src/engines/svector.cpp:207-210 | erasing index 0 of both vectors removes exactly the binding of the first key |
| KvModel.MapOfErase | src/engines/svector.cpp:207-210 | with distinct keys, erasing index `i` of both vectors removes exactly the binding of `keys[i]` |
| KvModel.SortedInsert | src/engines/svector.cpp:177-189 | inserting an absent key at its lower bound keeps the keys strictly ascending |
| KvModel.SortedErase | src/engines/svector.cpp:208 | erasing one key keeps the keys strictly ascending |
| KvModel.RangeMeaning | src/engines/svector.cpp:64-146 | each of the four ranges holds exactly the keys its name says: (b, +inf), [b, +inf), (-inf, b], (-inf, b) |
| KvModel.FilterMembers | src/engines/svector.cpp:64-146 | a filtered entry is an entry whose key is in the range, and every such entry survives the filter |
| KvModel.FilterAscending | src/engines/svector.cpp:64-146 | filtering keeps ascending key order |
| KvModel.FilterConcat | src/engines/svector.cpp:64-146 | filtering distributes over concatenation |
| KvModel.FilterNone | src/engines/svector.cpp:64-146 | entries wholly outside the range filter to nothing |
| KvModel.FilterAll | src/engines/svector.cpp:64-146 | entries wholly inside the range are kept unchanged |
| KvModel.FilterSuffix | src/engines/svector.cpp:64-106 | when the range holds exactly the entries from index `c` on, the filter is that suffix |
| KvModel.FilterPrefix | src/engines/svector.cpp:108-146 | when the range holds exactly the entries before index `c`, the filter is that prefix |
| KvModel.AboveIsSuffix | src/engines/svector.cpp:69-73 | on sorted keys, the pairs with key > b are exactly those from the upper bound to the end |
| KvModel.EqualAboveIsSuffix | src/engines/svector.cpp:91-95 | on sorted keys, the pairs with key >= b are exactly those from the lower bound to the end |
| KvModel.EqualBelowIsPrefix | src/engines/svector.cpp:113-116 | on sorted keys, the pairs with key <= b are exactly those before the upper bound, which is where the walk from the front meets the first greater key |
| KvModel.BelowIsPrefix | src/engines/svector.cpp:133-136 | on sorted keys, the pairs with key < b are exactly those before the lower bound, which is where the walk from the front meets the first key not less than b |
| KvModel.RangeSemantics | src/engines/svector.cpp:64-146 | on sorted keys, a range scan offers exactly the map's bindings whose key is in the range, in ascending key order |
| KvModel.VisitMeaning | src/engines/svector.cpp:53-61 | the visitor protocol: the pairs handed over are a prefix of the candidates; OK exactly when the callback returned 0 for every candidate, and then all were handed over; STOPPED_BY_CB exactly when the last pair handed over got a non-zero return and every earlier one got 0 |
| KvModel.ScanStep | src/engines/svector.cpp:73-81 | one loop iteration: a non-zero return stops with the current pair as the last one handed over; a zero return moves the cursor one step |
| SvectorEngine.KvContainer.constructor | src/engines/svector.cpp:222-223 | a container made by `make_persistent` has two empty vectors and represents the empty map |
| SvectorEngine.Pool.constructor | src/engines/svector.cpp:217 | a freshly created pool has a null root slot |
| SvectorEngine.SVector.constructor | src/engines/svector.cpp:16-24 | opening the engine runs `Recover`: it ends attached to the root's container, the existing one if there was one, otherwise a fresh empty one |
| SvectorEngine.SVector.Recover | src/engines/svector.cpp:215-228 | a non-null root is reattached with its keys and values unchanged; a null root gets a fresh empty container, stored in the root slot and attached |
| SvectorEngine.SVector.BinarySearch | src/engines/svector.cpp:230-248 | returns an index holding the target when the target is stored, and -1 exactly when it is not |
| SvectorEngine.SVector.CountAll | src/engines/svector.cpp:36-45 | the count equals the length of both vectors and the number of bindings in the map |
| SvectorEngine.SVector.Exists | src/engines/svector.cpp:148-153 | OK exactly when the key is stored, NOT_FOUND otherwise |
| SvectorEngine.SVector.Get | src/engines/svector.cpp:155-169 | OK exactly when the key is bound, and then the callback gets the value the map binds it to (`values[i]` at the key's index); NOT_FOUND with no callback otherwise |
| SvectorEngine.SVector.Put | src/engines/svector.cpp:171-194 | OK always; a key found at its lower bound has its value overwritten in place; otherwise key and value are inserted at that index of both vectors; the invariant holds; the map gains or rebinds exactly `key := value`; the count grows by one exactly for a new key |
| SvectorEngine.SVector.Remove | src/engines/svector.cpp:196-213 | NOT_FOUND with nothing changed for an absent key; otherwise OK, with the key's index erased from both vectors; the invariant holds; the map loses exactly that key; the count drops by one |
| SvectorEngine.SVector.GetAll | src/engines/svector.cpp:47-62 | the visitor is handed every pair in index order until it returns non-zero, with the matching status |
| SvectorEngine.SVector.GetAbove | src/engines/svector.cpp:64-84 | the visitor is handed the pairs with key > `key` in ascending order, under the same stop rule |
| SvectorEngine.SVector.GetEqualAbove | src/engines/svector.cpp:86-106 | the visitor is handed the pairs with key >= `key` in ascending order, under the same stop rule |
| SvectorEngine.SVector.GetEqualBelow | src/engines/svector.cpp:108-126 | the visitor is handed the pairs with key <= `key` in ascending order, under the same stop rule |
| SvectorEngine.SVector.GetBelow | src/engines/svector.cpp:128-146 | the visitor is handed the pairs with key < `key` in ascending order, under the same stop rule |
| SvectorUsage.OpenWithOneKey | src/engines/svector.cpp:171-194 | on a fresh pool, putting "c" leaves the container holding exactly ("c", 3) |
| SvectorUsage.OpenWithTwoKeys | src/engines/svector.cpp:187-190 | putting "a" then inserts at the front: keys ["a", "c"] |
| SvectorUsage.OpenWithThreeKeys | src/engines/svector.cpp:187-190 | putting "b" then inserts in the middle: keys ["a", "b", "c"], and the map binds each key to its value |
| SvectorUsage.ThreeKeysMap | src/engines/svector.h:23-28 | the three-pair container represents the map {a: 1, b: 2, c: 3} |
| SvectorUsage.BoundsAroundB | src/engines/svector.cpp:69-70 | in ["a", "b", "c"] the lower bound of "b" is 1 and its upper bound is 2 |

## Left out

- Transactions: each `transaction::run` block is one simultaneous assignment. Aborts, rollback,
  snapshotting and failure injection are not modelled.
- Durability and crashes: nothing about what survives a power failure. The pool is an ordinary
  object whose root slot holds a reference, and `pmemobj_direct` is the reference itself.
- `check_outside_tx` (it rejects calls made inside a transaction).
- Logging, `name()`, the destructor, the `static_assert` on string size, and the configuration
  passed to the constructor.
- Callback plumbing. The C function pointer and its `void *arg` become a pure function of key and
  value. The key and value lengths are implicit in the byte strings.
- `SvectorEngine.SVector.Get`: the callback of `get` returns nothing, so its effect is modelled as
  the value it is handed, returned as `seen`.
- Integer widths. `binary_search` uses `int` indices and `size_t` midpoints, and the scans use
  `unsigned` and `size_t` cursors. The model uses unbounded integers, so containers of more than
  `INT_MAX` entries, where those conversions would overflow, are not modelled.
- `pmem::obj::vector` and `polymorphic_string` storage layout: vectors are sequences and strings
  are byte sequences.
- Memory-allocation failures from `emplace` or `make_persistent` (exceptions) are not modelled:
  `put` and `Recover` always succeed.
- Concurrency: the model is sequential.
