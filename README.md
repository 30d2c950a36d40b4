# sparkle::unordered_map in Dafny

`sparkle::unordered_map` (src/custom_unordered_map.hpp) is a chained hash map whose
buckets share one list. All nodes live in one `std::list`, `elements_`. The vector `buckets_` holds one list
iterator per bucket. That iterator is the bucket's head, or `end()` when the bucket is
empty. Each node caches the bucket index it was placed under.

`insert` works like this:
- When the load factor equals the maximum, it first calls `rehash`.
- If the key's bucket is at `end()`, the new node goes to the front of the list.
- Otherwise it goes just before the bucket's head, unless a scan from that head to the
  end of the list already finds the key.
- Either way, the bucket's head becomes the returned iterator.

`operator[]` and `erase` use the same head-to-end scan. `rehash` squares the bucket
count and then recomputes both heads and cached indices in one pass over the list.

The project has two layers.

- **Value model** (`ChainTable`, `chain_table.dfy`):
  - The list is a `seq<Entry>` in list order.
  - A bucket head is a `Head`: `Empty` stands for `end()`, `At(p)` for an iterator to chain
    position p, and `Dangling` for an iterator to a node that has since been erased.
  - Each operation of the map is a function of a `Table`.
  - The hash function is a parameter.
  - `MapView.Contents` is the reference definition of the map a chain stands for; the
    first entry with a key wins.
  - The lemmas in `map_view.dfy`, `insert_props.dfy`, `access_props.dfy`,
    `erase_props.dfy` and `rehash_props.dfy` relate each operation to that map and to
    the invariants:
    - `Reachable`: each entry's head is at or before it;
    - `HeadsFirst`: each head is its bucket's first entry;
    - `Contiguous`: each bucket is one run of the list;
    - `UniqueKeys`.
- **Object model** (`Sparkle.UnorderedMap`, `unordered_map.dfy`, over `list_view.dfy`):
  - The object's fields are:
    - the list, as a sequence of node handles plus an arena map from handle to node;
    - the bucket vector, as `seq<Option<Handle>>`;
    - the maximum load factor;
    - the next free handle, which stands for the allocator.
  - `Insert`, `Emplace`, `Set`, `Erase`, `SetMaxLoadFactor` and `Rehash` modify the
    object and are proved to leave `Abs()` equal to the value model's operation applied
    to `old(Abs())`.
  - `ResetBuckets` and `RehashVisit`, the two halves of `Rehash`, are proved against
    the value model's rehash loop part way through.
  - `Get`, `LoadFactor`, `BucketCount`, `CorrectedBucketCount`, `Locate`, `FindFrom`,
    `Unique` and `FindByCachedKey` change nothing and return what the value model
    computes from `Abs()`.
  - A bucket that names an erased node's handle is seen as `Dangling`. This keeps the
    C++ iterator aliasing visible.

The map is modelled as written, defects included.
- `corrected.dfy`, the `Corrected` functions of `ChainTable`, `ChainTable.RehashOwnHead`
  and `ChainTable.RehashRebuild` give the evidently intended behaviour.
- `findings.dfy` exhibits the defects of `insert`, `erase` and `rehash` on concrete keys,
  mostly those of the tests in src/main.cpp.
- `scenarios.dfy` replays those tests against the class and shows the `bucket_count`
  defect on a new object, through `Sparkle.UnorderedMap.BucketCount`.

## Model

| member | source | states |
|---|---|---|
| ChainTable.EmptyTable | src/custom_unordered_map.hpp:150-154 | A new map has no entries and ten buckets, every one at `end()`. |
| ChainTable.Bucket | src/custom_unordered_map.hpp:65 | The bucket index `hash % count` is below the bucket count. |
| ChainTable.Find | src/custom_unordered_map.hpp:84 | The scan returns a position at or after the start that holds the key, and no position it passed holds the key. When it returns none, no position from the start on holds the key. |
| ChainTable.FirstCachedFrom | src/custom_unordered_map.hpp:144-148 | The loop of `find_by_cached_key` from a position returns the first later node caching the index, or `end()` when none does, and never a dangling iterator. |
| ChainTable.FirstCached | src/custom_unordered_map.hpp:144-148 | `find_by_cached_key` returns the first node of the whole list caching the index, or `end()` exactly when no node caches it. |
| ChainTable.FirstCachedUnique | src/custom_unordered_map.hpp:144-148 | The answer of `find_by_cached_key` is determined by the first-caching property. |
| ChainTable.Lookup | src/custom_unordered_map.hpp:83-84 | The scan from the head, as `operator[]` does it, finds only positions of entries holding the key. |
| ChainTable.LoadReached | src/custom_unordered_map.hpp:62-63 | The insert trigger, stated on integers as equal cross products, holds exactly when the load factor, entries over buckets, equals the maximum as a ratio of reals. |
| ChainTable.RatioEquality | src/custom_unordered_map.hpp:62 | Two fractions with positive denominators are equal exactly when their cross products are. |
| ChainTable.HeadsFirstReachable | src/custom_unordered_map.hpp:69-77 | When every head is its bucket's first entry, every entry is reached from its head and no head dangles. |
| ChainTable.Place | src/custom_unordered_map.hpp:65-79 | Placing keeps the cached indices equal to the buckets, keeps every head a live position, leaves the bucket count alone and adds no dangling head. |
| ChainTable.PlaceCorrected | src/custom_unordered_map.hpp:73-77 | The repaired placement keeps the table well formed and the bucket count unchanged. |
| ChainTable.Insert | src/custom_unordered_map.hpp:61-80 | Insertion keeps the table well formed and adds no dangling head. The bucket count is squared exactly when the load factor equals the maximum, and otherwise unchanged. |
| ChainTable.InsertCorrected | src/custom_unordered_map.hpp:61-80 | The repaired insert keeps the table well formed and squares the bucket count exactly on the load trigger. |
| ChainTable.SetValue | src/custom_unordered_map.hpp:82-86 | Assigning through `operator[]` keeps the table well formed. |
| ChainTable.SuccessorHead | src/custom_unordered_map.hpp:99-102 | The head `erase` writes names the erased node's successor exactly when a successor exists and caches the bucket. After the removal that successor is at the erased position. Otherwise the head is `end()`, and it never dangles. |
| ChainTable.Erase | src/custom_unordered_map.hpp:89-103 | Erasing removes exactly one entry, keeps the bucket count and keeps the table well formed. |
| ChainTable.EraseCorrected | src/custom_unordered_map.hpp:89-103 | The repaired erase removes exactly one entry and keeps the table well formed. |
| ChainTable.RehashLoop | src/custom_unordered_map.hpp:128-137 | The loop from a position on keeps the number of buckets and of entries. It leaves the visited entries alone and recaches every later entry under its bucket for the new count. |
| ChainTable.RehashStep | src/custom_unordered_map.hpp:128-137 | One turn of the rehash loop keeps its invariant. The invariant says that visited nodes cache their new bucket and unvisited ones are untouched. It also says that every non-empty head is a visited position, and some visited node caches that bucket; every visited node's head is at or before it. |
| ChainTable.RehashLoopKeeps | src/custom_unordered_map.hpp:128-137 | The whole rehash loop keeps that invariant to the end of the list. |
| ChainTable.Rehash | src/custom_unordered_map.hpp:124-138 | `rehash` squares the bucket count and keeps every entry but recaches it under its new bucket. Afterwards the table is well formed, no head dangles, every entry is reached from its head, and every non-empty head names a bucket that some entry caches. |
| ChainTable.RehashOwnHeadLoop | src/custom_unordered_map.hpp:128-137 | The loop with an empty new bucket headed by the visited entry keeps the bucket and entry counts, leaves visited entries alone and recaches every later one. |
| ChainTable.OwnHeadStep | src/custom_unordered_map.hpp:132-136 | One turn of that loop keeps its invariant: every head is the first visited entry of its bucket, or `end()` when no visited entry is in it. |
| ChainTable.OwnHeadLoopKeeps | src/custom_unordered_map.hpp:128-137 | The whole repaired loop keeps that invariant to the end of the list. |
| ChainTable.RehashOwnHead | src/custom_unordered_map.hpp:124-138 | The rehash with only the head choice repaired squares the bucket count and keeps the list order, recaching every entry. The table is then well formed and every bucket is headed by its first entry. |
| ChainTable.RebuildFrom | src/custom_unordered_map.hpp:124-138 | Placing entries one after another into a well-formed table without dangling heads keeps both properties and the bucket count. |
| ChainTable.RehashRebuild | src/custom_unordered_map.hpp:124-138 | The repaired rehash yields a well-formed table without dangling heads and with the squared bucket count. |
| MapView.ContentsFrom | src/custom_unordered_map.hpp:84 | The map of a chain suffix holds every key of the suffix. Each key's value is that of the entry the scan finds first. |
| MapView.ContentsHasKey | src/custom_unordered_map.hpp:153 | The map holds a key exactly when some entry of the list has it. |
| MapView.FindUnique | src/custom_unordered_map.hpp:84 | The scan's answer is determined by the first-match property. |
| MapView.FindEntry | src/custom_unordered_map.hpp:84 | With distinct keys, the scan from the front finds each entry at its own position. |
| MapView.LookupIsFullScan | src/custom_unordered_map.hpp:83-84 | When every entry's head is at or before it, the scan from the head gives the same answer as a scan of the whole list. |
| MapView.LookupMatchesContents | src/custom_unordered_map.hpp:82-86 | Under that condition, `operator[]`'s scan finds a key if and only if the map holds it, and the entry found carries the map's value. |
| MapView.LookupFindsEveryEntry | src/custom_unordered_map.hpp:82-86 | Under that condition and with distinct keys, every entry is found at its own position. |
| MapView.FindInsertAt | src/custom_unordered_map.hpp:70-75 | Inserting an entry with another key shifts the scan result for a key by one exactly when that key lies at or after the insertion point. |
| MapView.FindRemoveAt | src/custom_unordered_map.hpp:97 | Removing an entry with another key shifts the scan result for a key back by one exactly when that key lies after the removed position. |
| MapView.ContentsInsertAt | src/custom_unordered_map.hpp:70-75 | Inserting an entry with an absent key anywhere in the list adds exactly that binding to the map. |
| MapView.ContentsRemoveAt | src/custom_unordered_map.hpp:97 | With distinct keys, removing an entry removes exactly its key from the map. |
| MapView.ContentsRecache | src/custom_unordered_map.hpp:136 | Changing only cached indices leaves the map unchanged. |
| MapView.UniqueInsertAt | src/custom_unordered_map.hpp:70-75 | Inserting an absent key keeps the keys distinct. |
| MapView.UniqueRemoveAt | src/custom_unordered_map.hpp:97 | Removing an entry keeps the keys distinct. |
| InsertProps.InsertAtReachable | src/custom_unordered_map.hpp:69-77 | Inserting at a bucket's head, or at the front for an empty bucket, and making the new node the head keeps every entry reached from its head. |
| InsertProps.InsertAtHeadsFirst | src/custom_unordered_map.hpp:69-77 | The same insertion keeps every head its bucket's first entry. |
| InsertProps.InsertAtContiguous | src/custom_unordered_map.hpp:69-75 | Inserting before a bucket's first node, or at the front when the bucket has none, keeps each bucket one run of the list. |
| InsertProps.PlaceAddsIffAbsent | src/custom_unordered_map.hpp:69-79 | When every entry is reachable, `insert` returns an iterator other than `end()` if and only if the key is absent from the list. |
| InsertProps.PlaceNewKey | src/custom_unordered_map.hpp:69-77 | An absent key goes at the head's position, or at the front for an empty bucket, and becomes the head. The map gains exactly that binding, reachability is kept, and distinct keys stay distinct. |
| InsertProps.PlaceNewKeyLocal | src/custom_unordered_map.hpp:69-77 | Placing an absent key keeps the locality invariant: contiguous runs, each headed by its first entry. |
| InsertProps.PlaceDuplicate | src/custom_unordered_map.hpp:73-77 | A key found from the head adds nothing and returns `end()`. The bucket's head is overwritten with `end()`, so the table is no longer reachable and the key is no longer found. |
| InsertProps.DuplicateThenStoredTwice | src/custom_unordered_map.hpp:69-77 | After a duplicate insert, a further insert of the same key finds its bucket at `end()` and stores a second entry for the key at the front of the list. The keys are then no longer distinct, and lookup finds the new entry. |
| InsertProps.PlaceCorrectedKeepsReachable | src/custom_unordered_map.hpp:73-77 | The repaired placement keeps reachability and distinct keys. It leaves the map unchanged for a present key and adds the binding for an absent one. |
| InsertProps.LoadCheckKeeps | src/custom_unordered_map.hpp:62-63 | After the load check, with or without the rehash, the key's head is not dangling, every entry is reachable, and the map and distinct keys are kept. |
| InsertProps.InsertMap | src/custom_unordered_map.hpp:61-80 | Starting from distinct keys, `insert` keeps them distinct, adds the binding exactly when the key is absent, and leaves the table reachable if and only if the key was absent. |
| InsertProps.InsertThenLookup | src/custom_unordered_map.hpp:61-86 | After inserting an absent key, `operator[]` finds it with the inserted value. |
| InsertProps.InsertKeepsLocal | src/custom_unordered_map.hpp:61-80 | Without a rehash, inserting an absent key keeps the locality invariant. |
| AccessProps.ContentsSetValue | src/custom_unordered_map.hpp:82-86 | Replacing the value of the first entry holding a key rebinds exactly that key in the map. |
| AccessProps.SetValueKeeps | src/custom_unordered_map.hpp:82-86 | Assigning through `operator[]` keeps reachability and distinct keys, and the key is found at the same position afterwards. |
| AccessProps.SetValueMap | src/custom_unordered_map.hpp:82-86 | Under reachability, assigning through `operator[]` rebinds the key to the new value in the map, and nothing else changes. |
| EraseProps.RemoveAtFirstCached | src/custom_unordered_map.hpp:97 | Removing a node that is not the first of its index moves the first-caching answer as the list iterators move. |
| EraseProps.RemoveAtContiguous | src/custom_unordered_map.hpp:97 | Removing a node keeps each bucket one run. |
| EraseProps.EraseMap | src/custom_unordered_map.hpp:89-103 | With distinct keys, `erase` removes exactly the key from the map, keeps the keys distinct, and leaves the same list as the repaired erase. |
| EraseProps.EraseDangling | src/custom_unordered_map.hpp:97-102 | After `erase`, a head dangles if and only if it already did, or it is another bucket's head that named the erased node. |
| EraseProps.EraseNoDangling | src/custom_unordered_map.hpp:89-103 | When every head is its bucket's first entry, `erase` leaves no dangling head. |
| EraseProps.EraseHeadKeepsLocal | src/custom_unordered_map.hpp:89-103 | Erasing a bucket's head keeps the locality invariant. |
| EraseProps.EraseCorrectedKeepsLocal | src/custom_unordered_map.hpp:89-103 | The repaired erase keeps the locality invariant for any key found. |
| EraseProps.EraseCorrectedMap | src/custom_unordered_map.hpp:89-103 | The repaired erase keeps locality, reachability and distinct keys. It removes exactly the key from the map, and the key is no longer found. |
| EraseProps.EraseInteriorStrands | src/custom_unordered_map.hpp:99-102 | Erasing a key that is not its bucket's head overwrites the head, so the earlier entry that was the head stays in the map but is no longer found. |
| RehashProps.RehashKeepsMap | src/custom_unordered_map.hpp:124-138 | `rehash` leaves the map and distinct keys unchanged. |
| RehashProps.RehashLookup | src/custom_unordered_map.hpp:124-138 | After `rehash` the scan from the head finds a key if and only if the map held it, with the map's value. |
| RehashProps.RehashOwnHeadMap | src/custom_unordered_map.hpp:124-138 | The rehash with the head choice repaired keeps the map and distinct keys. Every entry is reached from its head, lookup agrees with the map, and a later erase of any key leaves no head dangling. |
| RehashProps.PrefixGains | src/custom_unordered_map.hpp:128 | With distinct keys, each list prefix's map extends the previous one by the next entry's binding. |
| RehashProps.PrefixFresh | src/custom_unordered_map.hpp:128 | An accumulator with the map of a prefix lacks the next key, and adding it gives the next prefix's map. |
| RehashProps.RebuildStep | src/custom_unordered_map.hpp:128-137 | Placing the next entry during the rebuild keeps locality and distinct keys, and extends the map to the next prefix. |
| RehashProps.RebuildKeeps | src/custom_unordered_map.hpp:128-137 | The whole rebuild ends with a local table with distinct keys holding the original map. |
| RehashProps.RehashRebuildMap | src/custom_unordered_map.hpp:124-138 | The repaired rehash keeps the map and distinct keys, and restores locality. |
| CorrectedTable.EmptySound | src/custom_unordered_map.hpp:150-154 | A new map is sound and stands for the empty map. Sound means well formed, local and with distinct keys. |
| CorrectedTable.PlaceCorrectedFindsDuplicate | src/custom_unordered_map.hpp:74 | Under reachability, `unique`'s scan from the head finds the key if and only if the map holds it. |
| CorrectedTable.InsertCorrectedSound | src/custom_unordered_map.hpp:61-80 | The repaired insert keeps the table sound and adds the binding exactly when the key is absent. It returns the new entry's position exactly then, and `end()` exactly when the key was present. |
| CorrectedTable.InsertCorrectedPresent | src/custom_unordered_map.hpp:61-80 | The repaired insert of a present key returns `end()` and changes nothing in the map. |
| CorrectedTable.InsertCorrectedTwice | src/custom_unordered_map.hpp:61-80 | With the repairs, inserting a key twice keeps the first value and the key stays found. |
| CorrectedTable.EraseCorrectedSound | src/custom_unordered_map.hpp:89-103 | In a sound table every present key can be erased, and the repaired erase keeps soundness and removes exactly that key. |
| CorrectedTable.SoundLookup | src/custom_unordered_map.hpp:82-86 | In a sound table `operator[]`'s scan finds a key if and only if the map holds it, with the map's value. |
| CorrectedTable.InsertThenEraseCorrected | src/custom_unordered_map.hpp:61-103 | With the repairs, inserting an absent key and then erasing it gives back the original map. |
| Findings.EraseStrandsScenario | src/main.cpp:15-30 | In the erase test, keys 1, 2, 11 and 22 land in buckets 1, 4, 1 and 4 under the squared hash. Erasing 2, which follows 22 in bucket 4, sets bucket 4's head to `end()`, so 22 stays in the map but is no longer found. The repaired erase still finds 22. |
| Findings.DuplicateInsertScenario | src/custom_unordered_map.hpp:73-77 | Inserting key 1 twice adds nothing but makes 1 unfindable. A third insert then stores 1 a second time, leaving two entries with the same key. |
| Findings.RehashTestInsert | src/main.cpp:57-68 | In the rehash test, at maximum load factor 4/10 the insert of 3 rehashes to 100 buckets, and afterwards bucket 22's head names key 2's node. |
| Findings.RehashForeignHeadScenario | src/main.cpp:46-71 | After the rehash test, bucket 22's head is the node of key 2, of bucket 2. Erasing 2 then leaves bucket 22 dangling. |
| Findings.RehashSplitsBucketScenario | src/custom_unordered_map.hpp:124-138 | Keys 25, 5, 15 and 105 share bucket 5 under the identity hash, and the insert of 7 at load factor 4/10 rehashes to 100 buckets. Bucket 5 is then no longer one run, and erasing its head 105, whose successor is 15 of bucket 15, sets bucket 5's head to `end()`, so 5 stays in the map but is no longer found. |
| Sparkle.UnorderedMap.constructor | src/custom_unordered_map.hpp:150-154 | The default state is valid and equals the empty value table, with maximum load factor 1. |
| Sparkle.UnorderedMap.Insert | src/custom_unordered_map.hpp:61-80 | The object ends in the value model's `Insert` of its old state, and the returned iterator is that model's result. |
| Sparkle.UnorderedMap.Emplace | src/custom_unordered_map.hpp:65-79 | The placing half leaves the object in the value model's placement of its old state. It covers the front insertion, the insertion before the head and the overwritten head. |
| Sparkle.UnorderedMap.Get | src/custom_unordered_map.hpp:82-86 | Reading through `operator[]` returns the value of the entry the scan finds. Under reachability this is the map's value for the key. |
| Sparkle.UnorderedMap.Set | src/custom_unordered_map.hpp:82-86 | Assigning through `operator[]` leaves the object in the value model's `SetValue`. List, buckets and allocator are untouched. |
| Sparkle.UnorderedMap.Erase | src/custom_unordered_map.hpp:89-103 | The object ends in the value model's `Erase` of its old state. |
| Sparkle.UnorderedMap.SetMaxLoadFactor | src/custom_unordered_map.hpp:111-113 | Only the maximum load factor changes. |
| Sparkle.UnorderedMap.LoadFactor | src/custom_unordered_map.hpp:115-117 | The result is entries over buckets. The insert trigger holds exactly when this ratio equals the maximum. |
| Sparkle.UnorderedMap.BucketCount | src/custom_unordered_map.hpp:119-121 | `bucket_count` reports 1, which is the true count only when there is one bucket. |
| Sparkle.UnorderedMap.CorrectedBucketCount | src/custom_unordered_map.hpp:119-121 | The repaired `bucket_count` reports the true, positive number of buckets. |
| Sparkle.UnorderedMap.Locate | src/custom_unordered_map.hpp:83-84 | For a key the scan finds, returns the list position the value model's scan from the bucket's head finds. This is the `std::find` of `operator[]` and `erase` (also line 92). |
| Sparkle.UnorderedMap.FindFrom | src/custom_unordered_map.hpp:84 | The loop over the list finds what the value model's scan finds. |
| Sparkle.UnorderedMap.Unique | src/custom_unordered_map.hpp:140-142 | `unique` is true if and only if the bucket's head is `end()` or the scan from it misses the key. |
| Sparkle.UnorderedMap.FindByCachedKey | src/custom_unordered_map.hpp:144-148 | The loop returns an iterator to the first node caching the index, or `end()`. |
| Sparkle.UnorderedMap.Rehash | src/custom_unordered_map.hpp:124-138 | The object ends in the value model's `Rehash` of its old state, with the list order and the live nodes unchanged. |
| Sparkle.UnorderedMap.ResetBuckets | src/custom_unordered_map.hpp:125-126 | The bucket vector is resized and every slot set to `end()`, with the nodes untouched. |
| Sparkle.UnorderedMap.RehashVisit | src/custom_unordered_map.hpp:129-136 | One turn of the object's loop advances the value model's loop by one step. |
| Sparkle.RehashTurn | src/custom_unordered_map.hpp:129-136 | On handles, one turn of the rehash loop is one step of the value model's loop. |
| Sparkle.PlaceNew | src/custom_unordered_map.hpp:69-77 | A new node linked at the head, or at the front, and made the head is the value model's placement, and the allocator stays fresh. |
| Sparkle.PlaceDuplicate | src/custom_unordered_map.hpp:73-77 | On handles, overwriting the head with `end()` is the value model's duplicate branch. |
| Sparkle.RemoveNode | src/custom_unordered_map.hpp:97 | Removing a node keeps the list distinct, its nodes stored and its handles older than the allocator's. |
| Sparkle.EraseNode | src/custom_unordered_map.hpp:92-102 | Unlinking the found node and writing the successor rule on handles is the value model's `Erase`. |
| Scenarios.OperatorBrackets | src/main.cpp:32-44 | After `insert(1, "1 1")` and `mapa[1] = "abc"`, reading `mapa[1]` gives `"abc"`. |
| Scenarios.BucketCountOfNewMap | src/custom_unordered_map.hpp:119-121 | A new map reports one bucket while it has ten. |
| Scenarios.EraseTest | src/main.cpp:15-30 | After the erase test, 22 is still in the map but the scan for it finds nothing. |
| Scenarios.RehashTest | src/main.cpp:46-71 | After the rehash test the object has 100 buckets and the five entries in list order. Bucket 22's head is key 2's node, so not every head is its bucket's first entry. |

## Left out

- `print_table` and `operator<<` for nodes only write to standard output. They are not modelled.
- Identity: stands for the `no_action_hash` of the `rehash` test (src/main.cpp:48-53), which returns the key itself; it has no contract of its own.
- Square: `util::hash<int>` converts the key to `float` and returns its square as `size_t`. The model's `Square` is the exact `k * k`, so rounding for keys whose square is not exactly representable above 2^24 is not modelled.
- The `double` maximum load factor is held as an exact ratio `maxNum / maxDen`, and the test `load_factor_ == max_load_factor_` as exact rational equality. Floating-point rounding of the division and of a value passed to `set_max_load_factor` is not modelled.
- Sparkle.UnorderedMap.LoadFactor: returns the ratio as the pair (entries, buckets) rather than a rounded `double`.
- ChainTable.Rehash: the bucket count is squared without the `size_t` wrap-around of `buckets_.size() * buckets_.size()`, which would need more than 2^32 buckets on a 64-bit platform.
- `unique` and `find_by_cached_key` take their index argument as `const Key&`. The model takes it as a natural number, which is what the callers pass after the conversion.
- The `Alloc` template parameter and `std::allocator_traits` become the `nextHandle` counter; list iterators become node handles.
- `std::vector::resize` in `rehash` keeps the old slots before they are overwritten. The model builds the new vector directly, since every slot is then set to `end()`.
- Undefined behaviour is a precondition, not a modelled outcome:
  - `operator[]` and `erase` on a key the scan does not find dereference or erase `end()`, so Get, Set and Erase require the key to be found;
  - `insert` whose bucket head names an erased node compares a dangling iterator, so Insert requires that head not to dangle unless the load check rehashes first.
- ChainTable.Lookup: a scan from a head naming an erased node is `std::find` from a dangling iterator, which is undefined behaviour. The model's `None` for a `Dangling` head stands in for it, so the `Lookup(Identity, …, 22) == None` conjuncts of Findings.RehashTestErase and Findings.RehashForeignHeadScenario describe that stand-in, not a behaviour of the source.
- Sparkle.UnorderedMap.BucketCount: states the constant 1 the code returns, not the bucket count the name promises (see Findings).
- Sparkle.UnorderedMap.Get: the value read through `operator[]` is returned by copy. The returned reference, and writes through it other than the assignment modelled by Set, are not modelled.
- The `insert` test of src/main.cpp (lines 4-13) only prints and is not replayed.
- The hash is a Dafny function value `K -> nat`; `Hasher{}` being default-constructed per call makes no difference to a stateless hasher.

## Findings

| source | as written | input that shows it | evidently intended | confidence | as-written member | corrected member |
|---|---|---|---|---|---|---|
| src/custom_unordered_map.hpp:73-77 | When `unique` finds the key, `it` stays `end()` and line 77 still writes it into the bucket's head. | Identity hash: `insert(1,"a")`, `insert(1,"b")`: 1 is no longer found; `insert(1,"c")` then stores a second node with key 1. | A duplicate insert leaves the table unchanged and still finds the key with its first value. | not executed | Findings.DuplicateInsertScenario | CorrectedTable.InsertCorrectedTwice |
| src/custom_unordered_map.hpp:99-102 | `erase` rewrites the bucket's head from the erased node's successor even when the erased node was not the head. | Squared hash: insert 1, 2, 11, 22, then `erase(2)`: bucket 4's head becomes `end()` and 22 can no longer be found. | Only erasing the head moves the head. | not executed | Findings.EraseStrandsScenario | EraseProps.EraseCorrectedMap |
| src/custom_unordered_map.hpp:119-121 | `bucket_count` returns the constant 1. | A new map: `bucket_count()` is 1 while `buckets_` has 10 slots. | The number of buckets, `buckets_.size()`. | not executed | Sparkle.UnorderedMap.BucketCount | Sparkle.UnorderedMap.CorrectedBucketCount |
| src/custom_unordered_map.hpp:132-134 | An empty new bucket takes as head the first node caching the entry's OLD index, which may belong to another new bucket. | Identity hash: insert 11, 22, 2, 33, set the maximum load factor to 4/10, insert 3: bucket 22's head is key 2's node; `erase(2)` then leaves it dangling. | Each new bucket's head is its own first node, so no later erase leaves a head dangling. | not executed | Findings.RehashForeignHeadScenario | RehashProps.RehashOwnHeadMap |
| src/custom_unordered_map.hpp:127-137 | `rehash` leaves the list order alone, so the nodes of one new bucket need not be adjacent, while `erase` treats the next node of another bucket as the end of the run. | Identity hash: insert 25, 5, 15, 105, set the maximum load factor to 4/10, insert 7 (rehash to 100 buckets), `erase(105)`: 5 is no longer found. | Rehashing regroups the list so each bucket is one run headed by its first node. | not executed | Findings.RehashSplitsBucketScenario | RehashProps.RehashRebuildMap |
