# Branch predictors and cache models of a MIPS trace simulator

This project models, in Dafny, the part of the simulator that a MIPS
interpreter drives. That part has two halves:

- The branch predictors: `uberhistory`, `gshare`, `gtagged` and `bimodal`
  (with the older `bpred_mips` variants). It also covers the shared
  statistics of `branch_predictor`, the `lookup_impl` name table, and the
  pieces of `tage` whose code is given.
- The cache models, built on the intrusive recency list `mylist`:
  - the `simCache` base, with its address split and stack-distance tracker;
  - the direct-mapped, fully associative and set-associative caches;
  - the virtual `access`/`read`/`write`/`flush` calls.

Modules, one concept each:

| file | module | what it holds |
|---|---|---|
| bits.dfy | `Bits` | unsigned widths as subset types of `nat`; `&`, `\|`, `^` and shifts on naturals, with their arithmetic meaning |
| recency_list.dfy | `RecencyList` | `mylist` as a class over an entry pool (`data`/`next`/`prev` sequences, -1 for null) with a ghost `Contents` |
| lru.dfy | `Lru` | the LRU step every list user performs (`Touch`), replay of a trace, and its independent meaning: the `cap` most recently used distinct lines |
| cache_geometry.dfy | `CacheGeometry` | constructor arithmetic (logarithms, derived sizes) and `simCache::index` |
| cache.dfy | `Cache` | counters, `simCache`, `cacheset`, the three cache classes |
| cache_level.dfy | `CacheLevels` | dispatch through a `simCache *` |
| predictor_base.dfy | `BranchPredictor` | `bpred_impl`, `lookup_impl`, two-bit counters, index hashes, `branch_predictor`'s statistics |
| predictors.dfy | `Predictors` | `uberhistory`, `gshare`, `gtagged`, `bimodal` |
| mips_predictors.dfy | `MipsPredictors` | the unfolded `gshare` of `bpred_mips` |
| tage.dfy | `Tage` | `pc_hash`, `needed_history_length`, `tage_entry` |

The main results:

- Every cache keeps an invariant that ties its state to the access trace
  since the last flush.
  - A set-associative set, the fully associative list and the stack-distance
    stack each equal `Replay` of their trace.
  - `Lru.ReplayIsMostRecent` proves that this is the `assoc` most recently
    used distinct tags, most recent first.
  - A direct-mapped set holds the latest tag mapped to it. `DirectMappedIsOneWay`
    proves this is the one-way case of the same policy.
- `simCache::index` splits an address into parts that recombine to it.
- The list operations are proved against the list's abstract contents.
- The predictors are proved against saturating-counter steps and index
  functions. Their tables, their hashes and the mispredict map are each tied
  to a meaning (`XorIndexLowBits`, `FoldChunks`, `TagKeyInjective`,
  `CountsMeaning`).

Where this model departs from the code:

- The history register `globals::bhr` is passed to `Predict` as its integer
  value.
- `predict`'s reference parameter `idx` is returned in a `Prediction`.
- `enableStackDepth` is a constant of each cache (`trackStack`).
- Hit and miss counters are unbounded naturals.
- In the set-associative cache, `cacheset` updates its owner's `hits`,
  `misses`, `rw_hits` and `rw_misses` through references. Here those four
  counters are one shared `Counters` object.

## Model

| member | source | states |
|---|---|---|
| RecencyList.MyList.constructor | mylist.hh:56 | a new list is valid and empty |
| RecencyList.MyList.Alloc | mylist.hh:48-50 | a fresh pool slot holds v with null links; the list itself is unchanged |
| RecencyList.MyList.Unlink | mylist.hh:32-39 | `entry::unlink`: the successor's prev and the predecessor's next bypass the entry |
| RecencyList.MyList.LinkFront | mylist.hh:28-31 | `set_from_head` then `head = e`: the entry becomes the first element, the rest keep their order |
| RecencyList.MyList.LinkBack | mylist.hh:24-27 | `set_from_tail` then `tail = e`: the entry becomes the last element |
| RecencyList.MyList.PushBack | mylist.hh:58-68 | contents become old contents + [v]; the list stays well linked |
| RecencyList.MyList.PushFront | mylist.hh:69-79 | contents become [v] + old contents |
| RecencyList.MyList.PopBack | mylist.hh:80-88 | corrected `pop_back`: drops the last element; an empty list stays empty; the list stays valid |
| RecencyList.MyList.PopBackAsWritten | mylist.hh:80-88 | `pop_back` as written: correct for sizes other than 1; on a one-element list it leaves size 0 and a null tail while head still names the freed entry, and the list is no longer valid |
| RecencyList.MyList.Find | mylist.hh:139-149 | returns the first entry holding v, counting from the head, with its distance equal to that position; returns `end()` exactly when v is absent |
| RecencyList.MyList.MoveToTail | mylist.hh:150-164 | with more than one entry, the entry moves to the back and the others keep their order; otherwise nothing changes |
| RecencyList.MyList.MoveToHead | mylist.hh:165-179 | with more than one entry, the entry moves to the front and the others keep their order; otherwise nothing changes |
| RecencyList.MyList.Detach | mylist.hh:180-192 | the unlink-and-fix-head/tail step of `erase` and the moves: the chain loses exactly the entry at the given position, the rest stay in order and well linked, and the entry is no longer linked |
| RecencyList.MyList.Begin | mylist.hh:133-135 | on a valid list, `begin()` equals `end()` exactly when the list is empty; otherwise it names the head entry at position 0 |
| RecencyList.MyList.End | mylist.hh:136-138 | `end()` names no linked entry and no position of the list |
| RecencyList.MyList.Distance | mylist.hh:193-195 | for an iterator whose recorded distance still matches its entry, the distance is that entry's position from the head |
| RecencyList.MyList.Erase | mylist.hh:180-192 | removes exactly the entry `it` names; `erase(end())` changes nothing |
| RecencyList.MyList.Size | mylist.hh:196-198 | `cnt` is the number of elements |
| RecencyList.MyList.Empty | mylist.hh:199-201 | true exactly when the list has no elements |
| RecencyList.MyList.Clear | simCache.cc:161-163 | the `clear()` the caches call empties the list |
| Lru.ReplayIsMostRecent | simCache.hh:131-150 | after any trace, the list that the find/move-to-head/evict/push-front step maintains is the `cap` most recently used distinct tags, most recent first |
| Lru.HitIffRecent | simCache.hh:131-139 | an access hits exactly when its tag is among the `cap` most recently used distinct tags |
| Lru.ReplaySnoc | simCache.hh:131-150 | the LRU state after one more access is one LRU step from the state before it, the unfolding each cache uses to carry its recency invariant across an access |
| Lru.TouchShape | simCache.hh:137-147 | after the step, the accessed tag is first and held once, and the list still fits its capacity |
| Lru.TouchHitKeepsLines | simCache.hh:133-138 | a hit only reorders: same tags, same number |
| Lru.TouchMissEvictsLast | simCache.hh:140-148 | a miss on a full list evicts exactly the last (least recently used) tag and keeps the others in order behind the new one |
| CacheGeometry.Log2 | simCache.cc:58-63 | on a 64-bit power of two n the loop, which compares the 32-bit `int` `1<<k` converted to `size_t`, yields log2(n) when n ≤ 2^31 and stops at 31 for every larger n |
| CacheGeometry.ComputeGeometry | simCache.cc:50-66 | fails exactly when a parameter is not a power of two; otherwise the parameters are kept, the logarithms are what the loop yields, the offset bits are their sum, total size and tag width are wrapped modulo 2^64, and the geometry is well formed exactly when line size × sets ≤ 2^31 |
| CacheGeometry.WellFormedIffSmall | simCache.cc:58-66 | given the loop's logarithms, the logarithms are exact and the offset bits stay below 32 exactly when line size × sets ≤ 2^31 |
| CacheGeometry.Index | simCache.cc:105-117 | for a well-formed geometry (offset bits below 32), the offset is below the line size and the set index below the number of sets |
| CacheGeometry.IndexMeaning | simCache.cc:105-117 | offset = addr mod line size, set = line number mod sets, tag = addr / (line size × sets) |
| CacheGeometry.IndexRoundTrip | simCache.cc:105-117 | shifting tag, set and offset back into place and or-ing them gives the address again |
| Cache.Counters.constructor | simCache.cc:45-48 | all hit and miss counters start at 0 |
| Cache.Counters.CountHit | simCache.cc:143-144 | one hit and one hit of that operation kind counted, nothing else |
| Cache.Counters.CountMiss | simCache.cc:148-149 | one miss and one miss of that operation kind counted, nothing else |
| Cache.LruStep | simCache.cc:80-95 | find, then move to head or (evict if full and) push front: the list takes the LRU step; found iff present, and the depth is the tag's position |
| Cache.SimCache.constructor | simCache.cc:41-73 | zero counters, empty stack, histograms of `num_sets*assoc*4` zeros when stack depth is enabled |
| Cache.SimCache.UpdateDistanceStack | simCache.cc:78-98 | the line address takes an LRU step on a stack bounded by `max_stack_size`; a line already there counts a stack hit or miss at its depth |
| Cache.SimCache.Record | simCache.cc:88-94 | `stack_hits[d]++` on a hit, `stack_misses[d]++` otherwise, only when the line was found |
| Cache.SimCache.Track | simCache.cc:155-157 | the tracker takes one step when enabled and is untouched when not |
| Cache.CacheSet.constructor | simCache.hh:123-130 | an empty set with zero local counters sharing its cache's counters |
| Cache.CacheSet.Access | simCache.hh:131-150 | hits iff the tag is held; the set takes the LRU step; exactly one hit or one miss is counted, globally and locally |
| Cache.CacheSet.ListIsMostRecent | simCache.hh:131-150 | a set holds the `assoc` most recently used distinct tags since it was cleared |
| Cache.CacheSet.Size | simCache.hh:151-153 | the number of tags held, never more than `assoc` |
| Cache.CacheSet.Clear | simCache.hh:154-156 | the set becomes empty; local counters kept |
| Cache.DirectMappedCache.constructor | simCache.cc:120-129 | one invalid line per set; requires associativity 1 as the assertion does |
| Cache.DirectMappedCache.Probe | simCache.cc:137-153 | hits iff the latest access mapped to the same set since the flush had the same tag; counters updated accordingly |
| Cache.DirectMappedCache.Access | simCache.cc:137-159 | the probe, then the stack-distance tracker; the per-set invariant is kept |
| Cache.DirectMappedCache.Flush | simCache.cc:133-135 | every valid bit cleared, tags and counters kept |
| Cache.DirectMappedIsOneWay | simCache.cc:137-153 | a direct-mapped set holds a tag exactly when a one-way LRU set fed the same trace does |
| Cache.LastTagIsLastSetTag | simCache.cc:137-153 | the latest tag of a set is the last of the tags mapped to it |
| Cache.SetAccessTouches | simCache.cc:222-225 | an access changes only the set it maps to, by one LRU step |
| Cache.FullAssocCache.constructor | simCache.hh:98-103 | an empty list and `assoc` zero hit-depth counters |
| Cache.FullAssocCache.Lookup | simCache.cc:172-192 | hits iff the tag is held; the list takes the LRU step; `hitdepth` counts the hit at the tag's depth |
| Cache.FullAssocCache.RecordDepth | simCache.cc:179-180 | `hitdepth[d]++` exactly when found |
| Cache.FullAssocCache.Access | simCache.cc:172-196 | the lookup, then the stack-distance tracker |
| Cache.FullAssocCache.ListIsMostRecent | simCache.cc:172-192 | the list holds the `assoc` most recently used distinct tags since the flush |
| Cache.FullAssocCache.Flush | simCache.cc:161-163 | the list emptied; histogram and counters kept |
| Cache.NewSets | simCache.cc:201-204 | `num_sets` distinct empty sets, set i with id i, all counting into the cache's counters |
| Cache.ClearAll | simCache.cc:216-220 | every set is cleared |
| Cache.SetAssocCache.constructor | simCache.cc:198-205 | a valid cache with an empty trace |
| Cache.SetAssocCache.Lookup | simCache.cc:222-225 | hits iff the addressed set holds the tag; exactly one hit or miss counted; every set stays in step with the trace |
| Cache.SetAssocCache.Access | simCache.cc:222-229 | the lookup, then the stack-distance tracker |
| Cache.SetAssocCache.SetIsMostRecent | simCache.cc:222-225 | set i holds the `assoc` most recently used distinct tags among the accesses mapped to it |
| Cache.SetAssocCache.ClearSets | simCache.cc:216-220 | all sets empty, trace reset, tracker untouched |
| Cache.SetAssocCache.Flush | simCache.cc:216-220 | all sets empty; counters and tracker kept |
| CacheLevels.Access | simCache.hh:59 | the virtual call does what the cache's kind does; the base version does nothing |
| CacheLevels.Read | simCache.cc:234-237 | an access of kind READ |
| CacheLevels.Write | simCache.cc:239-242 | an access of kind WRITE |
| CacheLevels.Flush | simCache.hh:63 | each kind forgets its contents and keeps its counters and tracker |
| BranchPredictor.Ordinal | branch_predictor.hh:21-24 | the enumerator value is the position of the kind in the list |
| BranchPredictor.KindsListed | branch_predictor.hh:11-24 | exactly six kinds, pairwise distinct in value and name |
| BranchPredictor.ImplMapNames | branch_predictor.cc:199-202 | the map holds exactly the kinds' names, each mapped to its own kind |
| BranchPredictor.LookupImpl | branch_predictor.cc:191-197 | returns the kind with that name, or `unknown` when no kind has it; bpred_mips/branch_predictor.cc:130-142 is the same lookup in the older simulator, whose kind list is not shown |
| BranchPredictor.LookupName | branch_predictor.cc:191-202 | looking up a kind's name gives the kind back |
| BranchPredictor.NextTablesAreStep | branch_predictor.cc:44-50 | `next_t`/`next_nt` are the saturating step up/down |
| BranchPredictor.StepHysteresis | branch_predictor.cc:117-124 | two outcomes in one direction make any counter predict it; a saturated counter survives one contrary outcome |
| BranchPredictor.StepTowards | branch_predictor.cc:117-124 | a step moves at most one towards the outcome and stays put only at the saturated end |
| BranchPredictor.UpdateCounter | branch_predictor.cc:93 | only entry idx changes, by one step |
| BranchPredictor.WordIndex | branch_predictor.cc:152 | `(addr>>2) & (2^lg-1)` is the word address mod 2^lg |
| BranchPredictor.XorIndex | branch_predictor.cc:153 | the xor index is below 2^lg |
| BranchPredictor.XorIndexLowBits | branch_predictor.cc:153 | it is the xor of the low lg bits of the word address and of the history |
| BranchPredictor.XorIndexNoHistory | branch_predictor.cc:152-153 | with an empty history the xor index is the word index |
| BranchPredictor.CountsMeaning | branch_predictor.cc:53-59 | the map built by `mispredict_map[addr]++` holds exactly the mispredicted addresses, each with its number of mispredicts |
| BranchPredictor.BranchStats.constructor | branch_predictor.cc:6-7 | no branches, no mispredicts, empty map |
| BranchPredictor.BranchStats.GetMap | branch_predictor.hh:41-46 | the map's keys are the mispredicted addresses and each value is that address's count (≥ 1) |
| BranchPredictor.BranchStats.Count | branch_predictor.cc:125-126 | one more branch, one more mispredict iff prediction ≠ outcome; map unchanged |
| BranchPredictor.BranchStats.CountAndMap | branch_predictor.cc:94-98 | as Count, and a mispredict is added to the map |
| Predictors.UberHistory.constructor | branch_predictor.cc:19-23 | 2^lg zeroed entries |
| Predictors.UberHistory.Predict | branch_predictor.cc:35-40 | index = history mod 2^lg; taken iff that entry's counter is above 1 |
| Predictors.UberHistory.PredictIgnoresAddress | branch_predictor.cc:35-40 | the branch address plays no part in the prediction |
| Predictors.UberHistory.Update | branch_predictor.cc:42-60 | the entry records the address, becomes valid, and its counter takes one saturating step; the branch and any mispredict are counted and mapped |
| Predictors.Fold | branch_predictor.cc:75-77 | the folded history fits in 16 bits |
| Predictors.FoldChunks | branch_predictor.cc:75-77 | the folded history is the xor of the four 16-bit chunks of the history |
| Predictors.FoldShortHistory | branch_predictor.cc:75-77 | a history below 2^16 folds to itself |
| Predictors.GShare.constructor | branch_predictor.cc:62-66 | a table of 2^lg counters, all 0, and empty statistics |
| Predictors.GShare.Predict | branch_predictor.cc:72-90 | index = word address xor folded history, cut to lg bits; taken iff that counter predicts taken |
| Predictors.GShare.PredictNoHistory | branch_predictor.cc:72-90 | with an empty history the index is the word address cut to lg bits |
| Predictors.GShare.Update | branch_predictor.cc:92-99 | only the counter at idx steps; the branch and any mispredict are counted and mapped |
| Predictors.TagKey | branch_predictor.cc:106-109 | key = word address + (history mod 2^32)·2^32 |
| Predictors.TagKeyParts | branch_predictor.cc:106-109 | the key's high half is the low 32 history bits and its low half the word address |
| Predictors.TagKeyInjective | branch_predictor.cc:106-109 | two branches share a key iff their word addresses and low 32 history bits agree |
| Predictors.Train | branch_predictor.cc:117-124 | training keeps every counter within two bits |
| Predictors.TwoTakenToPredictTaken | branch_predictor.cc:105-124 | an unseen key predicts not taken, still does after one taken update, and predicts taken after two, since a new key's counter starts at 0 |
| Predictors.TrainOtherKeys | branch_predictor.cc:117-124 | training one key leaves every other key's presence and counter unchanged |
| Predictors.GTagged.constructor | branch_predictor.cc:101-102 | an empty table |
| Predictors.GTagged.Predict | branch_predictor.cc:105-115 | the key of address and history; taken iff the key is present with a counter above 1; bpred_mips/branch_predictor.cc:45-55 is the same code in the older simulator |
| Predictors.GTagged.Update | branch_predictor.cc:117-127 | the table becomes `Train` of the old one at idx; the branch is counted; the map is untouched; bpred_mips/branch_predictor.cc:57-67 is the same code in the older simulator |
| Predictors.Bimodal.constructor | branch_predictor.cc:131-136 | three separate tables of 2^lgC, 2^lg and 2^lg counters, all 0 |
| Predictors.Bimodal.Predict | branch_predictor.cc:151-158 | the choice counter at the word index selects the not-taken table (below 2) or the taken table, read at the xor index; bpred_mips/branch_predictor.cc:91-98 is the same code in the older simulator |
| Predictors.Bimodal.ChoiceKeptWhenRightDespiteBias | branch_predictor.cc:151-170 | the choice counter is kept exactly when the prediction was right while the choice's bias was wrong |
| Predictors.Bimodal.Update | branch_predictor.cc:160-176 | only the selected table steps at idx; the choice counter steps unless `ChoiceKept`; the branch is counted; bpred_mips/branch_predictor.cc:100-116 is the same code in the older simulator |
| MipsPredictors.GShare.constructor | bpred_mips/branch_predictor.cc:19-23 | a table of 2^lg counters, all 0 |
| MipsPredictors.GShare.Predict | bpred_mips/branch_predictor.cc:29-33 | index = word address xor the whole history, cut to lg bits; taken iff that counter predicts taken |
| MipsPredictors.GShare.PredictLowHistoryBits | bpred_mips/branch_predictor.cc:29-33 | histories that agree in their low lg bits give the same prediction |
| MipsPredictors.GShare.SameIndexAsFolded | bpred_mips/branch_predictor.cc:29-33 | for histories below 2^16 the unfolded and folded versions pick the same entry |
| MipsPredictors.GShare.Update | bpred_mips/branch_predictor.cc:35-39 | only the counter at idx steps; the branch is counted; no map |
| Tage.PcHash | branch_predictor.hh:93-95 | the word address mod 4096 |
| Tage.NeededHistoryLength | branch_predictor.hh:105-107 | 256 for tage, at least every table's length, and 0 for the other predictors |
| Tage.TageEntry.Clear | branch_predictor.hh:71-75 | all three bit-fields become 0 |

## Left out

- AMAT (`computeAMAT`), `getStats`, the `operator<<` printers and the
  destructors' reports are left out. They are floating-point and I/O; the
  destructors only print and free.
- `next_level` and `set_next_level` are left out. The code never forwards an
  access to the next level; only the AMAT and the printers read it.
- `tage::predict`, `tage::update` and the `tage` constructor have no
  definition in the code, so they are not modelled. Only `pc_hash`,
  `needed_history_length`, the table constants and `tage_entry` are.
- `twobit_counter_array` (counter2b.hh) is not part of this model.
  - Its `update` is taken to be the saturating step that `gtagged::update`
    writes out (`Step`).
  - Its initial values are taken to be 0: the gshare and bimodal
    constructors ensure every counter of their tables starts at 0.
  - `get_nentries` and `count_valid` are left out; only the destructor uses
    them.
- `sim_bitvec`, the global history register, is not part of this model. Its
  value (`to_integer()` / `h()`) is a `uint64` parameter of `Predict`.
- `branch_predictor::get_stats` and the instruction counter `icnt` are left
  out: they are a reference to the caller's counter and a plain read-out.
- Counters are unbounded `nat`s, so 64-bit wrap-around of `n_branches`,
  `n_mispredicts`, the map counts, hits, misses and histograms is not
  modelled.
- Constructors require `lg < 32` (gshare, bimodal) or `lg < 64`
  (uberhistory). Larger shifts are undefined behaviour in the code and are
  not modelled.
- `gshare`'s `pc_shift` parameter in branch_predictor.hh:53-56 is neither
  stored nor used by the constructor in branch_predictor.cc:62-66. The model
  follows the .cc.
- uberhistory: branch_predictor.hh:147-148 declares a string-keyed `pht` and
  a `sidx` that are never used. The .cc uses `lg_history_entries` and
  `history_table`, which the header does not declare. The model follows the
  .cc.
- The `bpred_mips` header (bpred_mips/branch_predictor.hh) is context only.
  The older predictors follow bpred_mips/branch_predictor.cc.
- `branch_predictor`'s virtual `predict`/`update` are left out: each
  predictor is its own class holding a `BranchStats`, so there is no virtual
  dispatcher over predictors. For caches the dispatch is modelled
  (`CacheLevels`).
- `getMap`'s non-const overload hands out a mutable reference. The model
  returns the map's value only.
- Pool memory (`boost::object_pool`) is a growing sequence of slots. Reuse of
  freed slots is not modelled; a freed slot is simply never linked again.
- The `isPow2` helper (helper.hh) is not part of this model. `IsPow2` is the
  mathematical predicate.
- The `directMappedCache` valid bits (`boost::dynamic_bitset`) are a
  sequence of booleans.
- `enableStackDepth` is a global in the code. Here it is fixed per cache at
  construction.
- `RecencyList.MyList.Clear`: mylist.hh declares no `clear()`, although
  simCache.hh:155 and simCache.cc:162 call one. The model gives it the only
  sensible meaning, emptying the list.
- `Cache.LruStep`, and with it `Cache.CacheSet.Access` and
  `Cache.FullAssocCache.Lookup`, evicts with the corrected `pop_back`
  (`RecencyList.MyList.PopBack`, see Findings), not the one mylist.hh
  defines. The two differ only when a list of capacity 1 is full. main.cc:223-234
  never builds such a list: associativity 1 selects `directMappedCache`, the
  set- and fully-associative caches are built only for associativity of 2 or
  more, and the distance stack holds `num_sets*assoc*4 >= 4` entries.
- `Cache.SimCache.constructor`: the distance-stack capacity `num_sets*assoc*4`
  is an unbounded product, so its `size_t` wrap-around is not modelled.
- The caches are modelled only for well-formed geometries
  (`CacheGeometry.WellFormed`), where line size × number of sets is at most
  2^31. For larger products the constructor's `int` shift stops the
  logarithm loops at 31 (`CacheGeometry.Log2`), so either a logarithm is
  wrong or `index` shifts a `uint32_t` by 32 or more bits, which is undefined
  behaviour.

## Findings

| source | as written | input that shows it | evidently intended | confidence | as-written member | corrected member |
|---|---|---|---|---|---|---|
| mylist.hh:80-88 | `pop_back` sets `tail = ptr->prev` but never updates `head`. | A list with one element, then `pop_back()`: `cnt` is 0 and `tail` is null, but `head` still points at the freed entry. A later `push_back` or `push_front` sees a non-null head and takes the non-empty branch: `push_back` dereferences the null tail, and `push_front` writes into the freed head entry. The cache models evict through `Cache.LruStep` with the corrected `pop_back`; main.cc:223-234 never builds a cache whose recency list has capacity 1, where the two would differ. | Popping the only element leaves both `head` and `tail` null, as `erase` does. | not executed | RecencyList.MyList.PopBackAsWritten | RecencyList.MyList.PopBack |
