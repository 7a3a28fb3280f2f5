# Verification model of the btp storage engine

This project models the statistics store in `libbtp/btp`: a cache of aggregators keyed by metric
name, in front of a persistent map of key records and a persistent, sharded map of time-series
points. It proves what every operation keeps, what holds over whole runs of the storage, restarts
and crashes included, and what the read operations return.

How it is built:

- Code that changes state step by step is a class or a method with loops: `KeyAggregators.KeyAggregator`,
  `KeyCaches.KeyCache` (three indexes), `DataStore.DataRocksdb`, `DataStore.ShardRocksdb`,
  `KeyStorages.KeyStorage`, `Storages.Storage`, `WeightedAverage.Aggregated`. Each method states its
  whole new state by a function of the old one (`CacheSpec`, `StorageSpec`).
- Those functions are the steps of a run (`StorageSpec.Step`, `StorageSpec.Run`), and the properties
  of runs are lemmas about them: `StorageRuns` (ids, agreement, recovery), `Isolation`, `LatePoints`,
  `History`, `GcWindow`. `StorageLaws` says what each step does without naming its functions.
- `Order`, `Names`, `Selection`, `Tree`, `Browsing` and `TreeWalk` treat the ordered scans; `Coalescing` treats
  the merge loop; `WeightedAverage` is self-contained.

What comes from outside:

- The aggregation library `wrtstat` is not part of this model. Its alignment of times, the time of a new
  or seeded separator, its addition of points and its percentile calculation are function values with a
  contract (`Wrtstat.Library`): a separator made at the time of a point does not begin after it, and its time
  is aligned and does not go back. What a push makes of a sample is an input of the step, bound by
  `Wrtstat.Accepts`; so is the point a forced pop hands over, bound by `StorageSpec.Allowed`.
- The clock is an input of every operation that reads it.
- A RocksDB database is an ordered map that keeps what is written; an iterator is a snapshot.
- Times are not negative where a run is concerned (`StorageSpec.Allowed`), ids do not reach the
  reserved id, store operations succeed, and calls are sequential. The reserved id is `None`.

Where the code and expectation differ, the code is modelled:

- `tree` does not move its search position past a separator it has found, so every depth from 1 on lists the
  same (`Tree.DepthIsOne`), and limit 0 with a positive offset gives an empty page (`Tree.TreePageIsPageIff`).
- A walk of the tree never leaves the root when a name begins with the separator (`Browsing.RootLoopsIff`).
- `data_rocksdb::del` starts at time 0 (`DataStore.DeleteEmptiesIff`, `DataStore.DelCanLeavePoints`).
- With gc on, deleting a name can give its older points to a later name: a name that was collected comes back
  under a new id, its deletion removes the record and the points of that id only, and after a restart the ids
  below are issued again (`Isolation.UnsafeDelLeaks`). `Isolation.DelThenRestartSealedIff` says exactly when, and
  `Isolation.RunIsCovered` that nothing else can cause it.
- An unsorted merge can overwrite its own points (`StorageSpec.MergeStoresAll`, `StorageSpec.MergeCanLose`).
- The two checks for inconsistent index sizes, and the trimming at the end of `data_rocksdb::get`, cannot
  take effect; the classes assert so in their place (`KeyCaches.KeyCache.CheckSizes`, `DataStore.DataRocksdb.Get`).

## Model

| member | source | states |
|---|---|---|
| `KeyAggregators.KeyAggregator.UpdateInfo_` | libbtp/btp/key_aggregator.cpp:228-252 | one observed point updates the update time and all eighteen value/time pairs, and not the id |
| `KeyAggregators.UpdateInfoAt` | libbtp/btp/key_aggregator.cpp:228-261 | every pair moves to the point's contribution (weighed with the count for the power pairs) exactly when that is larger |
| `KeyAggregators.ObserveIsFirstMax` | libbtp/btp/key_aggregator.cpp:228-261 | from a pristine record every pair is the maximum of 0 and all contributions, with the time of the first point reaching it; the update time is that of the last point |
| `KeyAggregators.FirstMaxUnique` | libbtp/btp/key_aggregator.cpp:254-261 | this describes the pair completely: no other pair fits it |
| `KeyAggregators.ObserveConcat` | libbtp/btp/key_aggregator.cpp:34-49 | observing xs and then ys leaves the record that observing xs + ys leaves |
| `KeyAggregators.RestoreExactlyWhen` | libbtp/btp/key_aggregator.cpp:148-173 | restoring a fresh aggregator from a record reproduces it if and only if its update time is positive or all its pairs are normal (positive value or untouched) |
| `KeyAggregators.RestoreReachable` | libbtp/btp/key_aggregator.cpp:148-173 | every record that observing points can produce is restored exactly, whatever the sign of its times |
| `KeyAggregators.RestoreCanLose` | libbtp/btp/key_aggregator.cpp:263-270 | a record is exhibited that restoring does not reproduce |
| `KeyAggregators.KeyInfoAt` | libbtp/btp/key_aggregator.cpp:184-213 | the plain view shows the peak pairs and the power view the power pairs, measure by measure |
| `KeyAggregators.KeyAggregator.Merge` | libbtp/btp/key_aggregator.cpp:34-49 | the record observes all aligned points in order; what is handed over is their coalescing |
| `KeyAggregators.KeyAggregator.Add` | libbtp/btp/key_aggregator.cpp:51-105 | a late point is handed over aligned and changes nothing; any other is pushed, with raw data made up when it has none, and everything emitted is observed and handed over in order |
| `KeyAggregators.MakeUp` | libbtp/btp/key_aggregator.cpp:83-97 | the raw data made up is 51, 30, 15, 4 and 1 values of the five percentiles |
| `KeyAggregators.MadeUpHasPercentiles` | libbtp/btp/key_aggregator.cpp:83-97 | for ordered percentiles the made-up values ascend and have exactly these percentiles by nearest rank |
| `KeyAggregators.FirstIsNotLate` | libbtp/btp/key_cache.cpp:66 | the first point of a name is not late, since its aggregator is made at its time |
| `KeyAggregators.KeyAggregator.AggregateLastPoint` | libbtp/btp/key_aggregator.cpp:114-140 | the current point, if aggregation of it is on and there is one, is observed and handed over |
| `KeyAggregators.KeyAggregator.RestoreKeyInfo` | libbtp/btp/key_aggregator.cpp:148-182 | every pair is set from the stored one by set_field_, the id stays, and the aggregator is seeded with the stored point |
| `Coalescing.CoalesceConserves` | libbtp/btp/key_aggregator.cpp:36-47 | coalescing keeps the total count, the count of every slot and the set of slots |
| `Coalescing.CoalesceSeparates` | libbtp/btp/key_aggregator.cpp:42-45 | no two adjacent outputs share a slot, for any input |
| `Coalescing.SortedMergeIncreases` | libbtp/btp/key_aggregator.cpp:36-47 | for time-sorted input the output slots are aligned and strictly increasing |
| `Coalescing.DistinctIffContiguous` | libbtp/btp/key_aggregator.cpp:36-47 | the output slots are distinct if and only if no input slot comes back after another one |
| `Coalescing.MergeStoresAllIff` | libbtp/btp/storage.cpp:177-184 | with positive counts, the last point written to each slot counts all inputs of the slot if and only if no slot comes back after another one |
| `Coalescing.SortedIsContiguous` | libbtp/btp/key_aggregator.cpp:38 | time-sorted input meets that condition |
| `Coalescing.LastIsBlockSum` | libbtp/btp/key_aggregator.cpp:42-46 | for any list, the last output in a slot is the sum, by operator += and in order, of the last block of inputs in that slot |
| `Coalescing.LastIsSlotSum` | libbtp/btp/key_aggregator.cpp:42-46 | when no slot comes back, it is the first input of the slot with all later ones added in order, every field of it |
| `DataStore.SeriesKeys` | libbtp/btp/data_rocksdb.cpp:77-84 | the keys of a series from a time on are exactly those of the id not before it, in strictly ascending order |
| `DataStore.WritesStayInSeries` | libbtp/btp/shard_rocksdb.cpp:102-128 | set, inc and del of one id leave the series of every other id alone |
| `DataStore.DeleteEmptiesIff` | libbtp/btp/data_rocksdb.cpp:109-134 | del empties the series of the id if and only if it had no point before time 0, where the scan starts |
| `DataStore.DelCanLeavePoints` | libbtp/btp/data_rocksdb.cpp:109-134 | a map and an id are exhibited of which del leaves a point |
| `DataStore.Seek` | libbtp/btp/data_rocksdb.cpp:77-84 | from the position sought on, the keys of the series come first and in one block, then another id |
| `DataStore.DataRocksdb.Set` | libbtp/btp/data_rocksdb.cpp:32-44 | set replaces the point of (id, ts) |
| `DataStore.DataRocksdb.Inc` | libbtp/btp/data_rocksdb.cpp:46-58 | inc adds to the point of (id, ts), a missing point counting as zero |
| `DataStore.DataRocksdb.Get` | libbtp/btp/data_rocksdb.cpp:61-107 | get returns the ascending points of the id from ts on, without the first offset, as many as the limit when it is positive and within the result limit and else as many as the result limit; the final trimming never applies |
| `DataStore.DataRocksdb.Scan` | libbtp/btp/data_rocksdb.cpp:80-100 | the iterator loop with its decremented limit and offset yields exactly that window |
| `DataStore.DataRocksdb.Del` | libbtp/btp/data_rocksdb.cpp:109-134 | del removes exactly the points of the id from time 0 on |
| `DataStore.ShardRocksdb.GetDb` | libbtp/btp/shard_rocksdb.cpp:33-36 | an id is served by the shard at the id modulo their number |
| `DataStore.ShardRocksdb.OwnShard` | libbtp/btp/shard_rocksdb.cpp:33-36 | that shard, and no other, holds the id, and agrees with the one map about every key of it |
| `DataStore.ShardRocksdb.StaysValid` | libbtp/btp/shard_rocksdb.cpp:102-128 | a write routed to the shard of its id keeps shard i to ids congruent to i and the shards equal to one map |
| `DataStore.ShardRocksdb.constructor` | libbtp/btp/shard_rocksdb.cpp:81-98 | hash size 0 stands for one shard; the shards are empty and distinct |
| `DataStore.ShardRocksdb.Set` | libbtp/btp/shard_rocksdb.cpp:102-105 | for any shard count, set behaves as on one map |
| `DataStore.ShardRocksdb.Inc` | libbtp/btp/shard_rocksdb.cpp:107-110 | for any shard count, inc behaves as on one map |
| `DataStore.ShardRocksdb.Get` | libbtp/btp/shard_rocksdb.cpp:112-115 | for any shard count, get returns the window of the series of the one map |
| `DataStore.ShardRocksdb.Del` | libbtp/btp/shard_rocksdb.cpp:125-128 | for any shard count, del behaves as on one map |
| `KeyStorages.Records` | libbtp/btp/key_rocksdb.cpp:102-123 | the scan visits the records in key order with their names |
| `KeyStorages.RecordOf` | libbtp/btp/key_rocksdb.cpp:115-122 | every record is visited |
| `KeyStorages.RecordsDistinct` | libbtp/btp/key_rocksdb.cpp:115-122 | no record is visited twice |
| `KeyStorages.Cut` | libbtp/btp/key_storage.cpp:46-67 | the batches concatenate to all records; all are full except possibly a non-empty last one |
| `KeyStorages.BatchIsSlice` | libbtp/btp/key_storage.cpp:53-65 | such batches are determined: batch i is the slice starting at i * step |
| `KeyStorages.KeyStorage.Load` | libbtp/btp/key_storage.cpp:46-67 | load does this over the store, step 0 meaning 16 |
| `Arithmetic.TruncDivIsQuotient` | libbtp/btp/key_cache.cpp:106 | the recorded time of a loaded key is its update time divided by the resolution, rounded towards zero |
| `CacheSpec.BatchingIsIrrelevant` | libbtp/btp/storage.cpp:54-71 | the cache built from the batches is the same for every way of cutting them |
| `CacheSpec.CollectRemovesExactly` | libbtp/btp/key_cache.cpp:303-315 | gc at T removes exactly the names recorded before T - TTL and leaves the others as they are |
| `GcWindow.RunKeepsIndexes` | libbtp/btp/key_cache.cpp:296-391 | over every run of the storage, restarts included, the names with a recorded time are the cached names when gc is on, and none when it is off |
| `GcWindow.RecordedTimeGrows` | libbtp/btp/key_cache.cpp:357-377 | the recorded time of a name does not go back while it lives, whatever the step |
| `GcWindow.TouchedNameSurvives` | libbtp/btp/key_cache.cpp:357-377 | a name added to or merged into at t survives every gc at T with T - TTL <= t - gc_interval + 1, whatever else the run does |
| `GcWindow.SurvivalIsTight` | libbtp/btp/key_cache.cpp:365-366 | one tick later a touched name can be removed |
| `GcWindow.RecordedByTouch` | libbtp/btp/key_cache.cpp:362-375 | a name created in the run is recorded at the clock of one of the adds or merges that touched it |
| `GcWindow.OldNameIsCollected` | libbtp/btp/key_cache.cpp:296-315 | with a clock that does not go back, gc at T removes every name created in the run and last touched before T - TTL |
| `CacheSpec.AllPopped` | libbtp/btp/key_cache.cpp:111-125 | the release loop hands over each name once, in order, with the record taken before its last point is popped |
| `KeyCaches.MirroredSize` | libbtp/btp/key_cache.hpp:87-88 | a time index holding exactly one (time, name) per name has the size of the name index |
| `KeyCaches.KeyCache.CheckSizes` | libbtp/btp/key_cache.cpp:317-321 | in every valid cache the size check passes, so its FATAL branch is dead |
| `KeyCaches.MirrorRemove` | libbtp/btp/key_cache.cpp:342-343 | erasing the pair of a name keeps the time indexes mirrored and removes one entry |
| `KeyCaches.SweptIsExpired` | libbtp/btp/key_cache.cpp:307-315 | sweeping up to the lower bound of (death time, "") takes exactly the expired names, and counts them |
| `KeyCaches.LowerBoundOfDeath` | libbtp/btp/key_cache.cpp:307 | that lower bound is the first entry not before the death time |
| `KeyCaches.KeyCache.UpdateTime_` | libbtp/btp/key_cache.cpp:357-377 | the time is refreshed only when it is older than the interval; both time indexes change together |
| `KeyCaches.KeyCache.GetOrCreate` | libbtp/btp/key_cache.cpp:379-391 | a cached name keeps its aggregator, a new one gets the next id and an aggregator made at the time given; the time is updated |
| `KeyCaches.KeyCache.Create` | libbtp/btp/key_cache.cpp:34-41 | create returns the id the name then has |
| `KeyCaches.KeyCache.GetId` | libbtp/btp/key_cache.cpp:49-56 | the id of a cached name, or none |
| `KeyCaches.KeyCache.Add` | libbtp/btp/key_cache.cpp:58-78 | only the aggregator of the name changes, as by its add, a new one being made at the time of the point; the record is handed over when the point is not late |
| `KeyCaches.KeyCache.Merge` | libbtp/btp/key_cache.cpp:80-97 | an empty list changes nothing; otherwise only the aggregator of the name changes, as by its merge, a new one being made at the time of the last point |
| `KeyCaches.KeyCache.Init` | libbtp/btp/key_cache.cpp:99-109 | the counter covers the id, the record is restored, the time is recorded, and an existing entry stays |
| `KeyCaches.KeyCache.Release` | libbtp/btp/key_cache.cpp:111-125 | all records in name order, each with its forced last point if any |
| `KeyCaches.KeyCache.Del` | libbtp/btp/key_cache.cpp:325-354 | the name leaves all indexes and its id is returned |
| `KeyCaches.KeyCache.Gc` | libbtp/btp/key_cache.cpp:296-323 | exactly the expired names leave all indexes, and their number is returned |
| `KeyCaches.KeyCache.SelectNames` | libbtp/btp/key_cache.cpp:128-164 | the matching names in lexicographic order from the offset on, at most limit of them, or all for limit 0 |
| `KeyCaches.KeyCache.Select` | libbtp/btp/key_cache.cpp:167-215 | the page of some ranking of all matching names: every entry shows the field of the key record that the sort stands for, the page descends, offset other names rank no lower, and all the rest no higher |
| `KeyCaches.KeyCache.ListTree` | libbtp/btp/key_cache.cpp:217-293 | for any depth from 1 on: the page of the components in ascending order, or of the leaves with their field values in descending order; unpaged, exactly the components for which some name ends there (not for branches) or goes on with its first separator there (not for leaves), each once |
| `Names.PrefixInterval` | libbtp/btp/key_cache.cpp:142-146 | once the scan has left the names with the prefix it meets no more of them |
| `Names.LessIff` | libbtp/btp/key_cache.cpp:142 | the order of the scan is lexicographic: the names part where one ends or has the smaller character |
| `Names.Find` | libbtp/btp/key_cache.cpp:245 | the first occurrence of the separator at or after the position, if there is one |
| `Selection.ScanIsComplete` | libbtp/btp/key_cache.cpp:142-149 | from lower_bound to the first mismatch the scan meets exactly the names with prefix and suffix, in order |
| `Selection.MatchingIff` | libbtp/btp/key_cache.cpp:406-429 | a name matches if and only if it is the prefix and something, and something and the suffix |
| `Selection.Scan` | libbtp/btp/key_cache.cpp:142-163 | the loop with its early exits returns exactly page (offset, limit) of them, limit 0 meaning all |
| `Order.PagesConcatenate` | libbtp/btp/key_cache.cpp:151-160 | consecutive pages concatenate to the whole |
| `Order.PageIs` | libbtp/btp/key_cache.cpp:151-160 | a page is the elements from the offset on, as many as the limit or, for limit 0, all |
| `Selection.StdSort` | libbtp/btp/key_cache.cpp:197 | an ordered permutation, with nothing promised about equal elements |
| `Selection.PageOfRanking` | libbtp/btp/key_cache.cpp:194-213 | every entry shows the value of its name, none twice; offset names off the page rank no lower than it, and all other matching names rank no higher |
| `Selection.ByValueIsField` | libbtp/btp/key_cache.cpp:442-487 | every sort compares and shows its own field: the peak value or, in the power view, the weighed one; counts and losses in both |
| `Tree.DepthIsOne` | libbtp/btp/key_cache.cpp:242-248 | every depth from 1 on finds the first separator, since the position is not moved past it |
| `Tree.ListEntries` | libbtp/btp/key_cache.cpp:240-263 | the loop lists the component of every name the node kind asks for |
| `Tree.EntriesOfNames` | libbtp/btp/key_cache.cpp:240-263 | the names listed are the set of components of the names scanned |
| `Tree.ListingIff` | libbtp/btp/key_cache.cpp:240-263 | c is listed if and only if some name is head + c without a later separator (not for branches) or begins with head + c + separator, its first separator after the head (not for leaves) |
| `Tree.AnyIsBoth` | libbtp/btp/key_cache.cpp:250-262 | the listing of any node is the leaves and the branches together |
| `Tree.LeafEntriesFollow` | libbtp/btp/key_cache.cpp:250-254 | leaves keep the values of the selection (LeafEntriesDescend and LeafEntriesAscend: and its order) |
| `Tree.SortUnique` | libbtp/btp/key_cache.cpp:266-273 | sort and unique list the distinct names in strictly ascending order |
| `Tree.TreePageIsPageIff` | libbtp/btp/key_cache.cpp:275-292 | the tree page is the ordinary page if and only if the limit is positive, the offset is 0 or the offset is beyond the end |
| `Tree.TreePagesConcatenate` | libbtp/btp/key_cache.cpp:275-292 | for a positive limit consecutive tree pages concatenate to the listing |
| `Tree.BranchHead` | libbtp/btp/key_cache.cpp:255-262 | a name under head + b + separator has component b, even where separators overlap |
| `Tree.BrowsingPartitions` | libbtp/btp/key_cache.cpp:231-263 | the names under a head are the disjoint union of the leaves and, over the branches, the names under each branch |
| `Tree.LeavesListedOnce` | libbtp/btp/key_cache.cpp:240-254 | whatever the order of the selection, the leaf listing has every leaf exactly once |
| `Browsing.ChildHead` | libbtp/tests/key_cache_suite.cpp:150-169 | descending into a branch lengthens the head, so the walk ends |
| `Browsing.BrowseMeetsOnce` | libbtp/tests/key_cache_suite.cpp:146-173 | the walk from a prefix meets every name under its head exactly once and no other |
| `Browsing.WholeTree` | libbtp/tests/key_cache_suite.cpp:146-173 | the walk from the root meets every name exactly once |
| `TreeWalk.Walk` | libbtp/tests/key_cache_suite.cpp:146-173 | a client that asks tree for the branches, walks each and asks for the leaves meets every name under its head exactly once, whatever it sorts by |
| `Browsing.RootLoopsIff` | libbtp/btp/key_cache.cpp:231 | the root lists the branch "", whose listing is the root's own, if and only if a name begins with the separator |
| `StorageSpec.MergeStoresAll` | libbtp/btp/storage.cpp:153-188 | after a merge with positive counts every slot of the list stores the count of all its points if and only if no slot comes back after another, and then it stores the sum of its points; other slots and series are untouched |
| `StorageSpec.MergeStores` | libbtp/btp/storage.cpp:177-184 | for any list, a merge stores in each slot of it the sum of the last block of points in that slot, and nothing elsewhere |
| `StorageSpec.MergeCanLose` | libbtp/btp/storage.cpp:177-184 | a list with slots 1, 2, 1 is exhibited whose merge stores less than its count |
| `StorageRuns.LoadKeys` | libbtp/btp/storage.cpp:49-71 | loading rebuilds exactly the recorded names, with the largest recorded id as counter |
| `StorageRuns.LoadAt` | libbtp/btp/storage.cpp:54-68 | each name is loaded with its recorded id and its restored record |
| `StorageRuns.CloseKey` | libbtp/btp/storage.cpp:263-271 | close records every cached name under its id and touches no other record |
| `StorageRuns.ClosePoint` | libbtp/btp/storage.cpp:273-282 | close writes points of cached names only |
| `StorageRuns.LeftKeys` | libbtp/btp/storage.cpp:263-271 | a restart finds the same records whether the storage was closed or not |
| `StorageRuns.RunKeepsInvariant` | libbtp/btp/storage.cpp:97-188 | in every run with restarts, clean or not: ids are never shared between names in cache and key store, and every cached name has a record with the same id and key info |
| `StorageRuns.Recovery` | libbtp/btp/storage.cpp:54-71 | at any moment, every cached name is recorded as it is, and loading the key store alone rebuilds its id and key info |
| `StorageRuns.NewIdsExceedOld` | libbtp/btp/key_cache.cpp:379-391 | within a run every id issued exceeds all ids loaded or issued before it |
| `StorageLaws.LateAddIsAdded` | libbtp/btp/storage.cpp:142 | a point before the time of the aggregator is added, with all its values and freshly calculated percentiles, to what its aligned slot holds; record, cache and all other points stay |
| `StorageLaws.LateAddReplaces` | libbtp/btp/storage.cpp:133-139 | while merging is disabled it replaces what its slot holds |
| `StorageLaws.PushedIsObserved` | libbtp/btp/key_aggregator.cpp:75-105 | any other point is pushed, with raw data made up when it has none; what is handed over, and the current point when that is on, is observed in order, the time becomes that of the push, and the record follows |
| `StorageLaws.PushedIsStored` | libbtp/btp/storage.cpp:112-127 | the last point handed over for a slot is what the slot holds, and nothing else changes |
| `StorageLaws.MergeIsRecorded` | libbtp/btp/storage.cpp:153-176 | a merge observes the aligned points in order, records the name, and leaves the time of the aggregator, a new one beginning at the time of the last point |
| `StorageLaws.DelTakesOnlyIts` | libbtp/btp/storage.cpp:236-249 | del takes the entry, the record and the points of the name, and nothing of any other |
| `StorageLaws.GcTakesOnlyExpired` | libbtp/btp/storage.cpp:20-24 | gc keeps exactly the names recorded at T - TTL or later, as they are, and changes nothing on disk |
| `StorageLaws.OpenKeepsIff` | libbtp/btp/storage.cpp:54-74 | with gc on, opening keeps a recorded name if and only if its update time divided by the resolution, rounded down (1 for 0), is at least T - TTL, and records that time |
| `StorageLaws.OpenAddsNothing` | libbtp/btp/storage.cpp:54-74 | no other name is opened, and without gc all recorded names are |
| `StorageLaws.RestartKeepsIff` | libbtp/btp/storage.cpp:26-78 | the same over all runs, for any restart |
| `StorageLaws.LoadedCurrent` | libbtp/btp/key_aggregator.cpp:174-181 | the separator of a loaded name begins at its update time and is seeded with the stored counts, extremes and average |
| `StorageLaws.CloseStoresLast` | libbtp/btp/storage.cpp:273-282 | close stores the last point of every cached name that has one, under its id, when the aggregation of last points is on |
| `StorageLaws.CloseStoresOnlyLast` | libbtp/btp/storage.cpp:273-282 | and leaves every other point as it was |
| `StorageLaws.ReleaseObserves` | libbtp/btp/key_cache.cpp:119-123 | releasing a name lets its record in the cache observe the popped point |
| `Isolation.RunIsIsolated` | libbtp/btp/storage.cpp:97-188 | without gc, over all runs with restarts, clean or not, every point in the data store belongs to a live cached name |
| `Isolation.NewNameIsEmpty` | libbtp/btp/storage.cpp:97-103 | so a new or re-created name begins with an empty series |
| `Isolation.DelLeavesNothing` | libbtp/btp/storage.cpp:236-249 | over all runs, with or without gc, del leaves none of the points of the id, nor takes any other |
| `Isolation.RunTimesOk` | libbtp/btp/storage.cpp:97-188 | over all runs, with or without gc, no point has a time before 0, where the scan of del begins |
| `Isolation.RestartGivesBack` | libbtp/btp/storage.cpp:26-78 | without gc a restart, clean or not, gives every name back under its id and with its key info |
| `Isolation.RunIsSealed` | libbtp/btp/key_cache.cpp:379-391 | within one run, whatever gc does, no point has an id above the counter, so a new name begins empty |
| `Isolation.RunIsCovered` | libbtp/btp/storage.cpp:97-188 | with or without gc, over all runs with any restarts and only safe deletions, no point has an id above all recorded ids |
| `Isolation.NewNameIsEmptyWithGc` | libbtp/btp/storage.cpp:97-103 | so with gc too, in particular in every run without del, a new name begins with an empty series |
| `Isolation.DelKeepsCoveredIff` | libbtp/btp/storage.cpp:236-249 | a deletion leaves points above all recorded ids if and only if some series that no record carries is not below another record |
| `Isolation.AlwaysSafeWithoutGc` | libbtp/btp/storage.cpp:236-249 | without gc there are no such series, so every deletion is safe |
| `Isolation.DelThenRestartSealedIff` | libbtp/btp/storage.cpp:26-78 | after a deletion and a restart, clean or not, the id counter covers all points if and only if the deletion was safe |
| `Isolation.UnsealedIsMet` | libbtp/btp/key_cache.cpp:379-391 | when the counter does not cover a point, adding so many new names as its id is above the counter gives the last of them that point |
| `Isolation.UnsafeDelLeaks` | libbtp/btp/storage.cpp:236-249 | a run is exhibited: merge, gc, merge again, del, clean restart, and the next new name sees the old point |
| `LatePoints.LateNeverOverwritten` | libbtp/btp/key_aggregator.cpp:51-105 | while a name is only added to, every set to a slot of its series precedes every inc to it, whatever happens to other names |
| `LatePoints.SeriesIsReplay` | libbtp/btp/storage.cpp:112-148 | the series of the name is the replay of its own writes; no other step changes it |
| `LatePoints.ReplayCount` | libbtp/btp/merge_operator.cpp:34-62 | with sets before incs a slot ends with the last set count plus all late counts |
| `LatePoints.LateCountsAreKept` | libbtp/btp/storage.cpp:112-148 | the stored count of a slot is the count of the last point handed over for it plus the counts of all late points added for it |
| `History.RunIsTold` | libbtp/btp/key_aggregator.cpp:215-261 | in every run the key info of every cached name and record is that of the points it received since it was last new; gc, restarts and crashes forget nothing of a record |
| `History.KeyInfoIsFirstMax` | libbtp/btp/key_aggregator.cpp:228-261 | so every pair is the first argmax of those points |
| `Storages.Storage.Add` | libbtp/btp/storage.cpp:97-151 | the class does what the run step does: cache first, then record and sets, or the inc (set when merging is disabled) of a late point |
| `Storages.Storage.Merge` | libbtp/btp/storage.cpp:153-188 | an empty list is refused; otherwise cache, record and sets as in the run step |
| `Storages.Storage.Get` | libbtp/btp/storage.cpp:190-207 | the window of the series of the cached id; time 0 stands for the start of the retention time; an unknown name fails |
| `Storages.Storage.Del` | libbtp/btp/storage.cpp:236-249 | cache entry, record and points go; an unknown name fails and changes nothing |
| `Storages.Storage.Gc` | libbtp/btp/storage.cpp:20-24 | only the cache is collected |
| `Storages.Storage.Open` | libbtp/btp/storage.cpp:26-78 | a new cache is loaded from the key store in batches of 10000 and collected once |
| `Storages.Storage.Close` | libbtp/btp/storage.cpp:251-304 | every name is recorded and its last point stored, under its id |
| `WeightedAverage.Aggregated.AddAssign` | package/rt/api/depr/types.hpp:42-55 | the operator updates all fields by the weighted average with the old count, and the count last |
| `WeightedAverage.Fold` | package/rt/api/depr/types.hpp:44-53 | folding non-negative points into a zero one gives the exact total count |
| `WeightedAverage.FoldBound` | package/rt/api/depr/types.hpp:47-52 | field times total count lies within the drift (sum of T_k - 1 over the points that count) below the exact weighted sum, and never above it |
| `WeightedAverage.FoldWithin` | package/rt/api/depr/types.hpp:47-52 | every field stays between the least and the greatest value that counts |
| `WeightedAverage.FoldOrdered` | package/rt/api/depr/types.hpp:48-52 | ordered percentiles stay ordered |

## Left out

- RocksDB itself: option files, column families, compaction, expiry by its own TTL, and failing calls with their error messages.
- The inside of `wrtstat`: reducing, percentiles, reservoir sampling, and what is pending in an aggregator between two pushes.
- Byte-level serialisation in the merge operator and the casts of keys and values.
- Locks and interleavings: `storage` writes cache and databases without a common lock, so runs are sequential.
- Null output pointers of `key_cache::add` and `merge`: the outputs are always collected.
- Integer widths: sizes, counts, ids and products are unbounded integers.
- Equality of the last record with the point popped by `close`: the record is taken before that point is popped, and is modelled so.
- Count conservation across restarts: a restored aggregator is seeded with stored maxima, whose effect is inside `wrtstat`.
- `DataStore.ShardRocksdb.constructor`: the shards begin empty; that a restart finds what is on disk is modelled by keeping the store across `Storages.Storage.Open`, so reopening with another number of shards is not covered.
- `KeyAggregators.KeyAggregator.RestoreKeyInfo`: of the seed point only its effect on the separator's time is modelled, since what it adds to the current slot is inside `wrtstat`.
- Gateways, services, domains, JSON descriptors, logging, paths and timers; `is_null`, `to_flat` and `operator ==` of `rtdepr::aggregated`.
- `Storages.Storage.Get`: the retention time and the resolution are plain integers, whose product is taken as the code takes it.
