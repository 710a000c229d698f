# SlothDB: a verified model of its aggregation engine

SlothDB answers GROUP BY queries with a set of fast, sharded aggregators: open-addressing tables, bounded tables that
spill, cached counter addresses, heavy and light union routes and bounded heaps. This project models those algorithms in
Dafny and proves that each returns exactly what the plain definition returns, for every input, every assignment of rows
to threads and every schedule of the workers. It also covers the parallel scan that feeds them and the supporting code
with a sharp meaning: glob matching, substring search, composite keys, the Arrow-style file format, the binder's
grouping check and FILTER rewrite, and two optimizer rewrites.

To verify: `dafny verify dfyconfig.toml`.

## How the files fit together

| files | what they hold |
|---|---|
| `GroupBy`, `Sharding` | the meaning of GROUP BY over a log of updates, and how shards split it |
| `ProbeTable`, `InlineRowAgg` | the open-addressing table with salted entries, and the engine built on it |
| `RadixMultiAgg`, `EnginesAgree` | the second engine (library map and flat arena), and the proof that both agree |
| `TopK` | bounded heaps and what a top-k list is |
| `HashCountThread`, `HashMerge`, `HashCount` | bounded table, arena and spill; the k-way merge over hash ranges; the aggregator |
| `StrIntRows`, `PairCount` | (int, string) pair counting through a cached counter address |
| `StrGroupDistinct`, `DistinctUnion`, `DistinctRoutes` | per-string distinct sets, their merge, and the agreement of both routes |
| `WorkPool`, `DistinctPool`, `IntGroupAgg` | the fetch-and-add work pool under every interleaving, and the aggregator that uses it |
| `DataTable`, `ParallelExecutor` | row groups, morsels, and the parallel filtered scan |
| `CompositeKey`, `CountGroupAgg` | the key codec and the COUNT group-by built on it |
| `FileGlob`, `SubstringSearch`, `TopKVarchar`, `ArrowIpc` | string matching, string counting, string top-k, file format |
| `GroupingCheck`, `GroupingGaps` | bound expressions, the grouping check, and the inputs on which it errs |
| `FilterRewrite`, `Optimizer` | the FILTER rewrite, constant folding, filter pushdown |
| `Bits`, `Seqs` | powers of two, masks and shifts; sequences, validity masks and sealed predicates |

Classes that the program updates in place are classes here. A ghost field records the rows a class has taken in, and
`Valid()` ties the real fields to what those rows mean. Hash functions are parameters, so every theorem holds for every
hash function; where the program relies on a hash without collisions, the theorem says "if and only if". Worker threads
are interleaved one atomic step at a time where they share a counter or a lock.

## Where the code and its promise part

- Glob: the literal comparison comes before the star test, so a `*` in the file name can use up a pattern's star.
  `FileGlob.RightOnString` and `FileGlob.RightForPattern` say exactly which strings and which patterns are safe.
- Grouping check: expression comparison ignores the polarity of IS NULL and the try flag of casts, so an ungrouped
  expression can be accepted (`GroupingGaps.PolarityIsMissed`, `GroupingGaps.TryIsMissed`);
  by `GroupingCheck.AcceptedSoundIffGrouped` this never matters if and only if everything the comparison takes for a key
  is grouped. The comparison has no case for IS TRUE, so a grouped expression can be rejected
  (`GroupingCheck.BoolTestIsRejected`); by `GroupingCheck.AllGroupedAccepted` this never happens if and only if the
  check accepts the keys themselves. `GroupingCheck.CheckIsExact` and `GroupingCheck.ComparableCheckIsExact` join the
  two.
- Filter pushdown: the comment at `src/optimizer/optimizer.cpp:156` states a guard on the projected columns that the
  code does not check (`Optimizer.PushdownCanBeWrong`). `Optimizer.PushdownIsExact` and
  `Optimizer.ViewPushdownIsExact` show that this guard is exactly what is needed.
- Spilled string counts: two strings with one hash are merged into one row. `HashCount.RadixHashCountStr.EmitTopK` and
  `HashCount.RadixHashCountStr.CountDistinctGroups` are exact by string if and only if no two counted strings collide,
  the former when k is not positive; for the k largest strings the absence of collisions is enough.
- Arrow reader: looking at the schema and then reading everything appends the column list twice
  (`ArrowIpc.WriteThenRead`), and so does reading everything and then asking for chunks, which then misplaces the rows
  whenever there is a column (`ArrowIpc.ReadAllThenChunks`, `ArrowIpc.TinyIsMisread`).

## Model

| member | source | states |
|---|---|---|
| `GroupBy.FoldIsGroupBy` | src/execution/inline_row_agg.cpp:107-156 | Absorbing rows one by one gives GROUP BY: a key is present exactly when some row has it, its count is the number of its rows, and every sum and non-null count is taken over its valid values only. |
| `GroupBy.FoldPermutation` | src/execution/inline_row_agg.cpp:107-156 | The groups do not depend on the order of the rows. |
| `GroupBy.FoldConcat` | src/execution/inline_row_agg.cpp:168-196 | Grouping two batches separately and adding the accumulators per key is grouping them together. |
| `Sharding.ShardMask` | src/execution/inline_row_agg.cpp:111 | And-ing the hash with one less than the shard count is the remainder by the shard count. |
| `Sharding.AllMerged` | src/execution/inline_row_agg.cpp:159-198 | If every shard has absorbed, thread by thread, its own rows once, the disjoint union of all shards is the GROUP BY of the whole run. |
| `Sharding.GroupsBelowKeys` | src/execution/inline_row_agg.cpp:111 | Keys of different shards never meet: every key of the shards below n hashes to a shard below n. |
| `ProbeLayout.EncodeRoundTrip` | src/execution/inline_row_agg.cpp:141-144 | A table word built from a salt and a row index is zero only for an empty slot and gives salt and row back. |
| `ProbeLayout.HomeOps` | src/execution/inline_row_agg.cpp:112-118 | Shifting off the shard bits and masking gives the home slot of a hash. |
| `ProbeLayout.EntryOps` | src/execution/inline_row_agg.cpp:141 | The or of the shifted salt and the row number plus one is exactly the entry word, no bits lost. |
| `ProbeLayout.StepOps` | src/execution/inline_row_agg.cpp:154 | Adding one and masking is the next slot around the table. |
| `ProbeLayout.InsertKeepsLayout` | src/execution/inline_row_agg.cpp:121-141 | Writing a new row into the first empty slot of its walk keeps the layout: each row in exactly one slot, tagged with its own salt, reachable from its home slot without crossing an empty one. |
| `ProbeLayout.EmptyEndsWalk` | src/execution/inline_row_agg.cpp:119-122 | A walk that meets an empty slot has already passed the slot of every row with that home, so an absent key is reported only when absent. |
| `ProbeLayout.SomeEmpty` | src/execution/inline_row_agg.cpp:119-155 | A table with more slots than rows has an empty slot, so probing ends. |
| `ProbeTable.ShardState.constructor` | src/execution/inline_row_agg.cpp:40 | A new shard is an empty, consistent table that holds no group. |
| `ProbeTable.ShardState.EnsureCapForOneInsert` | src/execution/inline_row_agg.cpp:42-44 | Afterwards the load is below three quarters; groups unchanged and the table invariant kept. |
| `ProbeTable.ShardState.Reserve` | src/execution/inline_row_agg.cpp:46-51 | Afterwards n rows and one insertion fit under the load bound, the table has not shrunk, and the shard still holds the groups of the same rows. |
| `ProbeTable.ShardState.Reinsert` | src/execution/inline_row_agg.cpp:57-62 | The linear walk of the rebuild ends at an empty slot where the row keeps the layout. |
| `ProbeTable.ShardState.Resize` | src/execution/inline_row_agg.cpp:53-65 | Rebuilding the table at another power of two keeps the full invariant and every group. |
| `ProbeTable.ShardState.Walk` | src/execution/inline_row_agg.cpp:119-155 | The probe loop terminates; it finds the key's own row if the key is present, and otherwise the first empty slot of the key's walk. |
| `ProbeTable.ShardState.Probe` | src/execution/inline_row_agg.cpp:118-155 | A key is found if and only if it has a row, and then at its row. |
| `ProbeTable.FirstInputs` | src/execution/inline_row_agg.cpp:128-140 | The accumulator of a new row is the contribution of the update: null inputs add nothing. |
| `ProbeTable.AddInputs` | src/execution/inline_row_agg.cpp:145-150 | The in-place update of a row adds the contribution of the update. |
| `ProbeTable.AddAccs` | src/execution/inline_row_agg.cpp:183-187 | The merge loop adds two accumulators aggregate by aggregate. |
| `ProbeTable.ShardState.Update` | src/execution/inline_row_agg.cpp:115-155 | One update keeps the table invariant, and the shard then holds the GROUP BY of the rows so far and this one. |
| `ProbeTable.ShardState.MergeFrom` | src/execution/inline_row_agg.cpp:168-196 | Merging another shard keeps the invariant, and the shard then holds the GROUP BY of both shards' rows. |
| `ProbeTable.ShardState.Groups` | src/execution/inline_row_agg.cpp:216-219 | The rows list every group of the shard exactly once. |
| `InlineRowAgg.InlineRowAgg.constructor` | src/execution/inline_row_agg.cpp:78-82 | All shards of all threads start with no group. |
| `InlineRowAgg.InlineRowAgg.Update` | src/execution/inline_row_agg.cpp:107-156 | Logs the row on its thread; every thread's shard holds the GROUP BY of the rows it took. |
| `InlineRowAgg.InlineRowAgg.MergeThreads` | src/execution/inline_row_agg.cpp:160-197 | After the loop over threads the final shard holds what it held and each thread's rows of that shard. |
| `InlineRowAgg.InlineRowAgg.MergeShard` | src/execution/inline_row_agg.cpp:159-198 | Adds exactly this shard's rows of all threads to the final shard and touches no other shard. |
| `InlineRowAgg.InlineRowAgg.EmitAll` | src/execution/inline_row_agg.cpp:212-222 | With no limit, every group of every final shard is listed exactly once. |
| `InlineRowAgg.InlineRowAgg.EmitTopK` | src/execution/inline_row_agg.cpp:202-251 | At most k groups, largest count first, none left out that has a larger count than one kept; all groups when k is not positive. |
| `InlineRowAgg.RunToGroups` | src/execution/inline_row_agg.cpp:107-198 | For any run of updates over any threads and any hash function, one merge per shard leaves exactly the GROUP BY of all updates. |
| `RadixMultiAgg.WriteInSlot` | src/execution/radix_multi_agg.cpp:51-57 | A write inside one slot of the flat arena changes that slot only. |
| `RadixMultiAgg.BumpSlot` | src/execution/radix_multi_agg.cpp:51-57 | Counting a row in place adds its contribution to its own slot; every other slot keeps its words. |
| `RadixMultiAgg.AddSlot` | src/execution/radix_multi_agg.cpp:126 | Adding a slot word by word adds the accumulators; every other slot keeps its words. |
| `RadixMultiAgg.UpdateShard` | src/execution/radix_multi_agg.cpp:37-58 | Map and arena together store the groups so far with this row absorbed. |
| `RadixMultiAgg.MergeShardInto` | src/execution/radix_multi_agg.cpp:111-128 | In whatever order the source map yields its keys, map and arena store the merge of the two shards' groups. |
| `RadixMultiAgg.RadixMultiAgg.Update` | src/execution/radix_multi_agg.cpp:90-97 | Logs the row on its thread and keeps every thread's shards storing the GROUP BY of their rows. |
| `RadixMultiAgg.RadixMultiAgg.MergeShard` | src/execution/radix_multi_agg.cpp:99-129 | Adds this shard's rows of all threads to the final shard and touches no other shard. |
| `RadixMultiAgg.RadixMultiAgg.EmitTopK` | src/execution/radix_multi_agg.cpp:132-196 | Handles in the bounded heap, materialised at the end, are a top-k of all groups by count; all groups when k is not positive. |
| `RadixMultiAgg.RunToGroups` | src/execution/radix_multi_agg.cpp:90-129 | For any run over any threads, one merge per shard leaves exactly the GROUP BY of all updates. |
| `EnginesAgree.RunBoth` | src/execution/radix_multi_agg.cpp:90-158 | Both engines, fed the same rows in any order on any threads with any hash functions, list the same groups: one entry per key with the exact count, sums and non-null counts. With a limit k both list as many groups, the k largest by row count, with the same count at every rank. |
| `TopK.SelectTopK` | src/execution/inline_row_agg.cpp:223-250 | The one-pass bounded-heap loop returns min(k, n) candidates, best first, and no candidate left out is strictly better than one kept. |
| `TopK.BoundedHeap.Offer` | src/execution/inline_row_agg.cpp:233-238 | After each offer the heap holds a top-k of everything offered so far. |
| `TopK.BoundedHeap.Drain` | src/execution/inline_row_agg.cpp:243-248 | Popping until empty yields exactly the kept entries, worst first. |
| `TopK.TopKOfTables` | src/execution/inline_row_agg.cpp:223-250 | Keeping handles instead of rows and materialising only the winners gives a top-k of the rows themselves. |
| `TopK.TopKUnique` | src/execution/inline_row_agg.cpp:223-250 | Any two top-k lists of the same candidates agree rank by rank up to ties. |
| `TopK.CombineTopK` | src/execution/radix_count_agg.cpp:677-701 | A top-k of the parts' top-k lists is a top-k of the union of the parts. |
| `HashCountThread.HistogramCountsRows` | src/execution/radix_count_agg.cpp:493-516 | Counting by dictionary entry and then ingesting each entry once gives every string the total that counting row by row gives, also when entries repeat. |
| `HashCountThread.SpillAppend` | src/execution/radix_count_agg.cpp:441-447 | The stored spill, whose offsets and lengths are cut to 32 bits, stays the cut of a spill in which every entry names its own key bytes; below 2^32 bytes the two are the same. |
| `HashCountThread.CopyIn` | src/execution/radix_count_agg.cpp:464-466 | The key bytes land behind the used part of the arena, which stays as it was. |
| `HashCountThread.ReadView` | src/execution/radix_count_agg.cpp:441-446 | A view into the arena reads back the key it was made for. |
| `HashCountThread.HcThread.Flush` | src/execution/radix_count_agg.cpp:438-449 | Empties table and arena; active counts plus spilled counts still account for everything counted. |
| `HashCountThread.HcThread.Ingest` | src/execution/radix_count_agg.cpp:452-468 | One more count of the key, whether it hits, inserts, or flushes first; the arena bound and the views stay right. |
| `HashCountThread.HcThread.CountIndices` | src/execution/radix_count_agg.cpp:495-510 | The reused scratch buffer ends up with the histogram of the valid in-range indices, whatever it held before. |
| `HashCountThread.HcThread.IngestDictRG` | src/execution/radix_count_agg.cpp:488-517 | Counts exactly the valid rows with an in-range, not skipped dictionary index. |
| `HashCountThread.HcThread.IngestPlainRG` | src/execution/radix_count_agg.cpp:519-530 | Counts exactly the valid rows, leaving out empty strings when asked. |
| `HashCountThread.HcThread.Finalize` | src/execution/radix_count_agg.cpp:541-552 | Nothing is left in the active table and the spill is sorted by hash, with nothing lost. |
| `HashMerge.LowerBound` | src/execution/radix_count_agg.cpp:594-597 | Everything before the position has a smaller hash, everything from it on has not. |
| `HashMerge.FindRange` | src/execution/radix_count_agg.cpp:590-598 | The cursors delimit, in every thread, exactly the entries whose hash is in the range. |
| `HashMerge.NextThread` | src/execution/radix_count_agg.cpp:625-634 | The thread whose next entry has the smallest hash, or none exactly when every range is used up. |
| `HashMerge.MergeStep` | src/execution/radix_count_agg.cpp:635-648 | Taking the smallest entry keeps the invariant: the groups so far are one per hash of what was passed, in rising order, with exact totals. |
| `HashMerge.MergeEnd` | src/execution/radix_count_agg.cpp:625-650 | When the cursors are used up the groups are exactly those of the hash range. |
| `HashMerge.MergeRange` | src/execution/radix_count_agg.cpp:588-654 | Merging a hash range gives one group per distinct hash with its exact total in rising order, or the k largest; totals do not depend on the cut of the offsets, and the strings are right if nothing was cut. |
| `HashCount.RangesRise` | src/execution/radix_count_agg.cpp:662-668 | Range bounds never fall, for every number of ranges. |
| `HashCount.OneMoreRange` | src/execution/radix_count_agg.cpp:661-668 | The groups of the first w ranges, put together, are the groups of the hashes below the next bound: no group is split and none is missed. |
| `HashCount.MergeRanges` | src/execution/radix_count_agg.cpp:661-675 | The partial lists are top-k lists of parts that together are one row per distinct hash. |
| `HashCount.CombinePartials` | src/execution/radix_count_agg.cpp:680-701 | The k largest of all partial lists, smallest first. |
| `HashCount.SameHashTotals` | src/execution/radix_count_agg.cpp:569-577 | Totals by hash depend only on the totals by string, not on how counts were split into entries. |
| `HashCount.GroupsListStrings` | src/execution/radix_count_agg.cpp:571-577 | The hash groups list each string exactly once with its exact count if and only if no two counted strings collide. |
| `HashCount.GroupsCountHashes` | src/execution/radix_count_agg.cpp:710-761 | The number of groups is the number of distinct hashes, and equals the number of distinct strings if and only if none collide. |
| `HashCount.RadixHashCountStr.constructor` | src/execution/radix_count_agg.cpp:472-484 | At least one thread; nothing counted. |
| `HashCount.RadixHashCountStr.IngestDictRG` | src/execution/radix_count_agg.cpp:488-517 | Counts the rows of a dictionary row group on any thread. |
| `HashCount.RadixHashCountStr.IngestPlainRG` | src/execution/radix_count_agg.cpp:519-530 | Counts the rows of a plain row group on any thread. |
| `HashCount.RadixHashCountStr.IngestKey` | src/execution/radix_count_agg.cpp:532-534 | Counts one key on any thread. |
| `HashCount.RadixHashCountStr.Finalize` | src/execution/radix_count_agg.cpp:536-567 | Every thread flushed and sorted, with everything counted kept. |
| `HashCount.RadixHashCountStr.EmitTopK` | src/execution/radix_count_agg.cpp:569-708 | One row per distinct hash with the exact total, in rising order of hash, or the k largest of them, however much was spilled. Unless a thread has spilled 4 GiB of key bytes the strings are right too: when k is not positive these are the strings with their exact counts if and only if no two counted strings collide; when k is positive they are the k largest strings if none collide. |
| `HashCount.RadixHashCountStr.CountDistinctGroups` | src/execution/radix_count_agg.cpp:710-761 | The number of distinct hashes, however much was spilled, which is the number of distinct strings if and only if none collide. |
| `HashCount.CountRanges` | src/execution/radix_count_agg.cpp:716-760 | Summing the group counts of P hash ranges gives the number of groups, for every P. |
| `HashCount.CountRun` | src/execution/radix_count_agg.cpp:488-567 | Wherever flushes fall and however rows are spread over threads, the finalized aggregator accounts for exactly the rows of the run, and a run with fewer than 2^32 key bytes spills less than 4 GiB on every thread. |
| `HashCount.CountTwice` | src/execution/radix_count_agg.cpp:488-761 | The same rows cut into other row groups and spread over another number of threads give the same number of rows and the same distinct count, and the same listing unless some thread has spilled 4 GiB of key bytes. |
| `PairCount.CounterMap.Add` | src/execution/radix_count_agg.cpp:1026-1029 | Incrementing through the cached address increments the counter of the pair the address was taken for. |
| `PairCount.CounterMap.Emplace` | src/execution/radix_count_agg.cpp:1043-1047 | A new key's counter may move the storage; the returned address is live for the new key. |
| `PairCount.PairThread.AddHashed` | src/execution/radix_count_agg.cpp:867-885 | Finds or enters the pair in the shard its hash names and returns its live counter. |
| `PairCount.PairThread.IncrementRow` | src/execution/radix_count_agg.cpp:853-885 | Adds one to the count of the pair. |
| `PairCount.PairThread.CountRow` | src/execution/radix_count_agg.cpp:1025-1051 | With the cached address or without, the row adds one to its pair, and the cache again addresses the live counter of the last counted pair. |
| `PairCount.PairThread.IngestDict` | src/execution/radix_count_agg.cpp:1004-1053 | Cache-last ingest counts the same as one increment per kept row: skipped rows, moving storage and repeated dictionary strings do not show. |
| `PairCount.PairThread.IngestPlain` | src/execution/radix_count_agg.cpp:1054-1063 | Counts the kept rows of a plain row group. |
| `PairCount.RadixCount2ColIntStr.Ingest` | src/execution/radix_count_agg.cpp:992-1064 | A row group on any thread adds its kept rows to that thread's counts. |
| `PairCount.AddInto` | src/execution/radix_count_agg.cpp:904-913 | Adding a map entry by entry, in any order, adds the counts per key. |
| `PairCount.RadixCount2ColIntStr.MergeShard` | src/execution/radix_count_agg.cpp:896-914 | The final map of the shard becomes the sum over threads of their counts of that shard's pairs; other shards stay. |
| `PairCount.MergedCounts` | src/execution/radix_count_agg.cpp:896-914 | A merged shard holds exactly the pairs of its hash class with their number of occurrences over all threads. |
| `PairCount.EmitTopKDistinctByStrKey` | src/execution/radix_count_agg.cpp:1297-1360 | Each string once with its number of distinct ints, or the k largest, largest first. |
| `PairCount.RunPairs` | src/execution/radix_count_agg.cpp:896-1064 | After any run over any threads the final maps count the rows of the run. |
| `StrIntRows.ListsDistinctAgree` | src/execution/radix_count_agg.cpp:1297-1332 | A listing of distinct counts is determined by the set of counted pairs, up to order. |
| `StrGroupDistinct.StrGroups.IngestDict` | src/execution/str_group_distinct.cpp:14-44 | The per-string sets gain exactly the kept (string, value) pairs. |
| `StrGroupDistinct.StrGroups.IngestDictSkip` | src/execution/str_group_distinct.cpp:75-120 | Same with one dictionary index dropped, although a row repeating the last counted index and value is skipped. |
| `StrGroupDistinct.StrGroups.IngestPlain` | src/execution/str_group_distinct.cpp:143-164 | Same for plain strings, looking the set up only when the string changes. |
| `DistinctUnion.Scatter` | src/execution/str_group_distinct.cpp:188-195 | Each value of a set lands in the bucket its hash names and nowhere else. |
| `DistinctUnion.UnionSize` | src/execution/str_group_distinct.cpp:176-184 | Moving the first set and merging the rest counts the union. |
| `DistinctUnion.UnionCountParallel` | src/execution/str_group_distinct.cpp:172-220 | The number of distinct values of all sets, for every worker count and every hash. |
| `StrGroupDistinct.IndexAll` | src/execution/str_group_distinct.cpp:234-240 | The index holds every string of any thread with the sets of the threads that have it. |
| `StrGroupDistinct.Route` | src/execution/str_group_distinct.cpp:251-260 | Every group goes down exactly one of the two routes. |
| `StrGroupDistinct.CountLight` | src/execution/str_group_distinct.cpp:270-296 | Strided workers, interleaved in any order, give each light group its union size although counting moves the sets away, and leave heavy results alone. |
| `StrGroupDistinct.CountGroups` | src/execution/str_group_distinct.cpp:250-297 | The number of distinct values of every group, whatever the routing, the worker count and the interleaving. |
| `StrGroupDistinct.MergeStrGroupIntDistinct` | src/execution/str_group_distinct.cpp:223-298 | One entry per string of any thread with its number of distinct ints over all threads. |
| `DistinctRoutes.RunSets` | src/execution/str_group_distinct.cpp:47-298 | After any run over any threads the set route lists each string of the kept rows once with its distinct count. |
| `DistinctRoutes.BothRoutes` | src/execution/str_group_distinct.cpp:47-298 | The set route and the pair-count route give the same listing for the same kept pairs, whatever the threads, the row groups, the worker count and the hashes. |
| `WorkPool.WorkPool.Step` | src/execution/int_group_agg.cpp:234-257 | Whichever worker the scheduler picks, a step claims the next number or runs the held task; no task is run twice, and the steps left fall. |
| `WorkPool.WorkPool.AllRan` | src/execution/int_group_agg.cpp:234-262 | When every worker has stopped, every task has been run exactly once. |
| `DistinctPool.Route` | src/execution/int_group_agg.cpp:173-183 | Heavy groups and their positions are inverse to each other; every other group is light. |
| `DistinctPool.RunScatter` | src/execution/int_group_agg.cpp:186-220 | Under every interleaving of the workers each source set of each heavy group is scattered by value hash. |
| `DistinctPool.RunTasks` | src/execution/int_group_agg.cpp:222-263 | Under every interleaving each light group has its union size and each heavy bucket its part, although light tasks move sets away. |
| `DistinctPool.PoolCounts` | src/execution/int_group_agg.cpp:160-270 | The number of distinct values of every group: the routing, the worker count and the schedule do not show. |
| `IntGroupAgg.ValuesOfIs` | src/execution/int_group_agg.cpp:106-113 | The set behind COUNT(DISTINCT) holds a value if and only if some row of the group has it as a non-null input. |
| `IntGroupAgg.IntGroupThread.SlotFor` | src/execution/int_group_agg.cpp:83-96 | A key keeps the slot it got first; a new key gets the next slot with empty accumulators. |
| `IntGroupAgg.IntGroupThread.AddRow` | src/execution/int_group_agg.cpp:83-112 | Adds one row to the accumulators of its group, by aggregate kind, and to no other. |
| `IntGroupAgg.IntGroupThread.ConsumeRG` | src/execution/int_group_agg.cpp:69-114 | Counts exactly the rows with a non-null, non-negative key. |
| `IntGroupAgg.IntGroupAgg.ConsumeRG` | src/execution/int_group_agg.cpp:69-114 | Same on any thread. |
| `IntGroupAgg.IndexRegions` | src/execution/int_group_agg.cpp:123-131 | Every key of any thread gets exactly one position. |
| `IntGroupAgg.IntGroupAgg.SimpleAggregates` | src/execution/int_group_agg.cpp:139-152 | COUNT(*), SUM and non-null counts over all threads. |
| `IntGroupAgg.IntGroupAgg.DistinctCounts` | src/execution/int_group_agg.cpp:160-270 | The distinct count of every group for one COUNT(DISTINCT) aggregate. |
| `IntGroupAgg.IntGroupAgg.MergeAll` | src/execution/int_group_agg.cpp:116-277 | One group per non-null, non-negative key with exact COUNT(*), SUM, non-null count and COUNT(DISTINCT), for every spread over threads and every schedule of the pool. |
| `IntGroupAgg.GroupsAgree` | src/execution/int_group_agg.cpp:116-277 | The same rows on other threads or in another order give the same groups. |
| `FileGlob.Match` | src/common/file_glob.cpp:15-32 | Terminates by a lexicographic measure and, for a string without '*', answers whether the pattern matches it. |
| `FileGlob.GreedyExact` | src/common/file_glob.cpp:15-32 | Backtracking only to the last star decides the declarative meaning for every pattern and every string without '*'. |
| `FileGlob.AccountsStar` | src/common/file_glob.cpp:22-23 | Once a later star is reached, giving up the earlier star's other starts loses no match. |
| `FileGlob.RightOnString` | src/common/file_glob.cpp:20-23 | The loop is right on a string for every pattern if and only if the string has no '*': the literal test comes before the star test. |
| `FileGlob.RightForPattern` | src/common/file_glob.cpp:20-23 | The loop is right for a pattern on every string if and only if the pattern has no '*'. |
| `DataTable.DataTable.Append` | src/storage/data_table.cpp:10-26 | The rows of the table are the old rows followed by the chunk, across row-group boundaries. |
| `DataTable.DataTable.AppendRowGroups` | src/storage/data_table.cpp:28-36 | The non-empty groups are spliced on in order, and start rows stay right. |
| `DataTable.DataTable.Scan` | src/storage/data_table.cpp:42-61 | Returns the next rows of the table, at most a vector of them, and none only at the end. |
| `DataTable.DataTable.ScanAll` | src/storage/data_table.cpp:42-61 | Repeated scanning yields the rows of the table, each once, in order. |
| `DataTable.DataTable.InitParallelScan` | src/storage/data_table.cpp:63-73 | The number of morsels of the table. |
| `DataTable.DataTable.ReadMorsel` | src/storage/data_table.cpp:77-96 | A claimed number reads the morsel with that number, or nothing past the end. |
| `DataTable.MorselsFlatten` | src/storage/data_table.cpp:63-98 | The morsels are pieces of the table that put together give every row once. |
| `ParallelExecutor.Collector.AddChunk` | src/execution/parallel_executor.cpp:6-15 | Appends every row of the chunk. |
| `ParallelExecutor.FilterChunk` | src/execution/parallel_executor.cpp:54-74 | Keeps exactly the rows on which the filter is valid and true. |
| `ParallelExecutor.FilterThenProject` | src/execution/parallel_executor.cpp:54-88 | Filtering a chunk and then projecting column by column is the query on that chunk. |
| `ParallelExecutor.WorkerStep` | src/execution/parallel_executor.cpp:48-90 | Any step of any worker keeps: rows collected plus rows still to come are the query's rows. |
| `ParallelExecutor.ParallelScanFilter` | src/execution/parallel_executor.cpp:25-99 | Under every interleaving of the workers the collected rows are, as a multiset, the projections of the table rows that pass the filter. |
| `CompositeKey.LEInverse` | src/execution/count_group_agg.cpp:22-25 | A number is recovered from its little-endian bytes. |
| `CompositeKey.RawInverse` | src/execution/count_group_agg.cpp:96-103 | Every fixed-width scalar, signed or not, is recovered from its bytes. |
| `CompositeKey.RawHugeInverse` | src/execution/count_group_agg.cpp:77-79 | A 128-bit integer is recovered from its two halves. |
| `CompositeKey.DecodesCell` | src/execution/count_group_agg.cpp:32-137 | Wherever an encoded cell stands in a key, decoding gives its value (TIMESTAMP_TZ as TIMESTAMP) and stops right after it. |
| `CompositeKey.DecodeRow` | src/execution/count_group_agg.cpp:188-192 | Decoding a stored key cell by cell gives every cell of the row back. |
| `CompositeKey.SameRow` | src/execution/count_group_agg.cpp:27-31 | Prefix-free: if two encoded rows of the same types start two equal byte strings, the rows and the rests are equal. |
| `CompositeKey.KeyIdentifiesRow` | src/execution/count_group_agg.cpp:27-31 | Equal keys if and only if equal rows. |
| `CountGroupAgg.BuildKey` | src/execution/count_group_agg.cpp:169-173 | The reused buffer holds the concatenated encodings of the group columns. |
| `CountGroupAgg.CountRow` | src/execution/count_group_agg.cpp:174-177 | A new group starts at one, a known one goes up; ordinals follow first appearance and are cut to 32 bits, which loses nothing up to 2^32 groups. |
| `CountGroupAgg.CountAll` | src/execution/count_group_agg.cpp:156-179 | Map and counters number the groups by first appearance and hold their exact row counts. |
| `CountGroupAgg.InvertKeys` | src/execution/count_group_agg.cpp:183-184 | Every ordinal gets the key of its group. |
| `CountGroupAgg.Choose` | src/execution/count_group_agg.cpp:200-220 | All ordinals in order of appearance, or, when the limit bites, the extreme counts, best first. |
| `CountGroupAgg.RunCountGroupAggregate` | src/execution/count_group_agg.cpp:141-227 | With fewer than 2^32 groups, every emitted row is a distinct group's decoded values with its exact row count: all groups in order of first appearance, or the extreme ones under an order by count with a limit. |
| `CountGroupAgg.FirstSeenDistinct` | src/execution/count_group_agg.cpp:174-177 | The groups in order of first appearance are the groups that occur, each once. |
| `CountGroupAgg.CountsAddUp` | src/execution/count_group_agg.cpp:166-179 | The counts of all groups add up to the number of rows. |
| `GroupingCheck.GroupedIsSound` | src/binder/binder.cpp:2133-2192 | Whatever the operators and functions mean, a grouped expression has equal values on any two rows that agree on the keys. |
| `GroupingCheck.UngroupedDiffers` | src/binder/binder.cpp:2133-2192 | An expression that is not grouped takes two values within one group under some meaning of the operators. |
| `GroupingCheck.GroupedIsExact` | src/binder/binder.cpp:2133-2192 | Being grouped is exactly having one value per group under every meaning of the operators. |
| `GroupingCheck.EqualIsSame` | src/binder/binder.cpp:2074-2131 | With IS NULL of one polarity, casts of one try setting, one aggregate flag per name and constants in one form (no negative zero, untyped null), expressions the binder takes for equal are equal, provided the second is free of aggregates, as keys are. |
| `GroupingCheck.AllGroupedAccepted` | src/binder/binder.cpp:2133-2192 | The check accepts every expression that is grouped by exact equality if and only if it accepts each of the keys. |
| `GroupingCheck.CheckIsExact` | src/binder/binder.cpp:2133-2192 | In the setting of EqualIsSame, with keys that are themselves accepted, the check accepts an expression if and only if it has one value per group under every meaning of the operators. |
| `GroupingCheck.ComparableCheckIsExact` | src/binder/binder.cpp:2074-2192 | In particular the check is exact in that setting when the comparison has a case for every part of every key. |
| `GroupingCheck.AllAcceptedGrouped` | src/binder/binder.cpp:2074-2192 | Everything the check accepts is grouped by exact equality if and only if everything the comparison takes for a key is. |
| `GroupingCheck.AcceptedSoundIffGrouped` | src/binder/binder.cpp:2074-2192 | Every accepted expression has one value per group under every meaning of the operators if and only if everything the comparison takes for a key is grouped by exact equality. |
| `GroupingGaps.PolarityIsMissed` | src/binder/binder.cpp:2104-2106 | Under SQL's own CASE and IS NULL: grouped by CASE WHEN x IS NULL THEN y END, the same CASE over IS NOT NULL is accepted, and on the rows (1, 1) and (1, 2) it takes two values within one group. |
| `GroupingGaps.TryIsMissed` | src/binder/binder.cpp:2110-2115 | Grouped by TRY_CAST(x), CAST(x) is accepted; for a null and for any value that does not convert the key is null, and the cast is null for one and raises for the other. |
| `GroupingCheck.BoolTestIsRejected` | src/binder/binder.cpp:2128-2129 | An IS TRUE expression is rejected even when it is itself the key, since the comparison has no case for it. |
| `FilterRewrite.FilterPreserved` | src/binder/binder.cpp:1808-1815 | Aggregating CASE WHEN c THEN arg END over all rows equals aggregating arg over the rows where c is true, for SUM, COUNT, AVG, and MIN and MAX under any order of the values, for every three-valued c and every placement of nulls. |
| `FilterRewrite.CountStarPreserved` | src/binder/binder.cpp:1801-1807 | COUNT(CASE WHEN c THEN 1 END) counts the rows where c is true. |
| `FilterRewrite.IgnoresNulls` | src/binder/binder.cpp:1787-1791 | The five aggregates depend only on the non-null inputs, whatever order MIN and MAX use. |
| `Optimizer.ConstantValue` | src/optimizer/optimizer.cpp:40-78 | What the optimizer takes for constant has one value on all rows. |
| `Optimizer.FoldingPreservesRows` | src/optimizer/optimizer.cpp:80-115 | Constant folding changes no row of any plan on any tables. |
| `Optimizer.DependsOnColumns` | src/optimizer/optimizer.cpp:122-146 | A condition the pushdown accepts depends only on the columns it reads. |
| `Optimizer.PushdownPreservesRows` | src/optimizer/optimizer.cpp:148-187 | Pushdown changes no row of a plan in which each filter that will meet a projection, under filters that are pushed themselves, reads only columns that projection passes through at the same index. |
| `Optimizer.PushdownIsExact` | src/optimizer/optimizer.cpp:171-182 | Swapping a filter with a projection gives the same rows for every input and every meaning of the operators if and only if the projection passes each column the filter reads through at the same index: the guard the code lacks. |
| `Optimizer.ViewPushdownIsExact` | src/optimizer/optimizer.cpp:148-187 | For a filter over a projection of a table, the rewritten plan returns the same rows on all tables if and only if the plan meets that guard. |
| `Optimizer.EqualityPushdownIsExact` | src/optimizer/optimizer.cpp:171-182 | Under one fixed meaning with a true equality: pushing every filter "column i = v" down is right for all rows if and only if the projection returns column i unchanged. |
| `Optimizer.PushdownCanBeWrong` | src/optimizer/optimizer.cpp:154-182 | A filter over a projection of column plus one loses its row when pushed down: the code does not check the projection. |
| `SubstringSearch.LoadInjective` | src/execution/substring_search.cpp:35-40 | Equal little-endian words are equal bytes. |
| `SubstringSearch.LowByte` | src/execution/substring_search.cpp:45 | The low byte of the word is the needle's first byte. |
| `SubstringSearch.FindSubstrLocal` | src/execution/substring_search.cpp:11-26 | The first occurrence, or none exactly when there is none. |
| `SubstringSearch.ContainsWord` | src/execution/substring_search.cpp:42-54 | One word comparison per candidate decides occurrence of a 4- or 8-byte needle. |
| `SubstringSearch.ContainsWordAndTail` | src/execution/substring_search.cpp:56-73 | A word and a tail comparison decide occurrence of a 5- to 7-byte needle. |
| `SubstringSearch.Contains` | src/execution/substring_search.cpp:135-185 | The search the needle's length selects decides occurrence. |
| `SubstringSearch.CountPlainLikeContains` | src/execution/substring_search.cpp:121-187 | The number of rows whose containing the needle differs from the negation, for every needle length. |
| `SubstringSearch.CountDictLikeContains` | src/execution/substring_search.cpp:89-119 | The same number for the decoded column, one search per dictionary entry. |
| `TopKVarchar.MarkUsed` | src/execution/topk_varchar.cpp:56-68 | An entry is marked if and only if some valid row has its index. |
| `TopKVarchar.TopKVarcharFromDictUsed` | src/execution/topk_varchar.cpp:9-41 | The k best marked entries other than the skipped one, best first; nothing without marks. |
| `TopKVarchar.TopKVarcharFromDict` | src/execution/topk_varchar.cpp:43-102 | The k best entries that valid rows use, other than the skipped one, best first. |
| `TopKVarchar.TopKIsOneList` | src/execution/topk_varchar.cpp:22-40 | The byte order is total, so the top-k is one list, whatever the heap does with ties. |
| `TopKVarchar.BothWays` | src/execution/topk_varchar.cpp:9-102 | On the marks the first function computes, both functions return the same list. |
| `ArrowIpc.DigitsInverse` | src/storage/arrow_ipc.cpp:165-168 | A number is recovered from its decimal digits. |
| `ArrowIpc.ParsesDecimal` | src/storage/arrow_ipc.cpp:164-168 | Parsing the written text of an integer in range gives it back, minus sign included. |
| `ArrowIpc.CellComesBack` | src/storage/arrow_ipc.cpp:159-178 | Both conversions, to a value and into a typed vector, give a written cell back. |
| `ArrowIpc.ArrowIPCWriter.WriteBatch` | src/storage/arrow_ipc.cpp:49-51 | Keeps the batch behind the earlier ones. |
| `ArrowIpc.ArrowIPCWriter.Finish` | src/storage/arrow_ipc.cpp:53-97 | The bytes written are magic, schema, row count, all rows of all batches padded with nulls, magic. |
| `ArrowIpc.ReadsSchema` | src/storage/arrow_ipc.cpp:114-138 | The schema reader gets the written names and types and stops at the row count. |
| `ArrowIpc.ReadsBody` | src/storage/arrow_ipc.cpp:146-182 | The row reader gets the written cells of every row. |
| `ArrowIpc.SkipsWhatItReads` | src/storage/arrow_ipc.cpp:241-249 | Skipping the schema entries stops where reading them stops. |
| `ArrowIpc.ArrowIPCReader.Parse` | src/storage/arrow_ipc.cpp:105-183 | Reads schema and converted rows once; the error cases are exactly the unreadable headers. |
| `ArrowIpc.ArrowIPCReader.ReadAll` | src/storage/arrow_ipc.cpp:189-192 | Parses at most once and returns the rows. |
| `ArrowIpc.ArrowIPCReader.DetectSchemaLight` | src/storage/arrow_ipc.cpp:196-229 | Appends the schema once, or fails exactly when it cannot be read. |
| `ArrowIpc.ArrowIPCReader.ReadIntoChunks` | src/storage/arrow_ipc.cpp:233-367 | Succeeds exactly when the rows can be streamed; the chunks are then the converted rows in order, full except perhaps the last. |
| `ArrowIpc.ArrowIPCReader.FillChunks` | src/storage/arrow_ipc.cpp:283-366 | The flush loop loses no row and keeps the order; no chunk is empty and only the last may be short. |
| `ArrowIpc.ReadAllThenChunks` | src/storage/arrow_ipc.cpp:233-256 | A reader that has read everything and is then asked for chunks has its columns twice, and the chunk reader finds the row count if and only if there are no columns; then the chunks are right. |
| `ArrowIpc.TinyIsMisread` | src/storage/arrow_ipc.cpp:233-260 | On the file of one unnamed text column and no rows, such a reader takes bytes of the closing magic for a row count out of range. |
| `ArrowIpc.WriteThenRead` | src/storage/arrow_ipc.cpp:53-367 | Write then read is the identity on names, types and rows (short rows padded with nulls), for both readers, each fresh or after a look at the schema; reading everything after that look doubles the names exactly when there are any. |

## Left out

- ProbeTable.ShardState.Update: requires fewer than 2^32 rows, because row indices are 32 bits wide in the program and
  wrap beyond that.
- InlineRowAgg.RunToGroups: requires fewer than 2^32 updates, for the same reason.
- RadixMultiAgg.RunToGroups: requires fewer than 2^32 updates, because slot indices are 32 bits wide.
- EnginesAgree.RunBoth: requires fewer than 2^32 updates in either run.
- HashCountThread.HcThread.Ingest: requires a key of at most 4 MiB, the size of the fixed arena.
- HashCount.RadixHashCountStr.EmitTopK: promises the strings only while no thread has spilled 4 GiB of key bytes,
  because cut offsets name wrong bytes beyond that; rows and totals are right in any case.
- StrGroupDistinct.StrGroups.IngestDictSkip: requires at most 2^32 - 1 dictionary entries, so that no entry has the
  index the program uses for "no previous row".
- IntGroupAgg.IntGroupAgg.MergeAll: leaves the threads' sets as they are, where the program moves light ones into the
  unions, so a second merge is right here and not in the program.
- StrGroupDistinct.MergeStrGroupIntDistinct: leaves the threads' sets as they are, for one merge, in the same way.
- IntGroupAgg.IntGroupAgg.ConsumeRG: requires keys below 2^31, the range of the program's 32-bit keys.
- CountGroupAgg.RunCountGroupAggregate: requires fewer than 2^32 groups, because ordinals are 32 bits wide; a column
  type the codec does not encode is not modelled, and the planner sends no such column here.
- SubstringSearch.CountDictLikeContains: requires every index to be in range, because the program reads past its match
  buffer otherwise.
- GroupingCheck.CheckIsExact: covers the deterministic expressions without windows and subqueries; a cast's target is
  its type id only, as in the program's comparison.
- FilterRewrite.FilterPreserved: covers one-argument aggregates; the program rejects FILTER with more arguments.
- Optimizer.EqualityPushdownIsExact: covers "column i = v" filters in one fixed meaning; PushdownIsExact covers every
  condition the pushdown accepts.
- Optimizer.PushdownPreservesRows: plans are values and are rebuilt rather than rewritten in place, and the list of
  applied optimizations is not modelled.
- ArrowIpc.ArrowIPCReader.Parse: a file that ends inside a row is reported as truncated, where the program goes on with
  stale bytes; a file is a byte sequence, and opening it always succeeds.
- ArrowIpc.ArrowIPCReader.DetectSchemaLight: a missing type byte of the last column is reported as corrupt, where the
  program does not notice it.
- ArrowIpc.ArrowIPCReader.ReadIntoChunks: asking for more columns than the file has is reported instead of returning
  default cells.
- ArrowIpc.WriteThenRead: covers NULL, BOOLEAN, INTEGER, BIGINT and VARCHAR cells; FLOAT and DOUBLE cells keep their
  text, since number formatting is not part of this model.
- Sums are unbounded integers: wrap-around and the rounding of SUM over doubles are not modelled.
- `std::vector` fields, the table and rows of the probe table among them, are sequences that methods reassign; growth
  and aliasing of their storage are modelled only for the key arena and the counter storage, where cached addresses
  matter.
- Library maps and sets (`third_party/unordered_dense.h`, `std::unordered_map`, SimpleI64Set) are Dafny maps and sets
  whose iteration order is arbitrary; a set moved away is left with arbitrary content.
- The `BigKey` twins (`src/execution/inline_row_agg.cpp:262-512`, `src/execution/radix_multi_agg.cpp:205-402`) run the
  same code on a two-word key; the engines here take any key type.
- `RadixCountAgg`, `RadixCountAggStr`, and `EmitTopK`, `EmitFirstK` and bulk deltas of the pair counter: simpler members
  of the same families.
- The 64-bit mixing of int and string hashes is a parameter; the arena chunks behind pair keys are values.
- Threads that write disjoint memory (per-thread sorts, per-range merges, the scatter and unite workers of the heavy
  string route) run one after the other; workers that share a counter or a lock are interleaved.
- `ReserveExpectedRows`, prefetching, profiling timers and capacity heuristics: no effect on results, except that
  Reserve and Resize keep the table invariant, which is proved.
- Column pruning, top-N fusion, the rest of the binder, expression evaluation, catalog, file listing, thread pool
  internals, extensions, language wrappers and the assistant: not part of this model.
