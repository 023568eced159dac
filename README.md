# Sharded query executor, modelled in Dafny

This project models `ShardingQueryable<T>`, the read side of the sharding layer in the
Coldairarrow data repository. A logical table is split over several physical tables (shards).
A `ShardingQueryable` holds one deferred LINQ query over the logical table. The builder calls
(`Where`, `OrderBy`, `OrderByDescending`, the string `OrderBy`, `Skip`, `Take`) refine that
query. Each terminal call (`Count`, `Sum`, `Average`, `Max`, `Min`, `Any`, `FirstOrDefault`,
`ToList`, `GetPagination`) rebinds the query to every shard, runs it there, and merges the
per-shard answers in memory.

The model has seven modules:

- `Wrappers`: `Option`, `Result`, and the two exceptions the merge can raise (an empty
  sequence for `Max`/`Min`, a division by zero for `Average`).
- `Seqs`: LINQ `Take`/`Skip` on sequences and the concatenation of shard lists.
- `Sorting`: the one-key ordering a query carries. LINQ's stable sort and the stable merge
  are used to prove that re-sorting the gathered rows equals sorting the whole table.
- `Queries`: the query as a value (`QuerySpec`: filters, ordering, skip, take), and
  `Evaluate`, what it yields on one table.
- `ResultMerger`: what each access lambda computes on one shard, and how the shard results
  are combined.
- `Fanout`: every terminal call as a function of the query and the list of shards, plus the
  theorems relating it to running the same query on the one unpartitioned table.
- `Sharding`: the imperative layer. It has the classes `ShardingQueryable`, `Repository`,
  `DistributedTransaction` and `Pagination`. Builder methods overwrite the stored query.
  The `GetStatisData` loop visits the shards in order. `ToList` opens one repository per
  shard, then either registers it with an open distributed transaction or disposes it
  after the query.

The shards are a parameter (`shards: seq<seq<T>>`, the rows of each physical table in the
order the sharding configuration lists them). Query results are stated against `Evaluate`
on each shard and against `Evaluate` on `Concat(shards)`, the unpartitioned table.

Where the code's answer differs from what the same query yields on the one logical table, the
model follows the code:

- The aggregate calls (`Count`, `Sum`, `Average`, `Max`, `Min`, `Any`, `FirstOrDefault`)
  send the stored query to every shard with its skip and take still in place. The theorems
  about the whole table therefore assume an unpaged query (`Unpaged`). Without it the
  methods' first `ensures` gives the exact per-shard result.
- `Average` divides by the sum of the shard row counts `x.Count()`. Rows whose column is
  null are counted but add nothing to the sum. No matching row at all makes the decimal
  division throw.
- `Max`/`Min` over a non-nullable column throw as soon as one shard has no matching row, even
  when other shards do. The extremum over the union is only returned when every shard
  contributes. Over a nullable column (`MaxOrNull`/`MinOrNull`) a shard without a value answers
  null instead, the merge skips the nulls, and the result is the extremum over the whole table,
  or null when no matching row has a value.
- `Sum` merges with `Sum(x => (decimal?)x)`, which skips nulls. The result is 0, never null,
  when no row has a value.
- `FirstOrDefault` returns the first row of the first shard that has one. When the query is
  ordered, that is not in general the first row of the whole table in that order.
- `Skip` and `Take` store their counts as written. `ToList` caps every shard at
  `take + skip`, then skips and takes in memory, where LINQ reads a negative count as 0. With a
  negative skip and a positive take the cap is smaller than the window: `Skip(-2).Take(3)` on
  one shard `[1, 2, 3, 4]` returns `[1]`, where the same query on the table yields `[1, 2, 3]`
  (`NegativeSkipExample`). The table-level theorem for `ToList` holds whenever the cap covers
  the window (`CapCoversWindow`).
- `GetPagination` counts with the query as it stands before paging. It then overwrites the
  ordering and sets skip `(PageIndex - 1) * PageRows` and take `PageRows`. From `PageIndex` 1 on
  the page is the page of the whole table. A `PageIndex` below 1 gives an empty page. With a
  positive `PageRows` the skip is negative and every shard is capped at `PageIndex * PageRows`
  rows, which is 0 or less. With a `PageRows` of 0 or less the take itself is 0 or less.

## Model

| member | source | states |
|---|---|---|
| Sharding.ShardingQueryable.constructor | src/Coldairarrow.DataRepository/Sharding/ShardingIQueryable.T.cs:16-22 | a new queryable holds the given query and transaction and the logical table's name, which the code takes from the name of the query's element type (l.19-20) and the model receives as a parameter |
| Sharding.DistributedTransaction.constructor | src/Coldairarrow.DataRepository/Sharding/ShardingIQueryable.T.cs:28-29 | a new transaction has the given open flag and no registered repositories |
| Sharding.Repository.constructor | src/Coldairarrow.DataRepository/Sharding/ShardingIQueryable.T.cs:192 | a repository obtained for a table is bound to that table and not yet disposed |
| Sharding.Pagination.constructor | src/Coldairarrow.DataRepository/Sharding/ShardingIQueryable.T.cs:231-236 | a page request holds the page index, page size, sort column and direction it was made with, and a total of 0 until GetPagination sets it |
| Sharding.ShardingQueryable.Where | src/Coldairarrow.DataRepository/Sharding/ShardingIQueryable.T.cs:120-125 | the stored query gains the predicate as one more conjunctive filter; the rest is unchanged; the same object is returned for chaining |
| Queries.WithFilterSatisfies | src/Coldairarrow.DataRepository/Sharding/ShardingIQueryable.T.cs:120-125 | a row passes the refined filters iff it passes the old ones and the new predicate |
| Sharding.ShardingQueryable.OrderBy | src/Coldairarrow.DataRepository/Sharding/ShardingIQueryable.T.cs:132-137 | the stored query is ordered ascending by the key; filters, skip and take are unchanged |
| Sharding.ShardingQueryable.OrderByDescending | src/Coldairarrow.DataRepository/Sharding/ShardingIQueryable.T.cs:138-143 | the stored query is ordered descending by the key; filters, skip and take are unchanged |
| Sharding.ShardingQueryable.OrderByColumn | src/Coldairarrow.DataRepository/Sharding/ShardingIQueryable.T.cs:144-149 | the "column direction" ordering replaces the stored ordering |
| Sharding.ShardingQueryable.Skip | src/Coldairarrow.DataRepository/Sharding/ShardingIQueryable.T.cs:150-155 | the stored query's skip becomes the count as written, negative counts included; filters, ordering and take are unchanged |
| Sharding.ShardingQueryable.Take | src/Coldairarrow.DataRepository/Sharding/ShardingIQueryable.T.cs:156-161 | the stored query's take becomes the count as written, negative counts included; filters, ordering and skip are unchanged |
| Queries.Matching | src/Coldairarrow.DataRepository/Sharding/ShardingIQueryable.T.cs:120-125 | every row kept passes every filter and occurs in the input at least as often; every input row passing the filters is kept (the exact multiplicities are MatchingCounts) |
| Queries.MatchingCounts | src/Coldairarrow.DataRepository/Sharding/ShardingIQueryable.T.cs:120-125 | for every row of the table, the filtered rows hold it exactly as often as the table does when it passes every filter, and not at all otherwise |
| Queries.MatchingAppend | src/Coldairarrow.DataRepository/Sharding/ShardingIQueryable.T.cs:48 | filtering the concatenation of two tables is concatenating the filtered tables, so a filter can be pushed down to each shard |
| Queries.Window | src/Coldairarrow.DataRepository/Sharding/ShardingIQueryable.T.cs:212-215 | Skip then Take yields the rows at positions skip, skip+1, ... of the input, a negative count acting as 0; exactly take rows when the input reaches that far, the remaining rows when fewer remain, none when the skip is past the end |
| Queries.EvaluateRows | src/Coldairarrow.DataRepository/Sharding/ShardingIQueryable.T.cs:48 | a query run on one table yields rows of that table, no row more often than the table holds it, each passing every filter, sorted when the query is ordered, and at most take of them |
| Queries.UnpagedEvaluate | src/Coldairarrow.DataRepository/Sharding/ShardingIQueryable.T.cs:178-183 | a query without skip and take yields all matching rows, in its order |
| Sharding.ShardingQueryable.GetStatisData | src/Coldairarrow.DataRepository/Sharding/ShardingIQueryable.T.cs:37-56 | the result has one entry per shard, in shard order: the access function applied to the given query (or the stored one) run on that shard |
| Sharding.ShardingQueryable.Count | src/Coldairarrow.DataRepository/Sharding/ShardingIQueryable.T.cs:162-165 | the count is the sum of the shard counts and, for an unpaged query, the number of matching rows of the whole table |
| Fanout.CountAllIsTableCount | src/Coldairarrow.DataRepository/Sharding/ShardingIQueryable.T.cs:162-165 | for every shard list, the summed shard counts of an unpaged query equal the matching-row count of the concatenated table |
| Fanout.CountExample | src/Coldairarrow.DataRepository/Sharding/ShardingIQueryable.T.cs:164 | shards of 5, 0 and 7 rows count 12 |
| Sharding.ShardingQueryable.Sum | src/Coldairarrow.DataRepository/Sharding/ShardingIQueryable.T.cs:331-338 | the sum merges the shard sums, null shard sums adding nothing; for an unpaged query it is the sum over the matching rows of the whole table |
| ResultMerger.SumNonNull | src/Coldairarrow.DataRepository/Sharding/ShardingIQueryable.T.cs:113 | the merged sum is the sum of the non-null shard sums |
| Fanout.SumAllIsTableSum | src/Coldairarrow.DataRepository/Sharding/ShardingIQueryable.T.cs:111-114 | for every shard list, the merged shard sums of an unpaged query equal the null-skipping sum over the concatenated table |
| Sharding.ShardingQueryable.Average | src/Coldairarrow.DataRepository/Sharding/ShardingIQueryable.T.cs:271-274 | the average merges the per-shard count and sum pairs; for an unpaged query it is the table sum over the table row count, and a division-by-zero error when no row matches |
| ResultMerger.AverageMerge | src/Coldairarrow.DataRepository/Sharding/ShardingIQueryable.T.cs:93-97 | merging count and sum pairs fails with DivideByZero exactly when the counts add up to 0, and otherwise gives the value that times the total count is the total sum |
| Fanout.AverageTotals | src/Coldairarrow.DataRepository/Sharding/ShardingIQueryable.T.cs:92-95 | the summed shard counts and shard sums of an unpaged query are the count and the sum of the whole table |
| Fanout.AverageAllIsWeightedMean | src/Coldairarrow.DataRepository/Sharding/ShardingIQueryable.T.cs:90-98 | the merged average is the weighted mean over the whole table, not a mean of shard means; zero matching rows give DivideByZero |
| Fanout.AverageOfSpreadRows | src/Coldairarrow.DataRepository/Sharding/ShardingIQueryable.T.cs:90-98 | rows 10, 0, 0, 0 average to 2.5 however they are spread over the shards |
| Fanout.AverageWeightedExample | src/Coldairarrow.DataRepository/Sharding/ShardingIQueryable.T.cs:90-98 | shards [10] and [0, 0, 0] average to 2.5 |
| ResultMerger.Largest | src/Coldairarrow.DataRepository/Sharding/ShardingIQueryable.T.cs:247 | Enumerable.Max fails exactly on an empty list, otherwise returns an element no smaller than any other |
| ResultMerger.Smallest | src/Coldairarrow.DataRepository/Sharding/ShardingIQueryable.T.cs:258 | Enumerable.Min fails exactly on an empty list, otherwise returns an element no larger than any other |
| ResultMerger.Collect | src/Coldairarrow.DataRepository/Sharding/ShardingIQueryable.T.cs:53-55 | the shard results come back as a list iff every shard succeeded, otherwise the error is one that some shard raised |
| Fanout.ShardMaxIsMax | src/Coldairarrow.DataRepository/Sharding/ShardingIQueryable.T.cs:247 | on one shard, an unpaged Max succeeds iff a row matches, and is then the largest selected value of the matching rows |
| Fanout.ShardMinIsMin | src/Coldairarrow.DataRepository/Sharding/ShardingIQueryable.T.cs:258 | on one shard, an unpaged Min succeeds iff a row matches, and is then the smallest selected value of the matching rows |
| Fanout.MaxMergeOfShards | src/Coldairarrow.DataRepository/Sharding/ShardingIQueryable.T.cs:247 | merging shard maxima succeeds iff there is a shard and every shard succeeded, and then yields the maximum over the union |
| Fanout.MinMergeOfShards | src/Coldairarrow.DataRepository/Sharding/ShardingIQueryable.T.cs:258 | merging shard minima succeeds iff there is a shard and every shard succeeded, and then yields the minimum over the union |
| ResultMerger.MaxMerge | src/Coldairarrow.DataRepository/Sharding/ShardingIQueryable.T.cs:247 | Max over the shard maxima succeeds iff there is a shard and every shard succeeded; it then is one of the shard maxima and no smaller than any; a failure is EmptySequence for no shards or a shard's own error |
| ResultMerger.MinMerge | src/Coldairarrow.DataRepository/Sharding/ShardingIQueryable.T.cs:258 | Min over the shard minima succeeds iff there is a shard and every shard succeeded; it then is one of the shard minima and no larger than any; a failure is EmptySequence for no shards or a shard's own error |
| Sharding.ShardingQueryable.Max | src/Coldairarrow.DataRepository/Sharding/ShardingIQueryable.T.cs:245-248 | Max merges the shard maxima; for an unpaged query it succeeds iff there are shards and each has a matching row, and then is the table maximum |
| Fanout.MaxAllIsTableMax | src/Coldairarrow.DataRepository/Sharding/ShardingIQueryable.T.cs:245-248 | for every shard list, the sharded Max is either EmptySequence (no shards, or a shard without a matching row) or the maximum over the whole table |
| Fanout.MaxEmptyShardExample | src/Coldairarrow.DataRepository/Sharding/ShardingIQueryable.T.cs:247 | shards [] and [5] make Max fail rather than return 5 |
| Sharding.ShardingQueryable.Min | src/Coldairarrow.DataRepository/Sharding/ShardingIQueryable.T.cs:256-259 | Min merges the shard minima; for an unpaged query it succeeds iff there are shards and each has a matching row, and then is the table minimum |
| Fanout.MinAllIsTableMin | src/Coldairarrow.DataRepository/Sharding/ShardingIQueryable.T.cs:256-259 | for every shard list, the sharded Min is either EmptySequence or the minimum over the whole table |
| ResultMerger.MaxOrNullMerge | src/Coldairarrow.DataRepository/Sharding/ShardingIQueryable.T.cs:247 | over nullable shard maxima, the result is null iff every shard answered null, and otherwise one of the non-null answers, no smaller than any of them |
| ResultMerger.MinOrNullMerge | src/Coldairarrow.DataRepository/Sharding/ShardingIQueryable.T.cs:258 | over nullable shard minima, the result is null iff every shard answered null, and otherwise one of the non-null answers, no larger than any of them |
| Fanout.ShardMaxOrNullIsMax | src/Coldairarrow.DataRepository/Sharding/ShardingIQueryable.T.cs:247 | on one shard, an unpaged nullable Max is null iff no matching row has a value, and otherwise the largest value among the matching rows |
| Fanout.ShardMinOrNullIsMin | src/Coldairarrow.DataRepository/Sharding/ShardingIQueryable.T.cs:258 | on one shard, an unpaged nullable Min is null iff no matching row has a value, and otherwise the smallest value among the matching rows |
| Fanout.MaxOrNullMergeOfShards | src/Coldairarrow.DataRepository/Sharding/ShardingIQueryable.T.cs:247 | merging correct nullable shard maxima is null iff no matching row of the union has a value, and otherwise the largest value of the union |
| Fanout.MinOrNullMergeOfShards | src/Coldairarrow.DataRepository/Sharding/ShardingIQueryable.T.cs:258 | merging correct nullable shard minima is null iff no matching row of the union has a value, and otherwise the smallest value of the union |
| Fanout.MaxOrNullAllIsTableMax | src/Coldairarrow.DataRepository/Sharding/ShardingIQueryable.T.cs:245-248 | for every shard list, the sharded nullable Max of an unpaged query is null iff no matching row of the whole table has a value, and otherwise the table's largest value; an empty shard does not make it fail |
| Fanout.MinOrNullAllIsTableMin | src/Coldairarrow.DataRepository/Sharding/ShardingIQueryable.T.cs:256-259 | for every shard list, the sharded nullable Min of an unpaged query is null iff no matching row of the whole table has a value, and otherwise the table's smallest value |
| Fanout.MaxOrNullEmptyShardExample | src/Coldairarrow.DataRepository/Sharding/ShardingIQueryable.T.cs:247 | shards [] and [5] give a nullable Max of 5, where the non-nullable Max fails |
| Sharding.ShardingQueryable.MaxOrNull | src/Coldairarrow.DataRepository/Sharding/ShardingIQueryable.T.cs:245-248 | nullable Max merges the shard maxima skipping nulls; for an unpaged query it is null iff no matching row has a value, and otherwise the table maximum |
| Sharding.ShardingQueryable.MinOrNull | src/Coldairarrow.DataRepository/Sharding/ShardingIQueryable.T.cs:256-259 | nullable Min merges the shard minima skipping nulls; for an unpaged query it is null iff no matching row has a value, and otherwise the table minimum |
| ResultMerger.AnyTrue | src/Coldairarrow.DataRepository/Sharding/ShardingIQueryable.T.cs:350 | the merged flag is true iff some shard answered true |
| Fanout.ShardAny | src/Coldairarrow.DataRepository/Sharding/ShardingIQueryable.T.cs:349-350 | an unpaged shard answers Any(predicate) iff one of its rows passes the filters and the predicate |
| Sharding.ShardingQueryable.Any | src/Coldairarrow.DataRepository/Sharding/ShardingIQueryable.T.cs:347-351 | Any is true iff some shard yields a row for the query refined by the predicate, and for an unpaged query iff some row of the table matches; the stored query is not changed |
| Fanout.AnyAllIsTableAny | src/Coldairarrow.DataRepository/Sharding/ShardingIQueryable.T.cs:347-351 | for every shard list, the sharded Any of an unpaged query holds iff some table row passes the filters and the predicate, so it is false with no shards |
| ResultMerger.RemoveNulls | src/Coldairarrow.DataRepository/Sharding/ShardingIQueryable.T.cs:222 | removing nulls keeps the value of every non-null entry and adds nothing else |
| ResultMerger.RemoveNullsCounts | src/Coldairarrow.DataRepository/Sharding/ShardingIQueryable.T.cs:222 | every value occurs in the result exactly as often as the entry holding it occurs in the input, so no duplicate shard answer is dropped |
| ResultMerger.RemoveNullsAppend | src/Coldairarrow.DataRepository/Sharding/ShardingIQueryable.T.cs:222 | removing nulls from a concatenation concatenates the results, so the values keep the order of their entries |
| ResultMerger.FirstNonNull | src/Coldairarrow.DataRepository/Sharding/ShardingIQueryable.T.cs:222-223 | the first value after removing nulls is null iff every entry is null, and otherwise one of the entries |
| ResultMerger.FirstNonNullIsFirst | src/Coldairarrow.DataRepository/Sharding/ShardingIQueryable.T.cs:222-223 | after removing nulls, the first entry is null iff all entries are null, otherwise it is an entry preceded only by nulls |
| Sharding.ShardingQueryable.FirstOrDefault | src/Coldairarrow.DataRepository/Sharding/ShardingIQueryable.T.cs:219-224 | the result is null iff the query yields nothing on every shard, otherwise the first row of the first shard yielding one; for an unpaged, unordered query it is the first matching row of the table |
| Fanout.FirstAllIsFirstNonEmptyShard | src/Coldairarrow.DataRepository/Sharding/ShardingIQueryable.T.cs:219-224 | the merged first row is null iff every shard yields nothing, otherwise the first row of the first shard that yields one |
| Fanout.FirstAllIsTableFirst | src/Coldairarrow.DataRepository/Sharding/ShardingIQueryable.T.cs:219-224 | for an unpaged, unordered query the merged first row is the first matching row of the concatenated table |
| Sorting.InsertSorted | src/Coldairarrow.DataRepository/Sharding/ShardingIQueryable.T.cs:211 | inserting a row into a sorted list keeps it sorted |
| Sorting.SortBy | src/Coldairarrow.DataRepository/Sharding/ShardingIQueryable.T.cs:211 | OrderBy returns a sorted permutation of its input |
| Sorting.SortAppend | src/Coldairarrow.DataRepository/Sharding/ShardingIQueryable.T.cs:206-211 | sorting the concatenated shard lists equals stably merging the separately sorted lists |
| Sorting.SortSorted | src/Coldairarrow.DataRepository/Sharding/ShardingIQueryable.T.cs:211 | re-sorting an already sorted list changes nothing |
| Sorting.TakeMerge | src/Coldairarrow.DataRepository/Sharding/ShardingIQueryable.T.cs:184-185 | the first n rows of a merge depend only on the first n (or more) rows of each side, which justifies capping each shard |
| Fanout.ShardQueryAnswer | src/Coldairarrow.DataRepository/Sharding/ShardingIQueryable.T.cs:179-185 | each table answers its shard query with the first skip + take rows (skip as written, none when that cap is 0 or less) of its matching rows in the query's order, or with all of them when there is no take |
| Fanout.SortedShardsResort | src/Coldairarrow.DataRepository/Sharding/ShardingIQueryable.T.cs:206-211 | re-sorting the gathered shard results of an ordered query equals sorting the matching rows of the whole table |
| Fanout.CappedShardsResort | src/Coldairarrow.DataRepository/Sharding/ShardingIQueryable.T.cs:184-211 | with every shard capped at n rows, the first n rows after re-sorting are the first n sorted matching rows of the whole table |
| Fanout.CappedShardsAppend | src/Coldairarrow.DataRepository/Sharding/ShardingIQueryable.T.cs:184-206 | for an unordered query, the first n gathered rows with every shard capped at n are the first n matching rows of the whole table |
| Fanout.ToListAllIsTableQuery | src/Coldairarrow.DataRepository/Sharding/ShardingIQueryable.T.cs:176-218 | for every shard list and every query whose shard cap skip + take covers its window (no take, a take of 0 or less, or a skip of 0 or more), stripping the paging, capping each shard, gathering, re-sorting and re-paging yields exactly what the query yields on the unpartitioned table |
| Fanout.NegativeSkipExample | src/Coldairarrow.DataRepository/Sharding/ShardingIQueryable.T.cs:179-185 | Skip(-2).Take(3) on one shard [1, 2, 3, 4] has a cap that does not cover its window, and the merge returns [1] where the table query yields [1, 2, 3] |
| Fanout.MergedIsTableQuery | src/Coldairarrow.DataRepository/Sharding/ShardingIQueryable.T.cs:209-215 | the in-memory merge of the gathered shard rows is the sharded ToList answer, and it is the query on the whole table whenever the cap covers the window |
| ResultMerger.MergeRows | src/Coldairarrow.DataRepository/Sharding/ShardingIQueryable.T.cs:209-215 | the merged list is the rows at positions skip, skip+1, ... of the gathered rows re-sorted by the query's ordering, a negative skip acting as 0: exactly take of them when the list reaches that far, the rest when fewer remain, none past the end; so it is sorted when the query is ordered and takes no row more often than the gathered rows hold it |
| Sharding.ShardingQueryable.OpenRepositories | src/Coldairarrow.DataRepository/Sharding/ShardingIQueryable.T.cs:189-197 | one fresh, undisposed repository per shard; with an open transaction all are registered with it and none is kept for disposal, otherwise all are kept for disposal and none is registered |
| Sharding.ShardingQueryable.FetchAll | src/Coldairarrow.DataRepository/Sharding/ShardingIQueryable.T.cs:178-206 | the gathered rows are the shard results of the query without skip and with take raised to skip + take, concatenated in shard order |
| Sharding.AppendAll | src/Coldairarrow.DataRepository/Sharding/ShardingIQueryable.T.cs:206 | adding each shard's list in turn yields their concatenation |
| Sharding.ShardingQueryable.QueryTables | src/Coldairarrow.DataRepository/Sharding/ShardingIQueryable.T.cs:186-207 | the gathered rows are the shard query's answers concatenated in shard order; one fresh repository per shard, all registered with an open transaction or else all disposed, and the transaction's open flag unchanged |
| Sharding.DisposeAll | src/Coldairarrow.DataRepository/Sharding/ShardingIQueryable.T.cs:207 | every repository in the list ends up disposed |
| Sharding.Repository.Dispose | src/Coldairarrow.DataRepository/Sharding/ShardingIQueryable.T.cs:207 | the repository is disposed |
| Sharding.DistributedTransaction.AddRepository | src/Coldairarrow.DataRepository/Sharding/ShardingIQueryable.T.cs:195 | the repository is appended to the transaction's list; whether the transaction is open is unchanged |
| Sharding.ShardingQueryable.ToList | src/Coldairarrow.DataRepository/Sharding/ShardingIQueryable.T.cs:172-218 | the rows are the sharded merge and, whenever the cap covers the window, what the query yields on the unpartitioned table; at most take rows; one repository per shard, all registered with an open transaction or else all disposed |
| Queries.EvaluatePage | src/Coldairarrow.DataRepository/Sharding/ShardingIQueryable.T.cs:234-236 | an ordered page query yields the rows at positions offset, offset+1, ... of the sorted matching rows: a full page of PageRows when they reach past its end, the remaining rows for a partial last page, none past the end |
| Fanout.PageRequest | src/Coldairarrow.DataRepository/Sharding/ShardingIQueryable.T.cs:234-236 | with skip (PageIndex-1)*PageRows and take PageRows, the cap covers the window from PageIndex 1 on, and a PageIndex below 1 makes the sharded page empty |
| Sharding.ShardingQueryable.GetPagination | src/Coldairarrow.DataRepository/Sharding/ShardingIQueryable.T.cs:231-237 | Total is the sharded count of the query before paging; the query becomes ordered by the page's column with skip (PageIndex-1)*PageRows and take PageRows; from PageIndex 1 on the rows are that page of the whole table, below 1 there are none; at most PageRows rows; the transaction's open flag is unchanged |
| Sharding.ShardingQueryable.RequestPage | src/Coldairarrow.DataRepository/Sharding/ShardingIQueryable.T.cs:233-236 | the stored query is ordered by the page's column, with skip (PageIndex-1)*PageRows and take PageRows, as written; its filters are unchanged |
| Sharding.ShardingQueryable.ListPage | src/Coldairarrow.DataRepository/Sharding/ShardingIQueryable.T.cs:236 | the page of the stored query after RequestPage: the table's page from PageIndex 1 on, empty below 1, at most PageRows rows, with the repository lifecycle of ToList |

## Left out

- The asynchronous twins (`CountAsync`, `FirstOrDefaultAsync`, `GetPaginationAsync`, `MaxAsync`, `MinAsync`, `GetStatisDataAsync`, `GetStatisDataGenericAsync`, lines 57-88, 166-171, 225-230, 238-244, 249-266) compute the same values as the synchronous calls. They are not modelled separately. `ToList` is modelled directly as the body of `ToListAsync`, which it runs synchronously.
- `DynamicAverageAsync` (lines 99-109) is incomplete code that does not compile. Every member throwing `NotImplementedException` (from line 357 on) has no behaviour to model.
- Concurrency: `Task.Run`, `Task.WaitAll` and `Task.WhenAll` are modelled as a sequential pass in shard order. Results keep shard order, as `tasks.Select(x => x.Result)` does. In `ToList`, opening the repositories and running the shard queries are two separate passes; they are interleaved per task in the code.
- Sharding.ShardingQueryable.ToList: the connections it returns are modelled as opened and then registered or disposed. The rows are not tied to a particular connection, because the model has no database behind a `Repository`.
- The ORM and the configuration (`ShardingConfig.GetReadTables`, `DbFactory.GetRepository`, `MapTable`, `ChangeSource`, `ChangeType<T>`) are not part of this model. The physical tables are the `shards` parameter, and running a rebound query on a shard is `Evaluate` on its rows. The table name is stored but not resolved.
- Sharding.ShardingQueryable.GetStatisData: the repositories it obtains are neither registered with the transaction nor disposed in the code. The model opens none there.
- Expression trees and Dynamic LINQ: the query is a record with filters, one ordering, skip and take. The string `Where(predicate, values)` is the same `Where` with the predicate already parsed. The string `OrderBy` is `OrderByColumn` with the column's key already resolved. Sort keys are integers.
- Sharding.ShardingQueryable.Skip: a repeated `Skip` or `Take` replaces the earlier one, as `GetSkipCount`/`GetTakeCount` read a single value. Composing them, and `ThenBy`, are not modelled. A `Skip` after a `Take` is treated like one before it. An `OrderBy` issued after `Skip` or `Take` likewise orders the rows before the window in the model, whatever the order of the calls.
- Sharding.ShardingQueryable.Take: as for `Skip`, a repeated `Take` replaces the earlier one instead of composing with it, and a `Take` before a `Skip` is treated like one after it.
- Sharding.ShardingQueryable.Where: a `Where` issued after `Skip` or `Take` is applied before them in the model, because the query is one record whose filters run before its window. LINQ would filter only the rows the window kept, so for such a chain the model can return rows the code does not.
- Sharding.ShardingQueryable.Any: the same holds for the predicate of `Any`, which the model adds as one more filter ahead of the window. After `Take(1)` on a shard `[1, 2]`, `Any(x => x == 2)` is true in the model and false in the code.
- A shard query with a negative take is assumed to return no row, as LINQ to Objects does; what a database provider does with it is not modelled. Likewise the aggregates (`Count`, `Sum`, `Average`, `Max`, `Min`, `Any`, `FirstOrDefault`) send a stored `Skip` to every table as written; a negative one is assumed to skip nothing.
- Shard queries are assumed to order rows the same stable way as LINQ to Objects, ties keeping table order. A database's ORDER BY does not promise this for equal keys, so with ties the rows chosen for a page may differ.
- Numeric types: columns are unbounded `int` (nullable as `Option<int>`) and the average is a `real`. The `float`, `double`, `long` and `decimal` overloads (lines 267-346), their casts, rounding and overflow are not modelled. This includes the 32-bit overflow of `Count`, `Sum<int>`, `(PageIndex - 1) * PageRows` and the shard cap `take + skip` (line 185).
- Sharding.ShardingQueryable.Count: for a query with skip or take, only the per-shard formula is stated, not a table-level value. Each shard applies the skip and take to its own rows, so the sum has no simpler table meaning. The same holds for Sum, Average, Max, Min and Any.
- Sharding.ShardingQueryable.FirstOrDefault: the table-level statement covers only unordered queries. With an ordering, the code returns the first row of the first non-empty shard; the first-shard statement covers that case.
- Failures of a shard query (lost connections, SQL errors) and exceptions other than Max/Min over no rows and Average over no rows are not modelled. In particular, when a shard query of `ToListAsync` throws, the code leaves before the dispose loop at line 207 and the repositories stay open; the model always reaches it.
- ResultMerger.Collect: when several shards fail, `Task.WaitAll` throws one `AggregateException` holding every failure; the model reports a single shard's error, the first in shard order.
- `DistributedTransaction` and the repositories are modelled only as far as this class uses them: a flag and a list of registered repositories, and a disposed flag.
