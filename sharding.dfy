/**
 * ShardingQueryable<T>: one logical table split over several physical tables. The executor keeps
 * a deferred query in a mutable field, fans it out to every read table of the logical table and
 * merges the per-table answers. The rows of the read tables, in the order the shard configuration
 * lists them, are passed to every terminal call as `shards`.
 */
module Sharding {
  import opened Wrappers
  import opened Seqs
  import opened Sorting
  import opened Queries
  import opened ResultMerger
  import opened Fanout

  /** A connection to one physical table; it is open until it is disposed. */
  class Repository {
    /** The position of its table in the shard list. */
    const table: nat
    var disposed: bool

    constructor (table: nat)
      ensures this.table == table && !disposed
    {
      this.table := table;
      disposed := false;
    }

    method Dispose()
      modifies this
      ensures disposed
    {
      disposed := true;
    }
  }

  /** A distributed transaction: the repositories it will commit or roll back together. */
  class DistributedTransaction {
    var openTransaction: bool
    var repositories: seq<Repository>

    constructor (openTransaction: bool)
      ensures this.openTransaction == openTransaction && repositories == []
    {
      this.openTransaction := openTransaction;
      repositories := [];
    }

    method AddRepository(repository: Repository)
      modifies this
      ensures repositories == old(repositories) + [repository]
      ensures openTransaction == old(openTransaction)
    {
      repositories := repositories + [repository];
    }
  }

  /** The page a caller asks for; GetPagination fills in the total. */
  class Pagination<T> {
    var pageIndex: int
    var pageRows: int
    var sortField: T -> int
    var sortType: Direction
    var total: int

    constructor (pageIndex: int, pageRows: int, sortField: T -> int, sortType: Direction)
      ensures this.pageIndex == pageIndex && this.pageRows == pageRows
      ensures this.sortField == sortField && this.sortType == sortType && total == 0
    {
      this.pageIndex := pageIndex;
      this.pageRows := pageRows;
      this.sortField := sortField;
      this.sortType := sortType;
      total := 0;
    }
  }

  class ShardingQueryable<T> {
    /** The name of the logical table, which selects its read tables in the shard configuration. */
    const absTableName: string
    const transaction: DistributedTransaction?
    var source: QuerySpec<T>

    constructor (absTableName: string, source: QuerySpec<T>, transaction: DistributedTransaction?)
      ensures this.absTableName == absTableName && this.source == source
      ensures this.transaction == transaction
    {
      this.absTableName := absTableName;
      this.source := source;
      this.transaction := transaction;
    }

    /** A transaction is open when there is one and its flag is set. */
    predicate OpenTransaction()
      reads transaction
    {
      transaction != null && transaction.openTransaction
    }

    // -------------------------------------------------------------------------
    // Builders: each one reassigns the stored query and returns this
    // -------------------------------------------------------------------------

    method Where(where: T -> bool) returns (self: ShardingQueryable<T>)
      modifies this
      ensures self == this
      ensures source == WithFilter(old(source), where)
    {
      source := WithFilter(source, where);
      self := this;
    }

    method OrderBy(keySelector: T -> int) returns (self: ShardingQueryable<T>)
      modifies this
      ensures self == this
      ensures source == old(source).(ordering := Some(Ordering(keySelector, Ascending)))
    {
      source := source.(ordering := Some(Ordering(keySelector, Ascending)));
      self := this;
    }

    method OrderByDescending(keySelector: T -> int) returns (self: ShardingQueryable<T>)
      modifies this
      ensures self == this
      ensures source == old(source).(ordering := Some(Ordering(keySelector, Descending)))
    {
      source := source.(ordering := Some(Ordering(keySelector, Descending)));
      self := this;
    }

    /** The Dynamic LINQ form "SortField SortType", with the column and the direction resolved. */
    method OrderByColumn(field: T -> int, direction: Direction) returns (self: ShardingQueryable<T>)
      modifies this
      ensures self == this
      ensures source == old(source).(ordering := Some(Ordering(field, direction)))
    {
      source := source.(ordering := Some(Ordering(field, direction)));
      self := this;
    }

    /** The count is kept as written; LINQ reads a negative one as 0 only when the query runs. */
    method Skip(count: int) returns (self: ShardingQueryable<T>)
      modifies this
      ensures self == this
      ensures source == old(source).(skip := Some(count))
    {
      source := source.(skip := Some(count));
      self := this;
    }

    /** The count is kept as written, like Skip's. */
    method Take(count: int) returns (self: ShardingQueryable<T>)
      modifies this
      ensures self == this
      ensures source == old(source).(take := Some(count))
    {
      source := source.(take := Some(count));
      self := this;
    }

    // -------------------------------------------------------------------------
    // Fan-out
    // -------------------------------------------------------------------------

    /**
     * Runs the query (the stored one unless another is given) on every read table and returns
     * what access makes of each table's rows, in shard-list order rather than completion order.
     */
    method GetStatisData<R>(access: seq<T> -> R, newSource: Option<QuerySpec<T>>, shards: seq<seq<T>>)
      returns (results: seq<R>)
      ensures var query := newSource.GetOr(source);
        && |results| == |shards|
        && (forall i :: 0 <= i < |shards| ==> results[i] == access(Evaluate(query, shards[i])))
        && results == Gather(access, query, shards)
    {
      var query := newSource.GetOr(source);
      results := [];
      var i := 0;
      while i < |shards|
        invariant 0 <= i <= |shards|
        invariant results == Gather(access, query, shards[..i])
      {
        GatherSnoc(access, query, shards[..i], shards[i]);
        assert shards[..i + 1] == shards[..i] + [shards[i]];
        results := results + [access(Evaluate(query, shards[i]))];
        i := i + 1;
      }
      assert shards[..i] == shards;
    }

    // -------------------------------------------------------------------------
    // Aggregates
    // -------------------------------------------------------------------------

    /** The sum of the per-table counts: the number of matching rows of the whole logical table. */
    method Count(shards: seq<seq<T>>) returns (n: int)
      ensures n == CountAll(source, shards)
      ensures Unpaged(source) ==> n == |Matching(source.filters, Concat(shards))|
    {
      var counts := GetStatisData(RowCount, None, shards);
      n := SumOf(counts);
      if Unpaged(source) {
        CountAllIsTableCount(source, shards);
      }
    }

    /** DynamicSum: the per-table SQL sums added up, null ones contributing nothing. */
    method Sum(selector: T -> Option<int>, shards: seq<seq<T>>) returns (s: int)
      ensures s == SumAll(selector, source, shards)
      ensures Unpaged(source) ==> s == ValueSum(selector, Matching(source.filters, Concat(shards)))
    {
      var sums := GetStatisData(rows => ShardSum(selector, rows), None, shards);
      assert sums == Gather(rows => ShardSum(selector, rows), source, shards);
      s := SumNonNull(sums);
      if Unpaged(source) {
        SumAllIsTableSum(selector, source, shards);
      }
    }

    /** DynamicAverage: the sum of the per-table sums over the sum of the per-table row counts. */
    method Average(selector: T -> Option<int>, shards: seq<seq<T>>) returns (r: Result<real>)
      ensures r == AverageAll(selector, source, shards)
      ensures Unpaged(source) ==>
        var m := Matching(source.filters, Concat(shards));
        r == if |m| == 0 then Err(DivideByZero) else Ok(ValueSum(selector, m) as real / |m| as real)
    {
      var pairs := GetStatisData(rows => ShardCountAndSum(selector, rows), None, shards);
      assert pairs == Gather(rows => ShardCountAndSum(selector, rows), source, shards);
      r := AverageMerge(pairs);
      if Unpaged(source) {
        AverageAllIsWeightedMean(selector, source, shards);
      }
    }

    /** The largest of the per-table maxima; a table without a matching row makes it throw. */
    method Max(selector: T -> int, shards: seq<seq<T>>) returns (r: Result<int>)
      ensures r == MaxAll(selector, source, shards)
      ensures Unpaged(source) ==>
        && (r.Ok? <==> |shards| > 0 && forall i :: 0 <= i < |shards| ==> Matching(source.filters, shards[i]) != [])
        && (r.Err? ==> r.error == EmptySequence)
        && (r.Ok? ==> IsTableMax(selector, source.filters, Concat(shards), r.value))
    {
      var maxima := GetStatisData(rows => ShardMax(selector, rows), None, shards);
      assert maxima == Gather(rows => ShardMax(selector, rows), source, shards);
      r := MaxMerge(maxima);
      if Unpaged(source) {
        MaxAllIsTableMax(selector, source, shards);
      }
    }

    /** The smallest of the per-table minima; a table without a matching row makes it throw. */
    method Min(selector: T -> int, shards: seq<seq<T>>) returns (r: Result<int>)
      ensures r == MinAll(selector, source, shards)
      ensures Unpaged(source) ==>
        && (r.Ok? <==> |shards| > 0 && forall i :: 0 <= i < |shards| ==> Matching(source.filters, shards[i]) != [])
        && (r.Err? ==> r.error == EmptySequence)
        && (r.Ok? ==> IsTableMin(selector, source.filters, Concat(shards), r.value))
    {
      var minima := GetStatisData(rows => ShardMin(selector, rows), None, shards);
      assert minima == Gather(rows => ShardMin(selector, rows), source, shards);
      r := MinMerge(minima);
      if Unpaged(source) {
        MinAllIsTableMin(selector, source, shards);
      }
    }

    /**
     * Max over a nullable column: every table answers SQL MAX, which is null when none of its
     * matching rows has a value; the null answers are dropped and the largest of the rest is the
     * result, null when every answer is null.
     */
    method MaxOrNull(selector: T -> Option<int>, shards: seq<seq<T>>) returns (r: Option<int>)
      ensures r == MaxOrNullAll(selector, source, shards)
      ensures Unpaged(source) ==>
        && (r.None? <==> NoValue(selector, source.filters, Concat(shards)))
        && (r.Some? ==> IsTableMaxValue(selector, source.filters, Concat(shards), r.value))
    {
      var maxima := GetStatisData(rows => ShardMaxOrNull(selector, rows), None, shards);
      assert maxima == Gather(rows => ShardMaxOrNull(selector, rows), source, shards);
      r := MaxOrNullMerge(maxima);
      if Unpaged(source) {
        MaxOrNullAllIsTableMax(selector, source, shards);
      }
    }

    /** Min over a nullable column: the smallest of the non-null per-table minima, or null. */
    method MinOrNull(selector: T -> Option<int>, shards: seq<seq<T>>) returns (r: Option<int>)
      ensures r == MinOrNullAll(selector, source, shards)
      ensures Unpaged(source) ==>
        && (r.None? <==> NoValue(selector, source.filters, Concat(shards)))
        && (r.Some? ==> IsTableMinValue(selector, source.filters, Concat(shards), r.value))
    {
      var minima := GetStatisData(rows => ShardMinOrNull(selector, rows), None, shards);
      assert minima == Gather(rows => ShardMinOrNull(selector, rows), source, shards);
      r := MinOrNullMerge(minima);
      if Unpaged(source) {
        MinOrNullAllIsTableMin(selector, source, shards);
      }
    }

    /** Any(predicate): true iff some table has a row passing the stored filters and predicate. */
    method Any(where: T -> bool, shards: seq<seq<T>>) returns (b: bool)
      ensures b == AnyAll(where, source, shards)
      ensures b <==> exists i :: 0 <= i < |shards| && Evaluate(WithFilter(source, where), shards[i]) != []
      ensures Unpaged(source) ==>
        (b <==> exists x :: x in Concat(shards) && Satisfies(source.filters, x) && where(x))
    {
      var newSource := WithFilter(source, where);
      var found := GetStatisData(HasRows, Some(newSource), shards);
      b := AnyTrue(found);
      if Unpaged(source) {
        AnyAllIsTableAny(where, source, shards);
      }
    }

    /** The first row of the first table, in shard-list order, whose query yields one. */
    method FirstOrDefault(shards: seq<seq<T>>) returns (r: Option<T>)
      ensures r == FirstAll(source, shards)
      ensures r.None? <==> forall i :: 0 <= i < |shards| ==> Evaluate(source, shards[i]) == []
      ensures r.Some? ==>
        exists i :: 0 <= i < |shards| && Evaluate(source, shards[i]) != []
          && Evaluate(source, shards[i])[0] == r.value
          && forall j :: 0 <= j < i ==> Evaluate(source, shards[j]) == []
      ensures Unpaged(source) && source.ordering.None? ==>
        r == FirstRow(Matching(source.filters, Concat(shards)))
    {
      var firsts := GetStatisData(FirstRow, None, shards);
      r := FirstNonNull(firsts);
      FirstAllIsFirstNonEmptyShard(source, shards);
      if Unpaged(source) && source.ordering.None? {
        FirstAllIsTableFirst(source, shards);
      }
    }

    // -------------------------------------------------------------------------
    // Lists
    // -------------------------------------------------------------------------

    /**
     * Opens one fresh repository per table, in shard order. With an open transaction each
     * repository is handed to the transaction; otherwise it is collected in dbs, to be disposed
     * once the tables have answered.
     */
    method OpenRepositories(tables: nat) returns (dbs: seq<Repository>, connections: seq<Repository>)
      modifies transaction
      ensures |connections| == tables
      ensures forall k :: 0 <= k < tables ==> fresh(connections[k]) && connections[k].table == k && !connections[k].disposed
      ensures transaction != null ==> transaction.openTransaction == old(transaction.openTransaction)
      ensures OpenTransaction() ==> dbs == [] && transaction.repositories == old(transaction.repositories) + connections
      ensures !OpenTransaction() ==> dbs == connections && (transaction != null ==> transaction.repositories == old(transaction.repositories))
    {
      var open := OpenTransaction();
      dbs, connections := [], [];
      var i := 0;
      while i < tables
        invariant 0 <= i <= tables
        invariant |connections| == i
        invariant forall k :: 0 <= k < i ==> fresh(connections[k]) && connections[k].table == k && !connections[k].disposed
        invariant transaction != null ==> transaction.openTransaction == old(transaction.openTransaction)
        invariant open ==> dbs == [] && transaction.repositories == old(transaction.repositories) + connections
        invariant !open ==> dbs == connections && (transaction != null ==> transaction.repositories == old(transaction.repositories))
      {
        var targetDb := new Repository(i);
        if open {
          transaction.AddRepository(targetDb);
        } else {
          dbs := dbs + [targetDb];
        }
        connections := connections + [targetDb];
        i := i + 1;
      }
    }

    /**
     * The rows every table returns for the stored query stripped of its skip and capped at
     * skip + take rows when it has a take, appended in shard order.
     */
    method FetchAll(spec: QuerySpec<T>, shards: seq<seq<T>>) returns (all: seq<T>)
      ensures all == Concat(Gather(RowList, ShardQuery(spec), shards))
    {
      var take := spec.take;
      var skip := spec.skip.GetOr(0);
      var noPaginSource := spec.(skip := None, take := None);
      if take.Some? {
        noPaginSource := noPaginSource.(take := Some(take.value + skip));
      }
      assert noPaginSource == ShardQuery(spec);
      var answers := GetStatisData(RowList, Some(noPaginSource), shards);
      all := AppendAll(answers);
    }

    /**
     * ToList: every table answers the query without skip and capped at skip + take rows; the
     * answers are appended in shard order, re-sorted, skipped and taken. The result is what the
     * query yields on the whole logical table whenever the cap reaches the end of the requested
     * window, which fails only for a negative skip with a positive take. Every table gets a fresh
     * repository (listed in connections): with an open transaction each is handed to it and stays
     * open, otherwise each is disposed once the answers are in and the transaction is left alone.
     */
    method ToList(shards: seq<seq<T>>) returns (rows: seq<T>, connections: seq<Repository>)
      modifies transaction
      ensures rows == ToListAll(source, shards)
      ensures CapCoversWindow(source) ==> rows == Evaluate(source, Concat(shards))
      ensures source.take.Some? ==> |rows| <= Clamp(source.take.value)
      ensures |connections| == |shards|
      ensures forall k :: 0 <= k < |connections| ==> fresh(connections[k]) && connections[k].table == k
      ensures transaction != null ==> transaction.openTransaction == old(transaction.openTransaction)
      ensures OpenTransaction() ==>
        && transaction.repositories == old(transaction.repositories) + connections
        && forall k :: 0 <= k < |connections| ==> !connections[k].disposed
      ensures !OpenTransaction() ==>
        && (transaction != null ==> transaction.repositories == old(transaction.repositories))
        && forall k :: 0 <= k < |connections| ==> connections[k].disposed
    {
      var spec := source;
      var all;
      all, connections := QueryTables(spec, shards);
      // Re-sort when the query is ordered, then skip, then take.
      rows := MergeRows(spec, all);
      MergedIsTableQuery(spec, shards, all);
    }

    /**
     * Runs the shard query of spec on every table through a fresh repository per table and
     * appends the answers in shard order; without an open transaction the repositories are
     * disposed once the answers are in.
     */
    method QueryTables(spec: QuerySpec<T>, shards: seq<seq<T>>) returns (all: seq<T>, connections: seq<Repository>)
      modifies transaction
      ensures all == Concat(Gather(RowList, ShardQuery(spec), shards))
      ensures |connections| == |shards|
      ensures forall k :: 0 <= k < |connections| ==> fresh(connections[k]) && connections[k].table == k
      ensures transaction != null ==> transaction.openTransaction == old(transaction.openTransaction)
      ensures OpenTransaction() ==>
        && transaction.repositories == old(transaction.repositories) + connections
        && forall k :: 0 <= k < |connections| ==> !connections[k].disposed
      ensures !OpenTransaction() ==>
        && (transaction != null ==> transaction.repositories == old(transaction.repositories))
        && forall k :: 0 <= k < |connections| ==> connections[k].disposed
    {
      var dbs;
      dbs, connections := OpenRepositories(|shards|);
      all := FetchAll(spec, shards);
      DisposeAll(dbs);
    }

    /**
     * GetPagination: the total is the count of the stored query as it stands; then the query is
     * ordered by the page's sort column, skips the rows of the earlier pages and takes one page.
     * A page index below 1 gives an empty page: with a positive page size the skip is negative
     * and every table's cap PageIndex * PageRows is 0 or less; otherwise the take is 0 or less.
     */
    method GetPagination(pagination: Pagination<T>, shards: seq<seq<T>>)
      returns (rows: seq<T>, connections: seq<Repository>)
      modifies this, pagination`total, transaction
      ensures pagination.total == CountAll(old(source), shards)
      ensures Unpaged(old(source)) ==> pagination.total == |Matching(old(source).filters, Concat(shards))|
      ensures source == old(source).(
        ordering := Some(Ordering(pagination.sortField, pagination.sortType)),
        skip := Some(PageOffset(pagination.pageIndex, pagination.pageRows)),
        take := Some(pagination.pageRows))
      ensures rows == ToListAll(source, shards)
      ensures pagination.pageIndex >= 1 ==> rows == Evaluate(source, Concat(shards))
      ensures pagination.pageIndex < 1 ==> rows == []
      ensures |rows| <= Clamp(pagination.pageRows)
      ensures |connections| == |shards|
      ensures forall k :: 0 <= k < |connections| ==> fresh(connections[k]) && connections[k].table == k
      ensures transaction != null ==> transaction.openTransaction == old(transaction.openTransaction)
      ensures OpenTransaction() ==>
        && transaction.repositories == old(transaction.repositories) + connections
        && forall k :: 0 <= k < |connections| ==> !connections[k].disposed
      ensures !OpenTransaction() ==>
        && (transaction != null ==> transaction.repositories == old(transaction.repositories))
        && forall k :: 0 <= k < |connections| ==> connections[k].disposed
    {
      var pageIndex, pageRows := pagination.pageIndex, pagination.pageRows;
      var sortField, sortType := pagination.sortField, pagination.sortType;
      pagination.total := Count(shards);
      rows, connections := ListPage(sortField, sortType, pageIndex, pageRows, shards);
      assert pagination.pageIndex == pageIndex && pagination.pageRows == pageRows;
      assert pagination.sortField == sortField && pagination.sortType == sortType;
    }

    /** Requests the page and lists it: ToList on the ordered, skipped and taken query. */
    method ListPage(sortField: T -> int, sortType: Direction, pageIndex: int, pageRows: int, shards: seq<seq<T>>)
      returns (rows: seq<T>, connections: seq<Repository>)
      modifies this, transaction
      ensures source == old(source).(
        ordering := Some(Ordering(sortField, sortType)),
        skip := Some(PageOffset(pageIndex, pageRows)),
        take := Some(pageRows))
      ensures rows == ToListAll(source, shards)
      ensures pageIndex >= 1 ==> rows == Evaluate(source, Concat(shards))
      ensures pageIndex < 1 ==> rows == []
      ensures |rows| <= Clamp(pageRows)
      ensures |connections| == |shards|
      ensures forall k :: 0 <= k < |connections| ==> fresh(connections[k]) && connections[k].table == k
      ensures transaction != null ==> transaction.openTransaction == old(transaction.openTransaction)
      ensures OpenTransaction() ==>
        && transaction.repositories == old(transaction.repositories) + connections
        && forall k :: 0 <= k < |connections| ==> !connections[k].disposed
      ensures !OpenTransaction() ==>
        && (transaction != null ==> transaction.repositories == old(transaction.repositories))
        && forall k :: 0 <= k < |connections| ==> connections[k].disposed
    {
      RequestPage(sortField, sortType, pageIndex, pageRows);
      rows, connections := ToList(shards);
      PageRequest(source, pageIndex, pageRows, shards);
    }

    /** Orders the stored query by the page's sort column, skips the earlier pages and takes one. */
    method RequestPage(sortField: T -> int, sortType: Direction, pageIndex: int, pageRows: int)
      modifies this
      ensures source == old(source).(
        ordering := Some(Ordering(sortField, sortType)),
        skip := Some(PageOffset(pageIndex, pageRows)),
        take := Some(pageRows))
    {
      var self := OrderByColumn(sortField, sortType);
      self := self.Skip(PageOffset(pageIndex, pageRows));
      self := self.Take(pageRows);
    }
  }

  /** The lists appended one after the other, in list order. */
  method AppendAll<T>(lists: seq<seq<T>>) returns (all: seq<T>)
    ensures all == Concat(lists)
  {
    all := [];
    var j := 0;
    while j < |lists|
      invariant 0 <= j <= |lists|
      invariant all == Concat(lists[..j])
    {
      ConcatSnoc(lists[..j], lists[j]);
      assert lists[..j + 1] == lists[..j] + [lists[j]];
      all := all + lists[j];
      j := j + 1;
    }
    assert lists[..j] == lists;
  }

  /** Disposes every repository of the list and touches nothing else. */
  method DisposeAll(dbs: seq<Repository>)
    modifies set k | 0 <= k < |dbs| :: dbs[k]
    ensures forall k :: 0 <= k < |dbs| ==> dbs[k].disposed
  {
    var d := 0;
    while d < |dbs|
      invariant 0 <= d <= |dbs|
      invariant forall k :: 0 <= k < d ==> dbs[k].disposed
    {
      dbs[d].Dispose();
      d := d + 1;
    }
  }
}
