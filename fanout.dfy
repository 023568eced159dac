/**
 * Each terminal call as a function of the query and the shards (the rows of every physical
 * table, in the order the shard configuration lists them), and the theorems that relate it to
 * running the same query on the one unpartitioned table.
 */
module Fanout {
  import opened Wrappers
  import opened Seqs
  import opened Sorting
  import opened Queries
  import opened ResultMerger

  /** GetStatisData: the access function applied to every shard's rebound query, in shard order. */
  function Gather<T, R>(access: seq<T> -> R, spec: QuerySpec<T>, shards: seq<seq<T>>): (r: seq<R>)
    ensures |r| == |shards|
    ensures forall i :: 0 <= i < |shards| ==> r[i] == access(Evaluate(spec, shards[i]))
  {
    seq(|shards|, i requires 0 <= i < |shards| => access(Evaluate(spec, shards[i])))
  }

  function CountAll<T>(spec: QuerySpec<T>, shards: seq<seq<T>>): int {
    SumOf(Gather(RowCount, spec, shards))
  }

  function SumAll<T>(sel: T -> Option<int>, spec: QuerySpec<T>, shards: seq<seq<T>>): int {
    SumNonNull(Gather(rows => ShardSum(sel, rows), spec, shards))
  }

  function AverageAll<T>(sel: T -> Option<int>, spec: QuerySpec<T>, shards: seq<seq<T>>): Result<real> {
    AverageMerge(Gather(rows => ShardCountAndSum(sel, rows), spec, shards))
  }

  function MaxAll<T>(sel: T -> int, spec: QuerySpec<T>, shards: seq<seq<T>>): Result<int> {
    MaxMerge(Gather(rows => ShardMax(sel, rows), spec, shards))
  }

  function MinAll<T>(sel: T -> int, spec: QuerySpec<T>, shards: seq<seq<T>>): Result<int> {
    MinMerge(Gather(rows => ShardMin(sel, rows), spec, shards))
  }

  /** Any(predicate): the predicate joins the filters of a new query; the stored one is left alone. */
  function AnyAll<T>(p: T -> bool, spec: QuerySpec<T>, shards: seq<seq<T>>): bool {
    AnyTrue(Gather(HasRows, WithFilter(spec, p), shards))
  }

  function FirstAll<T>(spec: QuerySpec<T>, shards: seq<seq<T>>): Option<T> {
    FirstNonNull(Gather(FirstRow, spec, shards))
  }

  /**
   * The query sent to each shard by ToListAsync: the same filters and ordering, no skip, and a cap
   * of skip + take rows, the counts as written, when a take exists.
   */
  function ShardQuery<T>(spec: QuerySpec<T>): (r: QuerySpec<T>)
    ensures r.filters == spec.filters && r.ordering == spec.ordering && r.skip.None?
    ensures r.take.None? <==> spec.take.None?
    ensures spec.take.Some? ==> r.take.value - spec.take.value == SkipCount(spec)
  {
    spec.(skip := None, take := if spec.take.Some? then Some(spec.take.value + SkipCount(spec)) else None)
  }

  /**
   * What a table answers to its shard query: the first skip + take rows of its matching rows in
   * the query's order (none when that cap is 0 or less), or all of them when there is no take.
   */
  lemma ShardQueryAnswer<T>(spec: QuerySpec<T>, rows: seq<T>)
    ensures var a := Arrange(spec.ordering, Matching(spec.filters, rows));
      Evaluate(ShardQuery(spec), rows)
        == if spec.take.Some? then Take(Clamp(spec.take.value + SkipCount(spec)), a) else a
  {
    var a := Arrange(spec.ordering, Matching(spec.filters, rows));
    assert Drop(0, a) == a;
  }

  /** Max(selector) over a nullable column: SQL MAX on every shard, null maxima skipped. */
  function MaxOrNullAll<T>(sel: T -> Option<int>, spec: QuerySpec<T>, shards: seq<seq<T>>): Option<int> {
    MaxOrNullMerge(Gather(rows => ShardMaxOrNull(sel, rows), spec, shards))
  }

  /** Min(selector) over a nullable column: SQL MIN on every shard, null minima skipped. */
  function MinOrNullAll<T>(sel: T -> Option<int>, spec: QuerySpec<T>, shards: seq<seq<T>>): Option<int> {
    MinOrNullMerge(Gather(rows => ShardMinOrNull(sel, rows), spec, shards))
  }

  function ToListAll<T>(spec: QuerySpec<T>, shards: seq<seq<T>>): seq<T> {
    MergeRows(spec, Concat(Gather(RowList, ShardQuery(spec), shards)))
  }

  // ---------------------------------------------------------------------------
  // Helpers
  // ---------------------------------------------------------------------------

  lemma GatherCons<T, R>(access: seq<T> -> R, spec: QuerySpec<T>, shards: seq<seq<T>>)
    requires shards != []
    ensures Gather(access, spec, shards) == [access(Evaluate(spec, shards[0]))] + Gather(access, spec, shards[1..])
  {
  }

  lemma GatherSnoc<T, R>(access: seq<T> -> R, spec: QuerySpec<T>, shards: seq<seq<T>>, rows: seq<T>)
    ensures Gather(access, spec, shards + [rows]) == Gather(access, spec, shards) + [access(Evaluate(spec, rows))]
  {
  }

  lemma ConcatCons<T>(shards: seq<seq<T>>)
    requires shards != []
    ensures Concat(shards) == shards[0] + Concat(shards[1..])
  {
  }

  lemma ValueSumAppend<T>(sel: T -> Option<int>, a: seq<T>, b: seq<T>)
    ensures ValueSum(sel, a + b) == ValueSum(sel, a) + ValueSum(sel, b)
  {
    if a != [] {
      assert (a + b)[1..] == a[1..] + b;
      ValueSumAppend(sel, a[1..], b);
    } else {
      assert a + b == b;
    }
  }

  lemma {:induction false} ValueSumInsert<T>(sel: T -> Option<int>, o: Ordering<T>, x: T, s: seq<T>)
    ensures ValueSum(sel, Insert(o, x, s)) == sel(x).GetOr(0) + ValueSum(sel, s)
  {
    if s != [] && Rank(o, x) > Rank(o, s[0]) {
      ValueSumInsert(sel, o, x, s[1..]);
    }
  }

  /** Ordering the rows does not change their sum. */
  lemma {:induction false} ValueSumArrange<T>(sel: T -> Option<int>, ordering: Option<Ordering<T>>, s: seq<T>)
    ensures ValueSum(sel, Arrange(ordering, s)) == ValueSum(sel, s)
  {
    if ordering.Some? && s != [] {
      ValueSumArrange(sel, ordering, s[1..]);
      ValueSumInsert(sel, ordering.value, s[0], SortBy(ordering.value, s[1..]));
    }
  }

  lemma ShardSumValue<T>(sel: T -> Option<int>, rows: seq<T>)
    ensures ShardSum(sel, rows).GetOr(0) == ValueSum(sel, rows)
  {
    if AllNull(sel, rows) {
      AllNullSumsToZero(sel, rows);
    }
  }

  lemma {:induction false} AllNullSumsToZero<T>(sel: T -> Option<int>, rows: seq<T>)
    requires AllNull(sel, rows)
    ensures ValueSum(sel, rows) == 0
  {
    if rows != [] {
      assert sel(rows[0]).None?;
      AllNullSumsToZero(sel, rows[1..]);
    }
  }

  lemma InConcat<T>(shards: seq<seq<T>>, x: T)
    ensures x in Concat(shards) <==> exists i :: 0 <= i < |shards| && x in shards[i]
  {
    if shards != [] {
      InConcat(shards[1..], x);
      if x in Concat(shards[1..]) {
        var i :| 0 <= i < |shards[1..]| && x in shards[1..][i];
        assert x in shards[i + 1];
      }
      forall i | 1 <= i < |shards| && x in shards[i] ensures x in Concat(shards[1..]) {
        assert shards[1..][i - 1] == shards[i];
      }
    }
  }

  /** A row the query yields on a table without skip/take is one of its matching rows and back. */
  lemma InUnpaged<T>(spec: QuerySpec<T>, rows: seq<T>, x: T)
    requires Unpaged(spec)
    ensures x in Evaluate(spec, rows) <==> x in rows && Satisfies(spec.filters, x)
  {
    UnpagedEvaluate(spec, rows);
    var m := Matching(spec.filters, rows);
    var e := Evaluate(spec, rows);
    assert multiset(e) == multiset(m);
    assert x in e <==> x in multiset(e);
    assert x in m <==> x in multiset(m);
    if x in m {
      var k :| 0 <= k < |m| && m[k] == x;
      assert x in multiset(rows);
    }
  }

  // ---------------------------------------------------------------------------
  // Count, Sum, Average
  // ---------------------------------------------------------------------------

  /** Count(): the sum of the per-shard counts is the number of matching rows of the whole table. */
  lemma {:induction false} CountAllIsTableCount<T>(spec: QuerySpec<T>, shards: seq<seq<T>>)
    requires Unpaged(spec)
    ensures CountAll(spec, shards) == |Matching(spec.filters, Concat(shards))|
  {
    if shards != [] {
      GatherCons(RowCount, spec, shards);
      var g := Gather(RowCount, spec, shards);
      assert g[1..] == Gather(RowCount, spec, shards[1..]);
      CountAllIsTableCount(spec, shards[1..]);
      UnpagedEvaluate(spec, shards[0]);
      ConcatCons(shards);
      MatchingAppend(spec.filters, shards[0], Concat(shards[1..]));
    }
  }

  /** Without filters, shards holding 5, 0 and 7 rows count 12 rows. */
  lemma CountExample<T>(shards: seq<seq<T>>)
    requires |shards| == 3 && |shards[0]| == 5 && |shards[1]| == 0 && |shards[2]| == 7
    ensures CountAll(Unfiltered<T>(), shards) == 12
  {
    CountAllIsTableCount(Unfiltered<T>(), shards);
    MatchingNoFilter(Concat(shards));
    ConcatCons(shards);
    ConcatCons(shards[1..]);
    ConcatCons(shards[2..]);
    assert shards[1..][1..] == shards[2..] && shards[2..][1..] == [];
  }

  /** Sum(selector): the sum of the per-shard sums is the sum over the whole table; nulls add nothing. */
  lemma {:induction false} SumAllIsTableSum<T>(sel: T -> Option<int>, spec: QuerySpec<T>, shards: seq<seq<T>>)
    requires Unpaged(spec)
    ensures SumAll(sel, spec, shards) == ValueSum(sel, Matching(spec.filters, Concat(shards)))
  {
    if shards != [] {
      var access := rows => ShardSum(sel, rows);
      GatherCons(access, spec, shards);
      var g := Gather(access, spec, shards);
      assert g[1..] == Gather(access, spec, shards[1..]);
      SumAllIsTableSum(sel, spec, shards[1..]);
      UnpagedEvaluate(spec, shards[0]);
      ShardSumValue(sel, Evaluate(spec, shards[0]));
      ValueSumArrange(sel, spec.ordering, Matching(spec.filters, shards[0]));
      ConcatCons(shards);
      MatchingAppend(spec.filters, shards[0], Concat(shards[1..]));
      ValueSumAppend(sel, Matching(spec.filters, shards[0]), Matching(spec.filters, Concat(shards[1..])));
    }
  }

  lemma {:induction false} AverageTotals<T>(sel: T -> Option<int>, spec: QuerySpec<T>, shards: seq<seq<T>>)
    requires Unpaged(spec)
    ensures CountTotal(Gather(rows => ShardCountAndSum(sel, rows), spec, shards))
      == |Matching(spec.filters, Concat(shards))|
    ensures SumTotal(Gather(rows => ShardCountAndSum(sel, rows), spec, shards))
      == ValueSum(sel, Matching(spec.filters, Concat(shards)))
  {
    if shards != [] {
      var access := rows => ShardCountAndSum(sel, rows);
      GatherCons(access, spec, shards);
      var g := Gather(access, spec, shards);
      assert g[1..] == Gather(access, spec, shards[1..]);
      AverageTotals(sel, spec, shards[1..]);
      UnpagedEvaluate(spec, shards[0]);
      ShardSumValue(sel, Evaluate(spec, shards[0]));
      ValueSumArrange(sel, spec.ordering, Matching(spec.filters, shards[0]));
      ConcatCons(shards);
      MatchingAppend(spec.filters, shards[0], Concat(shards[1..]));
      ValueSumAppend(sel, Matching(spec.filters, shards[0]), Matching(spec.filters, Concat(shards[1..])));
    }
  }

  /**
   * Average(selector) is the weighted mean over the whole table: the sum of all values divided
   * by the number of matching rows, null-valued rows included in the count; no matching row at
   * all makes the decimal division throw.
   */
  lemma AverageAllIsWeightedMean<T>(sel: T -> Option<int>, spec: QuerySpec<T>, shards: seq<seq<T>>)
    requires Unpaged(spec)
    ensures var m := Matching(spec.filters, Concat(shards));
      AverageAll(sel, spec, shards)
        == if |m| == 0 then Err(DivideByZero) else Ok(ValueSum(sel, m) as real / |m| as real)
  {
    AverageTotals(sel, spec, shards);
  }

  /** A non-nullable int column read as a nullable one. */
  function IntValue(x: int): Option<int> {
    Some(x)
  }

  lemma TenOverFour(sum: int, count: int)
    requires sum == 10 && count == 4
    ensures sum as real / count as real == 2.5
  {
  }

  lemma ValueSumTenZeros()
    ensures ValueSum(IntValue, [10, 0, 0, 0]) == 10
  {
    var u: seq<int> := [10, 0, 0, 0];
    assert ValueSum(IntValue, u[3..]) == 0;
    assert ValueSum(IntValue, u[2..]) == 0 + ValueSum(IntValue, u[3..]);
    assert ValueSum(IntValue, u[1..]) == 0 + ValueSum(IntValue, u[2..]);
  }

  /** However the rows 10, 0, 0, 0 are spread over the shards, their average is 2.5. */
  lemma AverageOfSpreadRows(shards: seq<seq<int>>)
    requires Concat(shards) == [10, 0, 0, 0]
    ensures AverageAll(IntValue, Unfiltered<int>(), shards) == Ok(2.5)
  {
    var u: seq<int> := [10, 0, 0, 0];
    AverageAllIsWeightedMean(IntValue, Unfiltered<int>(), shards);
    ValueSumTenZeros();
    MatchingNoFilter(u);
    var m := Matching(Unfiltered<int>().filters, Concat(shards));
    assert m == u;
    TenOverFour(ValueSum(IntValue, m), |m|);
  }

  /** One row of 10 on one shard and three rows of 0 on another average to 2.5, not to 5. */
  lemma AverageWeightedExample()
    ensures AverageAll(IntValue, Unfiltered<int>(), [[10], [0, 0, 0]]) == Ok(2.5)
  {
    var shards: seq<seq<int>> := [[10], [0, 0, 0]];
    assert shards[1..] == [[0, 0, 0]];
    assert Concat(shards[1..]) == [0, 0, 0] + Concat(shards[2..]);
    AverageOfSpreadRows(shards);
  }

  // ---------------------------------------------------------------------------
  // Max, Min
  // ---------------------------------------------------------------------------

  /** m is the largest selected value among the rows of u that pass the filters. */
  ghost predicate IsTableMax<T>(sel: T -> int, filters: seq<T -> bool>, u: seq<T>, m: int) {
    && (exists x :: x in u && Satisfies(filters, x) && sel(x) == m)
    && (forall x :: x in u && Satisfies(filters, x) ==> sel(x) <= m)
  }

  /** m is the smallest selected value among the rows of u that pass the filters. */
  ghost predicate IsTableMin<T>(sel: T -> int, filters: seq<T -> bool>, u: seq<T>, m: int) {
    && (exists x :: x in u && Satisfies(filters, x) && sel(x) == m)
    && (forall x :: x in u && Satisfies(filters, x) ==> m <= sel(x))
  }

  lemma ShardMaxIsMax<T>(sel: T -> int, spec: QuerySpec<T>, rows: seq<T>)
    requires Unpaged(spec)
    ensures var r := ShardMax(sel, Evaluate(spec, rows));
      && (r.Ok? <==> Matching(spec.filters, rows) != [])
      && (r.Err? ==> r.error == EmptySequence)
      && (r.Ok? ==> IsTableMax(sel, spec.filters, rows, r.value))
  {
    UnpagedEvaluate(spec, rows);
    var e := Evaluate(spec, rows);
    var r := ShardMax(sel, e);
    if r.Ok? {
      var k :| 0 <= k < |e| && Select(sel, e)[k] == r.value;
      InUnpaged(spec, rows, e[k]);
      forall x | x in rows && Satisfies(spec.filters, x) ensures sel(x) <= r.value {
        InUnpaged(spec, rows, x);
        var j :| 0 <= j < |e| && e[j] == x;
        assert Select(sel, e)[j] == sel(x);
      }
    }
  }

  lemma ShardMinIsMin<T>(sel: T -> int, spec: QuerySpec<T>, rows: seq<T>)
    requires Unpaged(spec)
    ensures var r := ShardMin(sel, Evaluate(spec, rows));
      && (r.Ok? <==> Matching(spec.filters, rows) != [])
      && (r.Err? ==> r.error == EmptySequence)
      && (r.Ok? ==> IsTableMin(sel, spec.filters, rows, r.value))
  {
    UnpagedEvaluate(spec, rows);
    var e := Evaluate(spec, rows);
    var r := ShardMin(sel, e);
    if r.Ok? {
      var k :| 0 <= k < |e| && Select(sel, e)[k] == r.value;
      InUnpaged(spec, rows, e[k]);
      forall x | x in rows && Satisfies(spec.filters, x) ensures r.value <= sel(x) {
        InUnpaged(spec, rows, x);
        var j :| 0 <= j < |e| && e[j] == x;
        assert Select(sel, e)[j] == sel(x);
      }
    }
  }

  /** What each shard's x.Max(selector) says about that shard's matching rows. */
  lemma ShardMaxima<T>(sel: T -> int, spec: QuerySpec<T>, shards: seq<seq<T>>)
    requires Unpaged(spec)
    ensures var ps := Gather(rows => ShardMax(sel, rows), spec, shards);
      forall i :: 0 <= i < |shards| ==>
        && (ps[i].Ok? <==> Matching(spec.filters, shards[i]) != [])
        && (ps[i].Err? ==> ps[i].error == EmptySequence)
        && (ps[i].Ok? ==> IsTableMax(sel, spec.filters, shards[i], ps[i].value))
  {
    var ps := Gather(rows => ShardMax(sel, rows), spec, shards);
    forall i | 0 <= i < |shards|
      ensures ps[i].Ok? <==> Matching(spec.filters, shards[i]) != []
      ensures ps[i].Err? ==> ps[i].error == EmptySequence
      ensures ps[i].Ok? ==> IsTableMax(sel, spec.filters, shards[i], ps[i].value)
    {
      ShardMaxIsMax(sel, spec, shards[i]);
    }
  }

  /** What each shard's x.Min(selector) says about that shard's matching rows. */
  lemma ShardMinima<T>(sel: T -> int, spec: QuerySpec<T>, shards: seq<seq<T>>)
    requires Unpaged(spec)
    ensures var ps := Gather(rows => ShardMin(sel, rows), spec, shards);
      forall i :: 0 <= i < |shards| ==>
        && (ps[i].Ok? <==> Matching(spec.filters, shards[i]) != [])
        && (ps[i].Err? ==> ps[i].error == EmptySequence)
        && (ps[i].Ok? ==> IsTableMin(sel, spec.filters, shards[i], ps[i].value))
  {
    var ps := Gather(rows => ShardMin(sel, rows), spec, shards);
    forall i | 0 <= i < |shards|
      ensures ps[i].Ok? <==> Matching(spec.filters, shards[i]) != []
      ensures ps[i].Err? ==> ps[i].error == EmptySequence
      ensures ps[i].Ok? ==> IsTableMin(sel, spec.filters, shards[i], ps[i].value)
    {
      ShardMinIsMin(sel, spec, shards[i]);
    }
  }

  /** The largest of per-shard maxima is the maximum over all shards' rows. */
  lemma MaxMergeOfShards<T>(sel: T -> int, filters: seq<T -> bool>, shards: seq<seq<T>>, ps: seq<Result<int>>)
    requires |ps| == |shards|
    requires forall i :: 0 <= i < |ps| ==>
      (ps[i].Err? ==> ps[i].error == EmptySequence) && (ps[i].Ok? ==> IsTableMax(sel, filters, shards[i], ps[i].value))
    ensures MaxMerge(ps).Ok? <==> |ps| > 0 && forall i :: 0 <= i < |ps| ==> ps[i].Ok?
    ensures MaxMerge(ps).Err? ==> MaxMerge(ps).error == EmptySequence
    ensures MaxMerge(ps).Ok? ==> IsTableMax(sel, filters, Concat(shards), MaxMerge(ps).value)
  {
    var c := Collect(ps);
    if c.Ok? && c.value != [] {
      var m := Largest(c.value).value;
      var i :| 0 <= i < |c.value| && c.value[i] == m;
      var x :| x in shards[i] && Satisfies(filters, x) && sel(x) == m;
      InConcat(shards, x);
      forall y | y in Concat(shards) && Satisfies(filters, y) ensures sel(y) <= m {
        InConcat(shards, y);
        var j :| 0 <= j < |shards| && y in shards[j];
        assert sel(y) <= c.value[j];
      }
    }
  }

  /** The smallest of per-shard minima is the minimum over all shards' rows. */
  lemma MinMergeOfShards<T>(sel: T -> int, filters: seq<T -> bool>, shards: seq<seq<T>>, ps: seq<Result<int>>)
    requires |ps| == |shards|
    requires forall i :: 0 <= i < |ps| ==>
      (ps[i].Err? ==> ps[i].error == EmptySequence) && (ps[i].Ok? ==> IsTableMin(sel, filters, shards[i], ps[i].value))
    ensures MinMerge(ps).Ok? <==> |ps| > 0 && forall i :: 0 <= i < |ps| ==> ps[i].Ok?
    ensures MinMerge(ps).Err? ==> MinMerge(ps).error == EmptySequence
    ensures MinMerge(ps).Ok? ==> IsTableMin(sel, filters, Concat(shards), MinMerge(ps).value)
  {
    var c := Collect(ps);
    if c.Ok? && c.value != [] {
      var m := Smallest(c.value).value;
      var i :| 0 <= i < |c.value| && c.value[i] == m;
      var x :| x in shards[i] && Satisfies(filters, x) && sel(x) == m;
      InConcat(shards, x);
      forall y | y in Concat(shards) && Satisfies(filters, y) ensures m <= sel(y) {
        InConcat(shards, y);
        var j :| 0 <= j < |shards| && y in shards[j];
        assert c.value[j] <= sel(y);
      }
    }
  }

  /**
   * Max(selector): it succeeds iff there is a shard and every shard has a matching row, and then
   * it is the largest selected value over all matching rows of the whole table.
   */
  lemma MaxAllIsTableMax<T>(sel: T -> int, spec: QuerySpec<T>, shards: seq<seq<T>>)
    requires Unpaged(spec)
    ensures MaxAll(sel, spec, shards).Ok?
      <==> |shards| > 0 && forall i :: 0 <= i < |shards| ==> Matching(spec.filters, shards[i]) != []
    ensures MaxAll(sel, spec, shards).Err? ==> MaxAll(sel, spec, shards).error == EmptySequence
    ensures MaxAll(sel, spec, shards).Ok? ==>
      IsTableMax(sel, spec.filters, Concat(shards), MaxAll(sel, spec, shards).value)
  {
    ShardMaxima(sel, spec, shards);
    MaxMergeOfShards(sel, spec.filters, shards, Gather(rows => ShardMax(sel, rows), spec, shards));
  }

  /**
   * Min(selector): it succeeds iff there is a shard and every shard has a matching row, and then
   * it is the smallest selected value over all matching rows of the whole table.
   */
  lemma MinAllIsTableMin<T>(sel: T -> int, spec: QuerySpec<T>, shards: seq<seq<T>>)
    requires Unpaged(spec)
    ensures MinAll(sel, spec, shards).Ok?
      <==> |shards| > 0 && forall i :: 0 <= i < |shards| ==> Matching(spec.filters, shards[i]) != []
    ensures MinAll(sel, spec, shards).Err? ==> MinAll(sel, spec, shards).error == EmptySequence
    ensures MinAll(sel, spec, shards).Ok? ==>
      IsTableMin(sel, spec.filters, Concat(shards), MinAll(sel, spec, shards).value)
  {
    ShardMinima(sel, spec, shards);
    MinMergeOfShards(sel, spec.filters, shards, Gather(rows => ShardMin(sel, rows), spec, shards));
  }

  /** A shard without a matching row makes Max throw even when other shards have rows. */
  lemma MaxEmptyShardExample()
    ensures MaxAll(x => x, Unfiltered<int>(), [[], [5]]) == Err(EmptySequence)
  {
    var shards: seq<seq<int>> := [[], [5]];
    MaxAllIsTableMax(x => x, Unfiltered<int>(), shards);
    assert Matching(Unfiltered<int>().filters, shards[0]) == [];
  }

  /** No row of u that passes the filters has a value in the nullable column. */
  ghost predicate NoValue<T>(sel: T -> Option<int>, filters: seq<T -> bool>, u: seq<T>) {
    forall x :: x in u && Satisfies(filters, x) ==> sel(x).None?
  }

  /** m is the largest value of the nullable column among the rows of u that pass the filters. */
  ghost predicate IsTableMaxValue<T>(sel: T -> Option<int>, filters: seq<T -> bool>, u: seq<T>, m: int) {
    && (exists x :: x in u && Satisfies(filters, x) && sel(x) == Some(m))
    && (forall x :: x in u && Satisfies(filters, x) && sel(x).Some? ==> sel(x).value <= m)
  }

  /** m is the smallest value of the nullable column among the rows of u that pass the filters. */
  ghost predicate IsTableMinValue<T>(sel: T -> Option<int>, filters: seq<T -> bool>, u: seq<T>, m: int) {
    && (exists x :: x in u && Satisfies(filters, x) && sel(x) == Some(m))
    && (forall x :: x in u && Satisfies(filters, x) && sel(x).Some? ==> m <= sel(x).value)
  }

  /** SQL MAX over a list: null iff no row has a value, otherwise the largest value of a row. */
  lemma MaxOrNullOfRows<T>(sel: T -> Option<int>, e: seq<T>)
    ensures var r := ShardMaxOrNull(sel, e);
      && (r.None? <==> forall k :: 0 <= k < |e| ==> sel(e[k]).None?)
      && (r.Some? ==> exists k :: 0 <= k < |e| && sel(e[k]) == r)
      && (r.Some? ==> forall k :: 0 <= k < |e| && sel(e[k]).Some? ==> sel(e[k]).value <= r.value)
  {
    var vs := Present(sel, e);
    if vs != [] {
      var i :| 0 <= i < |vs| && vs[i] == Largest(vs).value;
    }
  }

  /** SQL MIN over a list: null iff no row has a value, otherwise the smallest value of a row. */
  lemma MinOrNullOfRows<T>(sel: T -> Option<int>, e: seq<T>)
    ensures var r := ShardMinOrNull(sel, e);
      && (r.None? <==> forall k :: 0 <= k < |e| ==> sel(e[k]).None?)
      && (r.Some? ==> exists k :: 0 <= k < |e| && sel(e[k]) == r)
      && (r.Some? ==> forall k :: 0 <= k < |e| && sel(e[k]).Some? ==> r.value <= sel(e[k]).value)
  {
    var vs := Present(sel, e);
    if vs != [] {
      var i :| 0 <= i < |vs| && vs[i] == Smallest(vs).value;
    }
  }

  lemma ShardMaxOrNullIsMax<T>(sel: T -> Option<int>, spec: QuerySpec<T>, rows: seq<T>)
    requires Unpaged(spec)
    ensures var r := ShardMaxOrNull(sel, Evaluate(spec, rows));
      && (r.None? <==> NoValue(sel, spec.filters, rows))
      && (r.Some? ==> IsTableMaxValue(sel, spec.filters, rows, r.value))
  {
    var e := Evaluate(spec, rows);
    var r := ShardMaxOrNull(sel, e);
    MaxOrNullOfRows(sel, e);
    if r.Some? {
      var k :| 0 <= k < |e| && sel(e[k]) == r;
      InUnpaged(spec, rows, e[k]);
      forall x | x in rows && Satisfies(spec.filters, x) && sel(x).Some? ensures sel(x).value <= r.value {
        InUnpaged(spec, rows, x);
      }
    } else {
      forall x | x in rows && Satisfies(spec.filters, x) ensures sel(x).None? {
        InUnpaged(spec, rows, x);
      }
    }
  }

  lemma ShardMinOrNullIsMin<T>(sel: T -> Option<int>, spec: QuerySpec<T>, rows: seq<T>)
    requires Unpaged(spec)
    ensures var r := ShardMinOrNull(sel, Evaluate(spec, rows));
      && (r.None? <==> NoValue(sel, spec.filters, rows))
      && (r.Some? ==> IsTableMinValue(sel, spec.filters, rows, r.value))
  {
    var e := Evaluate(spec, rows);
    var r := ShardMinOrNull(sel, e);
    MinOrNullOfRows(sel, e);
    if r.Some? {
      var k :| 0 <= k < |e| && sel(e[k]) == r;
      InUnpaged(spec, rows, e[k]);
      forall x | x in rows && Satisfies(spec.filters, x) && sel(x).Some? ensures r.value <= sel(x).value {
        InUnpaged(spec, rows, x);
      }
    } else {
      forall x | x in rows && Satisfies(spec.filters, x) ensures sel(x).None? {
        InUnpaged(spec, rows, x);
      }
    }
  }

  /** The largest of the non-null per-shard maxima is the maximum over all shards' rows. */
  lemma MaxOrNullMergeOfShards<T>(sel: T -> Option<int>, filters: seq<T -> bool>, shards: seq<seq<T>>, ps: seq<Option<int>>)
    requires |ps| == |shards|
    requires forall i :: 0 <= i < |ps| ==>
      (ps[i].None? <==> NoValue(sel, filters, shards[i])) && (ps[i].Some? ==> IsTableMaxValue(sel, filters, shards[i], ps[i].value))
    ensures MaxOrNullMerge(ps).None? <==> NoValue(sel, filters, Concat(shards))
    ensures MaxOrNullMerge(ps).Some? ==> IsTableMaxValue(sel, filters, Concat(shards), MaxOrNullMerge(ps).value)
  {
    var r := MaxOrNullMerge(ps);
    if r.Some? {
      var i :| 0 <= i < |ps| && ps[i] == r;
      var x :| x in shards[i] && Satisfies(filters, x) && sel(x) == Some(r.value);
      InConcat(shards, x);
      forall y | y in Concat(shards) && Satisfies(filters, y) && sel(y).Some? ensures sel(y).value <= r.value {
        InConcat(shards, y);
        var j :| 0 <= j < |shards| && y in shards[j];
        assert !NoValue(sel, filters, shards[j]);
      }
    } else {
      forall y | y in Concat(shards) && Satisfies(filters, y) ensures sel(y).None? {
        InConcat(shards, y);
        var j :| 0 <= j < |shards| && y in shards[j];
        assert NoValue(sel, filters, shards[j]);
      }
    }
  }

  /** The smallest of the non-null per-shard minima is the minimum over all shards' rows. */
  lemma MinOrNullMergeOfShards<T>(sel: T -> Option<int>, filters: seq<T -> bool>, shards: seq<seq<T>>, ps: seq<Option<int>>)
    requires |ps| == |shards|
    requires forall i :: 0 <= i < |ps| ==>
      (ps[i].None? <==> NoValue(sel, filters, shards[i])) && (ps[i].Some? ==> IsTableMinValue(sel, filters, shards[i], ps[i].value))
    ensures MinOrNullMerge(ps).None? <==> NoValue(sel, filters, Concat(shards))
    ensures MinOrNullMerge(ps).Some? ==> IsTableMinValue(sel, filters, Concat(shards), MinOrNullMerge(ps).value)
  {
    var r := MinOrNullMerge(ps);
    if r.Some? {
      var i :| 0 <= i < |ps| && ps[i] == r;
      var x :| x in shards[i] && Satisfies(filters, x) && sel(x) == Some(r.value);
      InConcat(shards, x);
      forall y | y in Concat(shards) && Satisfies(filters, y) && sel(y).Some? ensures r.value <= sel(y).value {
        InConcat(shards, y);
        var j :| 0 <= j < |shards| && y in shards[j];
        assert !NoValue(sel, filters, shards[j]);
      }
    } else {
      forall y | y in Concat(shards) && Satisfies(filters, y) ensures sel(y).None? {
        InConcat(shards, y);
        var j :| 0 <= j < |shards| && y in shards[j];
        assert NoValue(sel, filters, shards[j]);
      }
    }
  }

  /**
   * Max(selector) over a nullable column: null iff no matching row of the whole table has a
   * value, and otherwise the largest value over the whole table; a shard without rows is skipped.
   */
  lemma MaxOrNullAllIsTableMax<T>(sel: T -> Option<int>, spec: QuerySpec<T>, shards: seq<seq<T>>)
    requires Unpaged(spec)
    ensures MaxOrNullAll(sel, spec, shards).None? <==> NoValue(sel, spec.filters, Concat(shards))
    ensures MaxOrNullAll(sel, spec, shards).Some? ==>
      IsTableMaxValue(sel, spec.filters, Concat(shards), MaxOrNullAll(sel, spec, shards).value)
  {
    var ps := Gather(rows => ShardMaxOrNull(sel, rows), spec, shards);
    forall i | 0 <= i < |shards|
      ensures ps[i].None? <==> NoValue(sel, spec.filters, shards[i])
      ensures ps[i].Some? ==> IsTableMaxValue(sel, spec.filters, shards[i], ps[i].value)
    {
      ShardMaxOrNullIsMax(sel, spec, shards[i]);
    }
    MaxOrNullMergeOfShards(sel, spec.filters, shards, ps);
  }

  /**
   * Min(selector) over a nullable column: null iff no matching row of the whole table has a
   * value, and otherwise the smallest value over the whole table; a shard without rows is skipped.
   */
  lemma MinOrNullAllIsTableMin<T>(sel: T -> Option<int>, spec: QuerySpec<T>, shards: seq<seq<T>>)
    requires Unpaged(spec)
    ensures MinOrNullAll(sel, spec, shards).None? <==> NoValue(sel, spec.filters, Concat(shards))
    ensures MinOrNullAll(sel, spec, shards).Some? ==>
      IsTableMinValue(sel, spec.filters, Concat(shards), MinOrNullAll(sel, spec, shards).value)
  {
    var ps := Gather(rows => ShardMinOrNull(sel, rows), spec, shards);
    forall i | 0 <= i < |shards|
      ensures ps[i].None? <==> NoValue(sel, spec.filters, shards[i])
      ensures ps[i].Some? ==> IsTableMinValue(sel, spec.filters, shards[i], ps[i].value)
    {
      ShardMinOrNullIsMin(sel, spec, shards[i]);
    }
    MinOrNullMergeOfShards(sel, spec.filters, shards, ps);
  }

  /** Over a nullable column, a shard without rows is skipped: shards [] and [5] give 5. */
  lemma MaxOrNullEmptyShardExample()
    ensures MaxOrNullAll(IntValue, Unfiltered<int>(), [[], [5]]) == Some(5)
  {
    var shards: seq<seq<int>> := [[], [5]];
    assert Concat(shards) == [5] by {
      assert shards[1..] == [[5]];
      assert Concat(shards[1..]) == [5] + Concat(shards[2..]);
    }
    MaxOrNullWhenTableIsFive(shards);
  }

  lemma MaxOrNullWhenTableIsFive(shards: seq<seq<int>>)
    requires Concat(shards) == [5]
    ensures MaxOrNullAll(IntValue, Unfiltered<int>(), shards) == Some(5)
  {
    MaxOrNullAllIsTableMax(IntValue, Unfiltered<int>(), shards);
    MaxOrNullOfFive(MaxOrNullAll(IntValue, Unfiltered<int>(), shards));
  }

  /** On the unfiltered table [5], SQL MAX of the values is 5. */
  lemma MaxOrNullOfFive(r: Option<int>)
    requires r.None? <==> NoValue(IntValue, Unfiltered<int>().filters, [5])
    requires r.Some? ==> IsTableMaxValue(IntValue, Unfiltered<int>().filters, [5], r.value)
    ensures r == Some(5)
  {
    assert Satisfies(Unfiltered<int>().filters, 5);
    assert 5 in [5];
  }

  // ---------------------------------------------------------------------------
  // Any, FirstOrDefault
  // ---------------------------------------------------------------------------

  /** One shard answers Any(p) with true iff it has a row passing the filters and p. */
  lemma ShardAny<T>(p: T -> bool, spec: QuerySpec<T>, rows: seq<T>)
    requires Unpaged(spec)
    ensures HasRows(Evaluate(WithFilter(spec, p), rows))
      <==> exists x :: x in rows && Satisfies(spec.filters, x) && p(x)
  {
    var spec' := WithFilter(spec, p);
    var e := Evaluate(spec', rows);
    if e != [] {
      InUnpaged(spec', rows, e[0]);
      WithFilterSatisfies(spec, p, e[0]);
    }
    forall x | x in rows && Satisfies(spec.filters, x) && p(x) ensures e != [] {
      WithFilterSatisfies(spec, p, x);
      InUnpaged(spec', rows, x);
    }
  }

  /** Any(p) is true iff some row of the whole table passes the filters and p; false with no shards. */
  lemma AnyAllIsTableAny<T>(p: T -> bool, spec: QuerySpec<T>, shards: seq<seq<T>>)
    requires Unpaged(spec)
    ensures AnyAll(p, spec, shards)
      <==> exists x :: x in Concat(shards) && Satisfies(spec.filters, x) && p(x)
  {
    var bs := Gather(HasRows, WithFilter(spec, p), shards);
    forall i | 0 <= i < |shards|
      ensures bs[i] <==> exists x :: x in shards[i] && Satisfies(spec.filters, x) && p(x)
    {
      ShardAny(p, spec, shards[i]);
    }
    if AnyAll(p, spec, shards) {
      var i :| 0 <= i < |bs| && bs[i];
      var x :| x in shards[i] && Satisfies(spec.filters, x) && p(x);
      InConcat(shards, x);
    }
    forall x | x in Concat(shards) && Satisfies(spec.filters, x) && p(x) ensures AnyAll(p, spec, shards) {
      InConcat(shards, x);
      var i :| 0 <= i < |shards| && x in shards[i];
      assert bs[i];
    }
  }

  /**
   * FirstOrDefault() is null iff every shard yields no row; otherwise it is the first row of the
   * first shard, in shard-list order, that yields one.
   */
  lemma FirstAllIsFirstNonEmptyShard<T>(spec: QuerySpec<T>, shards: seq<seq<T>>)
    ensures FirstAll(spec, shards).None? <==> forall i :: 0 <= i < |shards| ==> Evaluate(spec, shards[i]) == []
    ensures FirstAll(spec, shards).Some? ==>
      exists i :: 0 <= i < |shards| && Evaluate(spec, shards[i]) != []
        && Evaluate(spec, shards[i])[0] == FirstAll(spec, shards).value
        && forall j :: 0 <= j < i ==> Evaluate(spec, shards[j]) == []
  {
    FirstAllNone(spec, shards);
    FirstAllSome(spec, shards);
  }

  lemma FirstAllNone<T>(spec: QuerySpec<T>, shards: seq<seq<T>>)
    ensures FirstAll(spec, shards).None? <==> forall i :: 0 <= i < |shards| ==> Evaluate(spec, shards[i]) == []
  {
    var lists := seq(|shards|, i requires 0 <= i < |shards| => Evaluate(spec, shards[i]));
    FirstOfLists(Gather(FirstRow, spec, shards), lists);
  }

  lemma FirstAllSome<T>(spec: QuerySpec<T>, shards: seq<seq<T>>)
    ensures FirstAll(spec, shards).Some? ==>
      exists i :: 0 <= i < |shards| && Evaluate(spec, shards[i]) != []
        && Evaluate(spec, shards[i])[0] == FirstAll(spec, shards).value
        && forall j :: 0 <= j < i ==> Evaluate(spec, shards[j]) == []
  {
    var lists := seq(|shards|, i requires 0 <= i < |shards| => Evaluate(spec, shards[i]));
    FirstOfLists(Gather(FirstRow, spec, shards), lists);
  }

  /** The first non-null of the lists' first rows comes from the first non-empty list. */
  lemma FirstOfLists<T>(xs: seq<Option<T>>, lists: seq<seq<T>>)
    requires |xs| == |lists| && forall i :: 0 <= i < |xs| ==> xs[i] == FirstRow(lists[i])
    ensures FirstNonNull(xs).None? <==> forall i :: 0 <= i < |lists| ==> lists[i] == []
    ensures FirstNonNull(xs).Some? ==>
      exists i :: 0 <= i < |lists| && lists[i] != [] && lists[i][0] == FirstNonNull(xs).value
        && forall j :: 0 <= j < i ==> lists[j] == []
  {
    FirstNonNullIsFirst(xs);
    var r := FirstNonNull(xs);
    if r.Some? {
      var i :| 0 <= i < |xs| && xs[i] == r && forall j :: 0 <= j < i ==> xs[j].None?;
      assert lists[i][0] == r.value;
    }
  }

  /** Without an ordering or paging, FirstOrDefault() is the first matching row of the whole table. */
  lemma {:induction false} FirstAllIsTableFirst<T>(spec: QuerySpec<T>, shards: seq<seq<T>>)
    requires Unpaged(spec) && spec.ordering.None?
    ensures FirstAll(spec, shards) == FirstRow(Matching(spec.filters, Concat(shards)))
  {
    if shards != [] {
      FirstAllIsTableFirst(spec, shards[1..]);
      GatherCons(FirstRow, spec, shards);
      var xs := Gather(FirstRow, spec, shards);
      assert xs[1..] == Gather(FirstRow, spec, shards[1..]);
      UnpagedEvaluate(spec, shards[0]);
      ConcatCons(shards);
      MatchingAppend(spec.filters, shards[0], Concat(shards[1..]));
      if xs[0].None? {
        assert RemoveNulls(xs) == RemoveNulls(xs[1..]);
      } else {
        assert RemoveNulls(xs)[0] == xs[0].value;
      }
    }
  }

  // ---------------------------------------------------------------------------
  // ToList: scatter-gather pagination
  // ---------------------------------------------------------------------------

  /** Re-sorting the shards' sorted lists gives the sorted whole table. */
  lemma {:induction false} SortedShardsResort<T>(o: Ordering<T>, q: QuerySpec<T>, shards: seq<seq<T>>)
    requires q.ordering == Some(o) && Unpaged(q)
    ensures SortBy(o, Concat(Gather(RowList, q, shards))) == SortBy(o, Matching(q.filters, Concat(shards)))
  {
    if shards != [] {
      var rest := Gather(RowList, q, shards[1..]);
      var m0, mr := Matching(q.filters, shards[0]), Matching(q.filters, Concat(shards[1..]));
      GatherCons(RowList, q, shards);
      assert Gather(RowList, q, shards)[1..] == rest;
      UnpagedEvaluate(q, shards[0]);
      SortedShardsResort(o, q, shards[1..]);
      SortAppend(o, SortBy(o, m0), Concat(rest));
      SortSorted(o, SortBy(o, m0));
      ConcatCons(shards);
      MatchingAppend(q.filters, shards[0], Concat(shards[1..]));
      SortAppend(o, m0, mr);
    }
  }

  /** The first n rows of the re-sorted capped shard lists are the first n of the sorted whole table. */
  lemma {:induction false} CappedShardsResort<T>(o: Ordering<T>, n: nat, q: QuerySpec<T>, shards: seq<seq<T>>)
    requires q.ordering == Some(o) && q.skip.None? && q.take == Some(n)
    ensures Take(n, SortBy(o, Concat(Gather(RowList, q, shards))))
      == Take(n, SortBy(o, Matching(q.filters, Concat(shards))))
  {
    if shards != [] {
      var rest := Gather(RowList, q, shards[1..]);
      var m0, mr := Matching(q.filters, shards[0]), Matching(q.filters, Concat(shards[1..]));
      var s0 := SortBy(o, m0);
      GatherCons(RowList, q, shards);
      assert Gather(RowList, q, shards)[1..] == rest;
      assert Evaluate(q, shards[0]) == Take(n, s0) by {
        assert Drop(0, s0) == s0;
      }
      CappedShardsResort(o, n, q, shards[1..]);
      SortAppend(o, Take(n, s0), Concat(rest));
      TakeSorted(o, n, s0);
      SortSorted(o, Take(n, s0));
      TakeMerge(o, n, n, n, Take(n, s0), SortBy(o, Concat(rest)));
      TakeTake(n, n, s0);
      ConcatCons(shards);
      MatchingAppend(q.filters, shards[0], Concat(shards[1..]));
      SortAppend(o, m0, mr);
      TakeMerge(o, n, n, n, s0, SortBy(o, mr));
    }
  }

  /** Unordered, the shards' lists appended in shard order are the table's matching rows. */
  lemma {:induction false} ShardsAppend<T>(q: QuerySpec<T>, shards: seq<seq<T>>)
    requires q.ordering.None? && Unpaged(q)
    ensures Concat(Gather(RowList, q, shards)) == Matching(q.filters, Concat(shards))
  {
    if shards != [] {
      GatherCons(RowList, q, shards);
      assert Gather(RowList, q, shards)[1..] == Gather(RowList, q, shards[1..]);
      UnpagedEvaluate(q, shards[0]);
      ShardsAppend(q, shards[1..]);
      ConcatCons(shards);
      MatchingAppend(q.filters, shards[0], Concat(shards[1..]));
    }
  }

  /** Unordered, the first n rows of the capped shard lists are the first n matching rows of the table. */
  lemma {:induction false} CappedShardsAppend<T>(n: nat, q: QuerySpec<T>, shards: seq<seq<T>>)
    requires q.ordering.None? && q.skip.None? && q.take == Some(n)
    ensures Take(n, Concat(Gather(RowList, q, shards))) == Take(n, Matching(q.filters, Concat(shards)))
  {
    if shards != [] {
      var rest := Gather(RowList, q, shards[1..]);
      var m0, mr := Matching(q.filters, shards[0]), Matching(q.filters, Concat(shards[1..]));
      GatherCons(RowList, q, shards);
      assert Gather(RowList, q, shards)[1..] == rest;
      assert Evaluate(q, shards[0]) == Take(n, m0) by {
        assert Drop(0, m0) == m0;
      }
      CappedShardsAppend(n, q, shards[1..]);
      TakeAppend(n, n, n, Take(n, m0), Concat(rest));
      TakeTake(n, n, m0);
      ConcatCons(shards);
      MatchingAppend(q.filters, shards[0], Concat(shards[1..]));
      TakeAppend(n, n, n, m0, mr);
    }
  }

  /** Window(skip, take, x) only depends on the first skip + take rows of x. */
  lemma WindowPrefix<T>(skip: nat, t: nat, x: seq<T>, y: seq<T>)
    requires Take(skip + t, x) == Take(skip + t, y)
    ensures Window(skip, Some(t), x) == Window(skip, Some(t), y)
  {
    TakeDropPrefix(skip, t, x);
    TakeDropPrefix(skip, t, y);
  }

  /**
   * The cap every shard gets, skip + take with the counts as written, reaches the end of the
   * requested window: there is no take, the take asks for nothing, or the skip is not negative.
   */
  predicate CapCoversWindow<T>(spec: QuerySpec<T>) {
    spec.take.None? || spec.take.value <= 0 || SkipCount(spec) >= 0
  }

  /** Without a take, the merged shard lists and the table's matching rows arrange alike. */
  lemma ToListArrangedUncapped<T>(spec: QuerySpec<T>, shards: seq<seq<T>>)
    requires spec.take.None?
    ensures Arrange(spec.ordering, Concat(Gather(RowList, ShardQuery(spec), shards)))
      == Arrange(spec.ordering, Matching(spec.filters, Concat(shards)))
  {
    var q := ShardQuery(spec);
    assert Unpaged(q);
    if spec.ordering.Some? {
      SortedShardsResort(spec.ordering.value, q, shards);
    } else {
      ShardsAppend(q, shards);
    }
  }

  /** With every shard capped at skip + take, the two arrangements agree on their first skip + take rows. */
  lemma ToListArrangedCapped<T>(spec: QuerySpec<T>, shards: seq<seq<T>>)
    requires spec.take.Some? && spec.take.value >= 0 && SkipCount(spec) >= 0
    ensures Take(SkipCount(spec) + spec.take.value, Arrange(spec.ordering, Concat(Gather(RowList, ShardQuery(spec), shards))))
      == Take(SkipCount(spec) + spec.take.value, Arrange(spec.ordering, Matching(spec.filters, Concat(shards))))
  {
    var q := ShardQuery(spec);
    var n: nat := SkipCount(spec) + spec.take.value;
    assert q.take == Some(n);
    if spec.ordering.Some? {
      CappedShardsResort(spec.ordering.value, n, q, shards);
    } else {
      CappedShardsAppend(n, q, shards);
    }
  }

  /**
   * ToList: stripping skip/take, capping every shard at skip + take rows, appending the shard
   * lists, re-sorting, skipping and taking yields exactly what the query yields on the one
   * unpartitioned table (its matching rows in order, sliced to [skip, skip + take)) whenever
   * the cap reaches the end of that slice.
   */
  lemma ToListAllIsTableQuery<T>(spec: QuerySpec<T>, shards: seq<seq<T>>)
    requires CapCoversWindow(spec)
    ensures ToListAll(spec, shards) == Evaluate(spec, Concat(shards))
  {
    if spec.take.Some? && spec.take.value <= 0 {
      ToListEmptyTake(spec, shards);
    } else if spec.take.None? {
      ToListUncapped(spec, shards);
    } else {
      ToListCapped(spec, shards);
    }
  }

  lemma ToListEmptyTake<T>(spec: QuerySpec<T>, shards: seq<seq<T>>)
    requires spec.take.Some? && spec.take.value <= 0
    ensures ToListAll(spec, shards) == Evaluate(spec, Concat(shards)) == []
  {
    EmptyWindow(SkipCount(spec), spec.take.value, Arrange(spec.ordering, Concat(Gather(RowList, ShardQuery(spec), shards))));
    EmptyWindow(SkipCount(spec), spec.take.value, Arrange(spec.ordering, Matching(spec.filters, Concat(shards))));
  }

  lemma ToListUncapped<T>(spec: QuerySpec<T>, shards: seq<seq<T>>)
    requires spec.take.None?
    ensures ToListAll(spec, shards) == Evaluate(spec, Concat(shards))
  {
    ToListArrangedUncapped(spec, shards);
  }

  lemma ToListCapped<T>(spec: QuerySpec<T>, shards: seq<seq<T>>)
    requires spec.take.Some? && spec.take.value > 0 && SkipCount(spec) >= 0
    ensures ToListAll(spec, shards) == Evaluate(spec, Concat(shards))
  {
    ToListArrangedCapped(spec, shards);
    CappedWindowsAgree(spec, Arrange(spec.ordering, Concat(Gather(RowList, ShardQuery(spec), shards))),
      Arrange(spec.ordering, Matching(spec.filters, Concat(shards))));
  }

  /** Two lists agree on the query's window when they agree up to skip + take. */
  lemma CappedWindowsAgree<T>(spec: QuerySpec<T>, x: seq<T>, y: seq<T>)
    requires spec.take.Some? && spec.take.value > 0 && SkipCount(spec) >= 0
    requires Take(SkipCount(spec) + spec.take.value, x) == Take(SkipCount(spec) + spec.take.value, y)
    ensures Window(SkipCount(spec), spec.take, x) == Window(SkipCount(spec), spec.take, y)
  {
    WindowPrefix(SkipCount(spec), spec.take.value, x, y);
  }

  /** A take of 0 or less yields no row. */
  lemma EmptyWindow<T>(skip: int, take: int, x: seq<T>)
    requires take <= 0
    ensures Window(skip, Some(take), x) == []
  {
  }

  /**
   * With a negative skip the cap falls short of the window: Skip(-2).Take(3) on one shard
   * [1, 2, 3, 4] caps the shard at one row and returns [1], where the same query on the table
   * yields [1, 2, 3].
   */
  lemma NegativeSkipExample()
    ensures var spec := QuerySpec([], None, Some(-2), Some(3));
      && !CapCoversWindow(spec)
      && ToListAll(spec, [[1, 2, 3, 4]]) == [1]
      && Evaluate(spec, [1, 2, 3, 4]) == [1, 2, 3]
  {
    NegativeSkipTable();
    NegativeSkipShards();
  }

  lemma NegativeSkipTable()
    ensures Evaluate(QuerySpec([], None, Some(-2), Some(3)), [1, 2, 3, 4]) == [1, 2, 3]
  {
    var spec: QuerySpec<int> := QuerySpec([], None, Some(-2), Some(3));
    var rows: seq<int> := [1, 2, 3, 4];
    MatchingNoFilter(rows);
    assert Arrange(spec.ordering, Matching(spec.filters, rows)) == rows;
    WindowOfFour();
    assert Evaluate(spec, rows) == Window(-2, Some(3), rows);
  }

  lemma WindowOfFour()
    ensures Window(-2, Some(3), [1, 2, 3, 4]) == [1, 2, 3]
  {
    var rows: seq<int> := [1, 2, 3, 4];
    assert Drop(Clamp(-2), rows) == rows;
    assert rows[..3] == [1, 2, 3];
  }

  lemma NegativeSkipShards()
    ensures ToListAll(QuerySpec([], None, Some(-2), Some(3)), [[1, 2, 3, 4]]) == [1]
  {
    var spec: QuerySpec<int> := QuerySpec([], None, Some(-2), Some(3));
    var rows: seq<int> := [1, 2, 3, 4];
    var q := ShardQuery(spec);
    assert q == QuerySpec([], None, None, Some(1));
    MatchingNoFilter(rows);
    assert Evaluate(q, rows) == Take(1, rows) == [1];
    SingleShard(RowList, q, rows);
    assert MergeRows(spec, [1]) == Take(3, [1]);
  }

  /** With one shard, the gathered rows are that shard's answer. */
  lemma SingleShard<T>(access: seq<T> -> seq<T>, spec: QuerySpec<T>, rows: seq<T>)
    ensures Concat(Gather(access, spec, [rows])) == access(Evaluate(spec, rows))
  {
    var g := Gather(access, spec, [rows]);
    assert g == [access(Evaluate(spec, rows))];
    assert Concat(g[1..]) == [];
  }

  lemma {:induction false} ConcatOfEmpty<T>(ss: seq<seq<T>>)
    requires forall i :: 0 <= i < |ss| ==> ss[i] == []
    ensures Concat(ss) == []
  {
    if ss != [] {
      ConcatOfEmpty(ss[1..]);
    }
  }

  lemma ProductSigns(a: int, b: int)
    ensures a >= 0 && b >= 0 ==> a * b >= 0
    ensures a <= 0 && b >= 0 ==> a * b <= 0
  {
  }

  /**
   * GetPagination's query: from PageIndex 1 on, the shard cap covers the page, so ToList returns
   * the page of the whole table; below PageIndex 1 the cap is zero or less and no row comes back.
   */
  lemma PageRequest<T>(spec: QuerySpec<T>, pageIndex: int, pageRows: int, shards: seq<seq<T>>)
    requires spec.skip == Some(PageOffset(pageIndex, pageRows)) && spec.take == Some(pageRows)
    ensures pageIndex >= 1 ==> CapCoversWindow(spec)
    ensures pageIndex < 1 ==> ToListAll(spec, shards) == []
  {
    ProductSigns(pageIndex - 1, pageRows);
    ProductSigns(pageIndex, pageRows);
    if pageIndex < 1 && pageRows > 0 {
      var q := ShardQuery(spec);
      assert q.take.value == pageIndex * pageRows;
      var lists := Gather(RowList, q, shards);
      forall i | 0 <= i < |lists|
        ensures lists[i] == []
      {
        EvaluateRows(q, shards[i]);
      }
      ConcatOfEmpty(lists);
    }
  }

  /** The merged shard answers are ToList's answer, the table's answer when the cap covers the window. */
  lemma MergedIsTableQuery<T>(spec: QuerySpec<T>, shards: seq<seq<T>>, all: seq<T>)
    requires all == Concat(Gather(RowList, ShardQuery(spec), shards))
    ensures MergeRows(spec, all) == ToListAll(spec, shards)
    ensures CapCoversWindow(spec) ==> MergeRows(spec, all) == Evaluate(spec, Concat(shards))
  {
    if CapCoversWindow(spec) {
      ToListAllIsTableQuery(spec, shards);
    }
  }
}
