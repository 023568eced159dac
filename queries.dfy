/**
 * The deferred query a ShardingQueryable carries in its _source field, without the LINQ
 * expression tree: conjunctive filters, at most one ordering, an optional skip and an
 * optional take, and what that query yields when it is run against one table.
 */
module Queries {
  import opened Wrappers
  import opened Seqs
  import opened Sorting

  datatype QuerySpec<!T> = QuerySpec(
    filters: seq<T -> bool>,
    ordering: Option<Ordering<T>>,
    skip: Option<int>,
    take: Option<int>)

  /** The query over the whole logical table: no filter, order, skip or take. */
  function Unfiltered<T>(): QuerySpec<T> {
    QuerySpec([], None, None, None)
  }

  /** LINQ's Skip and Take treat a negative count as 0 when they run. */
  function Clamp(n: int): (r: nat)
    ensures n >= 0 ==> r == n
    ensures n < 0 ==> r == 0
  {
    if n < 0 then 0 else n
  }

  predicate Satisfies<T>(filters: seq<T -> bool>, x: T) {
    forall i :: 0 <= i < |filters| ==> filters[i](x)
  }

  /** The rows that pass every Where predicate, in table order. */
  function Matching<T>(filters: seq<T -> bool>, rows: seq<T>): (r: seq<T>)
    ensures |r| <= |rows|
    ensures forall i :: 0 <= i < |r| ==> Satisfies(filters, r[i])
    ensures forall x :: x in rows && Satisfies(filters, x) ==> x in r
    ensures multiset(r) <= multiset(rows)
  {
    if rows == [] then []
    else
      assert rows == [rows[0]] + rows[1..];
      (if Satisfies(filters, rows[0]) then [rows[0]] else []) + Matching(filters, rows[1..])
  }

  /**
   * The filtered rows are exactly the passing rows: each row that passes every filter occurs as
   * often as in the table, and no other row occurs.
   */
  lemma {:induction false} MatchingCounts<T>(filters: seq<T -> bool>, rows: seq<T>)
    ensures forall x :: x in rows ==>
      multiset(Matching(filters, rows))[x] == if Satisfies(filters, x) then multiset(rows)[x] else 0
  {
    if rows != [] {
      MatchingCounts(filters, rows[1..]);
      assert rows == [rows[0]] + rows[1..];
      forall x | x in rows
        ensures multiset(Matching(filters, rows))[x] == if Satisfies(filters, x) then multiset(rows)[x] else 0
      {
        if x !in rows[1..] {
          assert multiset(rows[1..])[x] == 0;
          assert multiset(Matching(filters, rows[1..]))[x] == 0;
        }
      }
    }
  }

  lemma {:induction false} MatchingAppend<T>(filters: seq<T -> bool>, a: seq<T>, b: seq<T>)
    ensures Matching(filters, a + b) == Matching(filters, a) + Matching(filters, b)
  {
    if a == [] {
      assert a + b == b;
    } else {
      assert (a + b)[0] == a[0];
      assert (a + b)[1..] == a[1..] + b;
      MatchingAppend(filters, a[1..], b);
    }
  }

  lemma {:induction false} MatchingNoFilter<T>(rows: seq<T>)
    ensures Matching([], rows) == rows
  {
    if rows != [] {
      MatchingNoFilter(rows[1..]);
      assert Satisfies([], rows[0]);
      assert rows == [rows[0]] + rows[1..];
    }
  }

  /** The skip count as the query holds it, 0 when it has none (ToListAsync's default). */
  function SkipCount<T>(spec: QuerySpec<T>): int {
    spec.skip.GetOr(0)
  }

  /** The rows in the query's order, or in table order when it has none. */
  function Arrange<T>(ordering: Option<Ordering<T>>, rows: seq<T>): (r: seq<T>)
    ensures |r| == |rows|
    ensures multiset(r) == multiset(rows)
  {
    match ordering
    case None => rows
    case Some(o) => SortBy(o, rows)
  }

  /**
   * Skip(skip) then, when present, Take(take): the rows at positions [skip, skip + take), a
   * negative count acting as 0. A partial last window holds the rows that remain.
   */
  function Window<T>(skip: int, take: Option<int>, rows: seq<T>): (r: seq<T>)
    ensures take.Some? ==> |r| <= Clamp(take.value)
    ensures multiset(r) <= multiset(rows)
    ensures forall i :: 0 <= i < |r| ==> Clamp(skip) + i < |rows| && r[i] == rows[Clamp(skip) + i]
    ensures Clamp(skip) >= |rows| ==> r == []
    ensures take.None? && Clamp(skip) <= |rows| ==> |r| == |rows| - Clamp(skip)
    ensures take.Some? && Clamp(skip) <= |rows| ==>
      |r| == if Clamp(skip) + Clamp(take.value) <= |rows| then Clamp(take.value) else |rows| - Clamp(skip)
  {
    PartsOf(Clamp(skip), rows);
    match take
    case None => Drop(Clamp(skip), rows)
    case Some(t) =>
      PartsOf(Clamp(t), Drop(Clamp(skip), rows));
      Take(Clamp(t), Drop(Clamp(skip), rows))
  }

  /** The rows the query yields when it is run against one table: filter, order, skip, take. */
  function Evaluate<T>(spec: QuerySpec<T>, rows: seq<T>): seq<T> {
    Window(SkipCount(spec), spec.take, Arrange(spec.ordering, Matching(spec.filters, rows)))
  }

  /**
   * A query yields rows of the table, no more of them than the table has, each passing every
   * filter, in the query's order, and at most take of them.
   */
  lemma EvaluateRows<T>(spec: QuerySpec<T>, rows: seq<T>)
    ensures var r := Evaluate(spec, rows);
      && |r| <= |rows| && multiset(r) <= multiset(rows)
      && (forall i :: 0 <= i < |r| ==> Satisfies(spec.filters, r[i]))
      && (spec.ordering.Some? ==> Sorted(spec.ordering.value, r))
      && (spec.take.Some? ==> |r| <= Clamp(spec.take.value))
  {
    var m := Matching(spec.filters, rows);
    var a := Arrange(spec.ordering, m);
    var r := Evaluate(spec, rows);
    assert multiset(r) <= multiset(a) == multiset(m) <= multiset(rows);
    forall i | 0 <= i < |r| ensures Satisfies(spec.filters, r[i]) {
      assert r[i] in multiset(a);
      var k :| 0 <= k < |m| && m[k] == r[i];
    }
  }

  /** A query that skips nothing (no skip, or a count of 0 or less) and has no take. */
  predicate Unpaged<T>(spec: QuerySpec<T>) {
    SkipCount(spec) <= 0 && spec.take.None?
  }

  /** An unpaged query yields exactly the matching rows, in its own order. */
  lemma UnpagedEvaluate<T>(spec: QuerySpec<T>, rows: seq<T>)
    requires Unpaged(spec)
    ensures Evaluate(spec, rows) == Arrange(spec.ordering, Matching(spec.filters, rows))
    ensures |Evaluate(spec, rows)| == |Matching(spec.filters, rows)|
  {
    var a := Arrange(spec.ordering, Matching(spec.filters, rows));
    assert Drop(0, a) == a;
  }

  /**
   * The number of rows before a page: (PageIndex - 1) * PageRows, negative for a page index below
   * 1 and a positive page size.
   */
  function PageOffset(pageIndex: int, pageRows: int): int {
    (pageIndex - 1) * pageRows
  }

  /**
   * An ordered query with a skip and a take yields one page of the sorted matching rows: the
   * ones at positions skip, skip + 1, ... of the sorted list (negative counts acting as 0), take
   * of them when the sorted list reaches past the end of the page, and what remains otherwise.
   */
  lemma EvaluatePage<T>(spec: QuerySpec<T>, rows: seq<T>, o: Ordering<T>, offset: int, size: int)
    requires spec.ordering == Some(o) && spec.skip == Some(offset) && spec.take == Some(size)
    ensures var page, sorted := Evaluate(spec, rows), SortBy(o, Matching(spec.filters, rows));
      var first, n := Clamp(offset), Clamp(size);
      && |page| <= n
      && (forall k :: 0 <= k < |page| ==> first + k < |sorted| && page[k] == sorted[first + k])
      && |page| == if first + n <= |sorted| then n else if first <= |sorted| then |sorted| - first else 0
  {
    var sorted := SortBy(o, Matching(spec.filters, rows));
    assert Evaluate(spec, rows) == Window(offset, Some(size), sorted);
  }

  /** Where(predicate) on the spec: one more conjunctive filter, nothing else changed. */
  function WithFilter<T>(spec: QuerySpec<T>, p: T -> bool): (r: QuerySpec<T>)
    ensures r.filters == spec.filters + [p]
    ensures r.ordering == spec.ordering && r.skip == spec.skip && r.take == spec.take
  {
    spec.(filters := spec.filters + [p])
  }

  lemma WithFilterSatisfies<T>(spec: QuerySpec<T>, p: T -> bool, x: T)
    ensures Satisfies(WithFilter(spec, p).filters, x) <==> Satisfies(spec.filters, x) && p(x)
  {
    var fs := WithFilter(spec, p).filters;
    assert forall i :: 0 <= i < |spec.filters| ==> fs[i] == spec.filters[i];
    assert fs[|spec.filters|] == p;
    if Satisfies(spec.filters, x) && p(x) {
      forall i | 0 <= i < |fs| ensures fs[i](x) {
        if i < |spec.filters| { assert fs[i](x) == spec.filters[i](x); }
      }
    }
  }
}
