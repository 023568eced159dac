/**
 * What one shard contributes to each terminal call (the access lambdas handed to
 * GetStatisData) and how the executor combines the contributions of all shards.
 */
module ResultMerger {
  import opened Wrappers
  import opened Seqs
  import opened Sorting
  import opened Queries

  // ---------------------------------------------------------------------------
  // Reference aggregates over one list of rows (LINQ to Objects semantics)
  // ---------------------------------------------------------------------------

  /** Enumerable.Sum over ints. */
  function SumOf(xs: seq<int>): int {
    if xs == [] then 0 else xs[0] + SumOf(xs[1..])
  }

  /** Sum(selector) over a nullable column: null values add nothing. */
  function ValueSum<T>(sel: T -> Option<int>, rows: seq<T>): int {
    if rows == [] then 0 else sel(rows[0]).GetOr(0) + ValueSum(sel, rows[1..])
  }

  predicate AllNull<T>(sel: T -> Option<int>, rows: seq<T>) {
    forall i :: 0 <= i < |rows| ==> sel(rows[i]).None?
  }

  /** Select(selector) over a non-nullable column. */
  function Select<T>(sel: T -> int, rows: seq<T>): (r: seq<int>)
    ensures |r| == |rows| && forall i :: 0 <= i < |rows| ==> r[i] == sel(rows[i])
  {
    seq(|rows|, i requires 0 <= i < |rows| => sel(rows[i]))
  }

  /** Enumerable.Max over ints: throws on an empty list, else the largest element. */
  function Largest(xs: seq<int>): (r: Result<int>)
    ensures r.Err? <==> xs == []
    ensures r.Err? ==> r.error == EmptySequence
    ensures r.Ok? ==> r.value in xs && forall i :: 0 <= i < |xs| ==> xs[i] <= r.value
  {
    if xs == [] then Err(EmptySequence)
    else match Largest(xs[1..])
      case Err(_) => Ok(xs[0])
      case Ok(m) => Ok(if xs[0] >= m then xs[0] else m)
  }

  /** Enumerable.Min over ints: throws on an empty list, else the smallest element. */
  function Smallest(xs: seq<int>): (r: Result<int>)
    ensures r.Err? <==> xs == []
    ensures r.Err? ==> r.error == EmptySequence
    ensures r.Ok? ==> r.value in xs && forall i :: 0 <= i < |xs| ==> r.value <= xs[i]
  {
    if xs == [] then Err(EmptySequence)
    else match Smallest(xs[1..])
      case Err(_) => Ok(xs[0])
      case Ok(m) => Ok(if xs[0] <= m then xs[0] else m)
  }

  // ---------------------------------------------------------------------------
  // Per-shard contributions: what each access lambda computes from the rows the
  // shard's rebound query yields
  // ---------------------------------------------------------------------------

  /** x.Count() */
  function RowCount<T>(rows: seq<T>): int {
    |rows|
  }

  /** x.Any() */
  function HasRows<T>(rows: seq<T>): bool {
    rows != []
  }

  /** x.FirstOrDefault() */
  function FirstRow<T>(rows: seq<T>): Option<T> {
    if rows == [] then None else Some(rows[0])
  }

  /** The shard's rows materialised as a list (ToListAsync on the shard). */
  function RowList<T>(rows: seq<T>): seq<T> {
    rows
  }

  /** DynamicSum on one shard: SQL SUM, which is null when no row has a value. */
  function ShardSum<T>(sel: T -> Option<int>, rows: seq<T>): Option<int> {
    if AllNull(sel, rows) then None else Some(ValueSum(sel, rows))
  }

  /** DynamicAverage's pair: the shard's filtered row count and its DynamicSum. */
  function ShardCountAndSum<T>(sel: T -> Option<int>, rows: seq<T>): (int, Option<int>) {
    (|rows|, ShardSum(sel, rows))
  }

  /** x.Max(selector): throws on a shard without rows. */
  function ShardMax<T>(sel: T -> int, rows: seq<T>): Result<int> {
    Largest(Select(sel, rows))
  }

  /** x.Min(selector): throws on a shard without rows. */
  function ShardMin<T>(sel: T -> int, rows: seq<T>): Result<int> {
    Smallest(Select(sel, rows))
  }

  /** The non-null values a nullable column takes on the rows, in row order. */
  function Present<T>(sel: T -> Option<int>, rows: seq<T>): (r: seq<int>)
    ensures forall i :: 0 <= i < |r| ==> exists k :: 0 <= k < |rows| && sel(rows[k]) == Some(r[i])
    ensures forall k :: 0 <= k < |rows| && sel(rows[k]).Some? ==> sel(rows[k]).value in r
  {
    var vs := seq(|rows|, k requires 0 <= k < |rows| => sel(rows[k]));
    var r := RemoveNulls(vs);
    assert forall k :: 0 <= k < |rows| ==> vs[k] == sel(rows[k]);
    r
  }

  /** An exception-free aggregate read as a nullable value: null where it would have thrown. */
  function OrNull(r: Result<int>): Option<int> {
    if r.Ok? then Some(r.value) else None
  }

  /** x.Max(selector) over a nullable column: SQL MAX, null when no row has a value. */
  function ShardMaxOrNull<T>(sel: T -> Option<int>, rows: seq<T>): Option<int> {
    OrNull(Largest(Present(sel, rows)))
  }

  /** x.Min(selector) over a nullable column: SQL MIN, null when no row has a value. */
  function ShardMinOrNull<T>(sel: T -> Option<int>, rows: seq<T>): Option<int> {
    OrNull(Smallest(Present(sel, rows)))
  }

  // ---------------------------------------------------------------------------
  // Merge rules over the per-shard contributions, kept in shard-list order
  // ---------------------------------------------------------------------------

  /** Sum(x => (decimal?)x): null contributions are skipped, so the result is never null. */
  function SumNonNull(xs: seq<Option<int>>): (r: int)
    ensures r == SumOf(RemoveNulls(xs))
  {
    if xs == [] then 0
    else
      var rest := RemoveNulls(xs[1..]);
      assert if xs[0].Some? then
        var u := [xs[0].value] + rest; RemoveNulls(xs) == u && u[0] == xs[0].value && u[1..] == rest
      else RemoveNulls(xs) == rest;
      xs[0].GetOr(0) + SumNonNull(xs[1..])
  }

  function CountTotal(ps: seq<(int, Option<int>)>): int {
    if ps == [] then 0 else ps[0].0 + CountTotal(ps[1..])
  }

  function SumTotal(ps: seq<(int, Option<int>)>): int {
    if ps == [] then 0 else ps[0].1.GetOr(0) + SumTotal(ps[1..])
  }

  /** DynamicAverage: (Σ sums) / (Σ counts), the decimal division throwing on a zero count. */
  function AverageMerge(ps: seq<(int, Option<int>)>): (r: Result<real>)
    ensures r.Err? <==> CountTotal(ps) == 0
    ensures r.Err? ==> r.error == DivideByZero
    ensures r.Ok? ==> r.value * CountTotal(ps) as real == SumTotal(ps) as real
  {
    var count := CountTotal(ps);
    var sum := SumTotal(ps);
    if count == 0 then Err(DivideByZero) else Ok(sum as real / count as real)
  }

  /**
   * Task.WaitAll followed by Select(x => x.Result): the list of per-shard values when every
   * shard delivered one, otherwise the exception of the first shard that threw (the code's
   * AggregateException carries every shard's exception; only the first is kept here).
   */
  function Collect(ps: seq<Result<int>>): (r: Result<seq<int>>)
    ensures r.Ok? <==> forall i :: 0 <= i < |ps| ==> ps[i].Ok?
    ensures r.Ok? ==> |r.value| == |ps| && forall i :: 0 <= i < |ps| ==> r.value[i] == ps[i].value
    ensures r.Err? ==> exists i :: 0 <= i < |ps| && ps[i].Err? && r.error == ps[i].error
  {
    if ps == [] then Ok([])
    else if ps[0].Err? then Err(ps[0].error)
    else match Collect(ps[1..])
      case Err(e) => Err(e)
      case Ok(rest) => Ok([ps[0].value] + rest)
  }

  /**
   * Max(x => (TResult)x) over the per-shard maxima: it fails when a shard failed or there is no
   * shard, and otherwise it is a shard's maximum that no other shard's maximum exceeds.
   */
  function MaxMerge(ps: seq<Result<int>>): (r: Result<int>)
    ensures r.Ok? <==> |ps| > 0 && forall i :: 0 <= i < |ps| ==> ps[i].Ok?
    ensures r.Err? ==> (ps == [] && r.error == EmptySequence) || exists i :: 0 <= i < |ps| && ps[i] == r
    ensures r.Ok? ==> (exists i :: 0 <= i < |ps| && ps[i] == r) && forall i :: 0 <= i < |ps| ==> ps[i].value <= r.value
  {
    match Collect(ps)
    case Err(e) => Err(e)
    case Ok(xs) => Largest(xs)
  }

  /**
   * Min(x => (TResult)x) over the per-shard minima: it fails when a shard failed or there is no
   * shard, and otherwise it is a shard's minimum that no other shard's minimum undercuts.
   */
  function MinMerge(ps: seq<Result<int>>): (r: Result<int>)
    ensures r.Ok? <==> |ps| > 0 && forall i :: 0 <= i < |ps| ==> ps[i].Ok?
    ensures r.Err? ==> (ps == [] && r.error == EmptySequence) || exists i :: 0 <= i < |ps| && ps[i] == r
    ensures r.Ok? ==> (exists i :: 0 <= i < |ps| && ps[i] == r) && forall i :: 0 <= i < |ps| ==> r.value <= ps[i].value
  {
    match Collect(ps)
    case Err(e) => Err(e)
    case Ok(xs) => Smallest(xs)
  }

  /**
   * Max(x => (TResult)x) for a nullable TResult: null shard maxima are skipped; null iff every
   * shard's maximum is null, otherwise the largest of them.
   */
  function MaxOrNullMerge(ps: seq<Option<int>>): (r: Option<int>)
    ensures r.None? <==> forall i :: 0 <= i < |ps| ==> ps[i].None?
    ensures r.Some? ==>
      (exists i :: 0 <= i < |ps| && ps[i] == r) && forall i :: 0 <= i < |ps| && ps[i].Some? ==> ps[i].value <= r.value
  {
    OrNull(Largest(RemoveNulls(ps)))
  }

  /**
   * Min(x => (TResult)x) for a nullable TResult: null shard minima are skipped; null iff every
   * shard's minimum is null, otherwise the smallest of them.
   */
  function MinOrNullMerge(ps: seq<Option<int>>): (r: Option<int>)
    ensures r.None? <==> forall i :: 0 <= i < |ps| ==> ps[i].None?
    ensures r.Some? ==>
      (exists i :: 0 <= i < |ps| && ps[i] == r) && forall i :: 0 <= i < |ps| && ps[i].Some? ==> r.value <= ps[i].value
  {
    OrNull(Smallest(RemoveNulls(ps)))
  }

  /** Any(x => x == true) */
  function AnyTrue(bs: seq<bool>): (r: bool)
    ensures r <==> exists i :: 0 <= i < |bs| && bs[i]
  {
    if bs == [] then false else bs[0] || AnyTrue(bs[1..])
  }

  /** RemoveAll(x => x == null): the values of the non-null entries, and only those. */
  function RemoveNulls<T>(xs: seq<Option<T>>): (r: seq<T>)
    ensures |r| <= |xs|
    ensures forall i :: 0 <= i < |r| ==> Some(r[i]) in xs
    ensures forall i :: 0 <= i < |xs| && xs[i].Some? ==> xs[i].value in r
  {
    if xs == [] then []
    else
      assert forall i :: 1 <= i < |xs| ==> xs[i] == xs[1..][i - 1];
      (if xs[0].Some? then [xs[0].value] else []) + RemoveNulls(xs[1..])
  }

  /** Removing nulls keeps every non-null value exactly as often as it occurs, and nothing else. */
  lemma {:induction false} RemoveNullsCounts<T>(xs: seq<Option<T>>)
    ensures forall v :: multiset(RemoveNulls(xs))[v] == multiset(xs)[Some(v)]
  {
    if xs != [] {
      RemoveNullsCounts(xs[1..]);
      assert xs == [xs[0]] + xs[1..];
    }
  }

  /** Removing nulls keeps the order of the entries: it works entry by entry, left to right. */
  lemma {:induction false} RemoveNullsAppend<T>(a: seq<Option<T>>, b: seq<Option<T>>)
    ensures RemoveNulls(a + b) == RemoveNulls(a) + RemoveNulls(b)
  {
    if a != [] {
      RemoveNullsAppend(a[1..], b);
      assert (a + b)[1..] == a[1..] + b;
    } else {
      assert a + b == b;
    }
  }

  /** RemoveAll(x => x == null) followed by FirstOrDefault(): null iff every entry is null. */
  function FirstNonNull<T>(xs: seq<Option<T>>): (r: Option<T>)
    ensures r.None? <==> forall i :: 0 <= i < |xs| ==> xs[i].None?
    ensures r.Some? ==> r in xs
  {
    var ys := RemoveNulls(xs);
    if ys == [] then None else Some(ys[0])
  }

  lemma FirstNonNullCons<T>(xs: seq<Option<T>>)
    requires xs != []
    ensures FirstNonNull(xs) == if xs[0].Some? then xs[0] else FirstNonNull(xs[1..])
  {
  }

  /** The merged first row is null iff every contribution is, and otherwise the first non-null one. */
  lemma {:induction false} FirstNonNullIsFirst<T>(xs: seq<Option<T>>)
    ensures FirstNonNull(xs).None? <==> forall i :: 0 <= i < |xs| ==> xs[i].None?
    ensures FirstNonNull(xs).Some? ==>
      exists i :: 0 <= i < |xs| && xs[i] == FirstNonNull(xs) && forall j :: 0 <= j < i ==> xs[j].None?
  {
    if xs != [] {
      var r := FirstNonNull(xs);
      FirstNonNullCons(xs);
      FirstNonNullIsFirst(xs[1..]);
      if xs[0].None? {
        assert r == FirstNonNull(xs[1..]);
        if r.Some? {
          var i :| 0 <= i < |xs[1..]| && xs[1..][i] == r && forall j :: 0 <= j < i ==> xs[1..][j].None?;
          assert xs[i + 1] == r;
          forall j | 0 <= j < i + 1 ensures xs[j].None? {
            if j > 0 { assert xs[j] == xs[1..][j - 1]; }
          }
        } else {
          forall i | 0 <= i < |xs| ensures xs[i].None? {
            if i > 0 { assert xs[i] == xs[1..][i - 1]; }
          }
        }
      } else {
        assert r == xs[0];
      }
    }
  }

  /**
   * The merged list: re-sort when the query is ordered, then Skip(skip), then Take(take). It is
   * made of gathered rows, is in the query's order, and holds at most take rows: the rows at
   * positions skip, skip + 1, ... of the re-sorted list, as many as take allows and the list has.
   */
  function MergeRows<T>(spec: QuerySpec<T>, all: seq<T>): (r: seq<T>)
    ensures multiset(r) <= multiset(all)
    ensures spec.ordering.Some? ==> Sorted(spec.ordering.value, r)
    ensures spec.take.Some? ==> |r| <= Clamp(spec.take.value)
    ensures var first := Clamp(SkipCount(spec));
      forall i :: 0 <= i < |r| ==> first + i < |all| && r[i] == Arrange(spec.ordering, all)[first + i]
    ensures var first := Clamp(SkipCount(spec));
      |r| == if first >= |all| then 0
             else if spec.take.None? then |all| - first
             else if first + Clamp(spec.take.value) <= |all| then Clamp(spec.take.value)
             else |all| - first
  {
    Window(SkipCount(spec), spec.take, Arrange(spec.ordering, all))
  }
}
