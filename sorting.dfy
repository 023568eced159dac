/**
 * The ordering a query carries (LINQ OrderBy / OrderByDescending on one key) and the stable
 * sort that applies it, both on a shard and when the gathered rows are re-sorted.
 */
module Sorting {
  import opened Seqs

  datatype Direction = Ascending | Descending

  /** One sort column and its direction: "SortField SortType" in Dynamic LINQ. */
  datatype Ordering<!T> = Ordering(key: T -> int, direction: Direction)

  /** The value rows are arranged by in ascending order: the key, negated when descending. */
  function Rank<T>(o: Ordering<T>, x: T): int {
    if o.direction == Ascending then o.key(x) else -o.key(x)
  }

  predicate Sorted<T>(o: Ordering<T>, s: seq<T>) {
    forall i, j :: 0 <= i < j < |s| ==> Rank(o, s[i]) <= Rank(o, s[j])
  }

  /** Puts x in front of the first element that does not rank below it (x came first). */
  function Insert<T>(o: Ordering<T>, x: T, s: seq<T>): (r: seq<T>)
    ensures |r| == |s| + 1
    ensures multiset(r) == multiset(s) + multiset{x}
  {
    if s == [] || Rank(o, x) <= Rank(o, s[0]) then
      [x] + s
    else
      assert s == [s[0]] + s[1..];
      [s[0]] + Insert(o, x, s[1..])
  }

  /** Inserting into a sorted list keeps it sorted. */
  lemma {:induction false} InsertSorted<T>(o: Ordering<T>, x: T, s: seq<T>)
    requires Sorted(o, s)
    ensures Sorted(o, Insert(o, x, s))
  {
    if s != [] && Rank(o, x) > Rank(o, s[0]) {
      var t := Insert(o, x, s[1..]);
      InsertSorted(o, x, s[1..]);
      assert Rank(o, s[0]) <= Rank(o, t[0]) by {
        if |s| > 1 && Rank(o, x) > Rank(o, s[1]) {
          assert t[0] == s[1];
        }
      }
      var r := [s[0]] + t;
      forall i, j | 0 <= i < j < |r| ensures Rank(o, r[i]) <= Rank(o, r[j]) {
        assert r[j] == t[j - 1];
        if i > 0 {
          assert r[i] == t[i - 1];
        } else if j > 1 {
          assert Rank(o, t[0]) <= Rank(o, t[j - 1]);
        }
      }
    }
  }

  /**
   * LINQ OrderBy, as insertion sort from the right. The contract states that the result is
   * sorted and a permutation of the input; that rows with equal keys keep their input order is
   * stated only in the form SortAppend gives it, sorting a concatenation as a left-first merge.
   */
  function SortBy<T>(o: Ordering<T>, s: seq<T>): (r: seq<T>)
    ensures |r| == |s|
    ensures multiset(r) == multiset(s)
    ensures Sorted(o, r)
  {
    if s == [] then []
    else
      assert s == [s[0]] + s[1..];
      InsertSorted(o, s[0], SortBy(o, s[1..]));
      Insert(o, s[0], SortBy(o, s[1..]))
  }

  /** Stable merge of two lists: on equal ranks the left list's row comes first. */
  function Merge<T>(o: Ordering<T>, a: seq<T>, b: seq<T>): (r: seq<T>)
    ensures |r| == |a| + |b|
    decreases |a| + |b|
  {
    if a == [] then b
    else if b == [] then a
    else if Rank(o, a[0]) <= Rank(o, b[0]) then [a[0]] + Merge(o, a[1..], b)
    else [b[0]] + Merge(o, a, b[1..])
  }

  lemma {:induction false} InsertMerge<T>(o: Ordering<T>, z: T, a: seq<T>, b: seq<T>)
    ensures Insert(o, z, Merge(o, a, b)) == Merge(o, Insert(o, z, a), b)
    decreases |a| + |b|
  {
    if b == [] {
    } else if a == [] {
      if Rank(o, z) > Rank(o, b[0]) {
        InsertMerge(o, z, a, b[1..]);
      }
    } else if Rank(o, a[0]) <= Rank(o, b[0]) {
      if Rank(o, z) > Rank(o, a[0]) {
        InsertMerge(o, z, a[1..], b);
      }
    } else {
      if Rank(o, z) > Rank(o, b[0]) {
        InsertMerge(o, z, a, b[1..]);
      }
    }
  }

  /** Sorting a concatenation is merging the sorted parts. */
  lemma {:induction false} SortAppend<T>(o: Ordering<T>, a: seq<T>, b: seq<T>)
    ensures SortBy(o, a + b) == Merge(o, SortBy(o, a), SortBy(o, b))
  {
    if a == [] {
      assert a + b == b;
    } else {
      assert (a + b)[0] == a[0];
      assert (a + b)[1..] == a[1..] + b;
      SortAppend(o, a[1..], b);
      InsertMerge(o, a[0], SortBy(o, a[1..]), SortBy(o, b));
    }
  }

  /** Re-sorting a sorted list leaves it as it is. */
  lemma {:induction false} SortSorted<T>(o: Ordering<T>, s: seq<T>)
    requires Sorted(o, s)
    ensures SortBy(o, s) == s
  {
    if s != [] {
      SortSorted(o, s[1..]);
      assert s == [s[0]] + s[1..];
    }
  }

  lemma TakeSorted<T>(o: Ordering<T>, n: nat, s: seq<T>)
    requires Sorted(o, s)
    ensures Sorted(o, Take(n, s))
  {
  }

  lemma MergeLeft<T>(o: Ordering<T>, a: seq<T>, b: seq<T>)
    requires a != [] && b != [] && Rank(o, a[0]) <= Rank(o, b[0])
    ensures Merge(o, a, b) == [a[0]] + Merge(o, a[1..], b)
  {
  }

  lemma MergeRight<T>(o: Ordering<T>, a: seq<T>, b: seq<T>)
    requires a != [] && b != [] && Rank(o, a[0]) > Rank(o, b[0])
    ensures Merge(o, a, b) == [b[0]] + Merge(o, a, b[1..])
  {
  }

  /** The first n rows of a merge are fixed by the first n rows of each side. */
  lemma {:induction false} TakeMerge<T>(o: Ordering<T>, n: nat, p: nat, q: nat, a: seq<T>, b: seq<T>)
    requires n <= p && n <= q
    ensures Take(n, Merge(o, a, b)) == Take(n, Merge(o, Take(p, a), Take(q, b)))
    decreases |a| + |b|
  {
    if n == 0 {
    } else if a == [] {
      assert Take(p, a) == [];
      TakeTake(n, q, b);
    } else if b == [] {
      assert Take(q, b) == [];
      TakeTake(n, p, a);
    } else {
      var a', b' := Take(p, a), Take(q, b);
      assert a'[0] == a[0] && b'[0] == b[0];
      if Rank(o, a[0]) <= Rank(o, b[0]) {
        assert a'[1..] == Take(p - 1, a[1..]);
        MergeLeft(o, a, b);
        MergeLeft(o, a', b');
        TakeMerge(o, n - 1, p - 1, q, a[1..], b);
        TakeCons(n, a[0], Merge(o, a[1..], b));
        TakeCons(n, a[0], Merge(o, a'[1..], b'));
      } else {
        assert b'[1..] == Take(q - 1, b[1..]);
        MergeRight(o, a, b);
        MergeRight(o, a', b');
        TakeMerge(o, n - 1, p, q - 1, a, b[1..]);
        TakeCons(n, b[0], Merge(o, a, b[1..]));
        TakeCons(n, b[0], Merge(o, a', b'[1..]));
      }
    }
  }
}
