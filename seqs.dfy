/** LINQ's Take, Skip and list concatenation over sequences. */
module Seqs {

  /** Enumerable.Take: the first n elements, or all of them when there are fewer. */
  function Take<T>(n: nat, s: seq<T>): (r: seq<T>)
    ensures |r| == if n <= |s| then n else |s|
    ensures forall i :: 0 <= i < |r| ==> r[i] == s[i]
  {
    if n <= |s| then s[..n] else s
  }

  /** Enumerable.Skip: everything after the first n elements. */
  function Drop<T>(n: nat, s: seq<T>): (r: seq<T>)
    ensures |r| == if n <= |s| then |s| - n else 0
    ensures forall i :: 0 <= i < |r| ==> r[i] == s[n + i]
  {
    if n <= |s| then s[n..] else []
  }

  /** Taking a prefix or dropping one keeps a part of the elements. */
  lemma PartsOf<T>(n: nat, s: seq<T>)
    ensures multiset(Take(n, s)) <= multiset(s) && multiset(Drop(n, s)) <= multiset(s)
  {
    if n <= |s| {
      assert s == s[..n] + s[n..];
    }
  }

  /** The lists of several shards appended in list order (List.AddRange, one list at a time). */
  function Concat<T>(ss: seq<seq<T>>): seq<T> {
    if ss == [] then [] else ss[0] + Concat(ss[1..])
  }

  lemma {:induction false} ConcatSnoc<T>(ss: seq<seq<T>>, s: seq<T>)
    ensures Concat(ss + [s]) == Concat(ss) + s
  {
    if ss == [] {
      assert ss + [s] == [s];
      assert Concat([s][1..]) == [];
    } else {
      assert (ss + [s])[0] == ss[0];
      assert (ss + [s])[1..] == ss[1..] + [s];
      ConcatSnoc(ss[1..], s);
    }
  }

  lemma TakeTake<T>(n: nat, m: nat, s: seq<T>)
    requires n <= m
    ensures Take(n, Take(m, s)) == Take(n, s)
  {
  }

  lemma TakeCons<T>(n: nat, x: T, s: seq<T>)
    requires n > 0
    ensures Take(n, [x] + s) == [x] + Take(n - 1, s)
  {
  }

  /** The first n elements of a + b are fixed by the first n elements of a and of b. */
  lemma TakeAppend<T>(n: nat, p: nat, q: nat, a: seq<T>, b: seq<T>)
    requires n <= p && n <= q
    ensures Take(n, a + b) == Take(n, Take(p, a) + Take(q, b))
  {
    var l, r := Take(n, a + b), Take(n, Take(p, a) + Take(q, b));
    assert |l| == |r|;
    forall i | 0 <= i < |l| ensures l[i] == r[i] {
      if i < |a| {
        assert Take(p, a)[i] == a[i];
      } else {
        assert (Take(p, a) + Take(q, b))[i] == Take(q, b)[i - |a|];
      }
    }
  }

  /** A window [skip, skip + take) of s only depends on the first skip + take elements of s. */
  lemma TakeDropPrefix<T>(skip: nat, take: nat, s: seq<T>)
    ensures Take(take, Drop(skip, s)) == Take(take, Drop(skip, Take(skip + take, s)))
  {
  }
}
