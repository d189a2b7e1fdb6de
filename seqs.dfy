/** Sequences as tables: the rows a SQL `WHERE` clause keeps, and the
    pairwise constraints (keys, ordering) a table keeps. */
module Seqs {

  /** The rows of `s` that satisfy `keep`, in table order. */
  function Filter<T>(s: seq<T>, keep: T -> bool): (r: seq<T>)
    ensures |r| <= |s|
    ensures forall i :: 0 <= i < |r| ==> r[i] in s && keep(r[i])
    ensures forall i :: 0 <= i < |s| && keep(s[i]) ==> s[i] in r
  {
    if s == [] then []
    else
      var init, last := s[..|s| - 1], s[|s| - 1];
      assert s == init + [last];
      if keep(last) then Filter(init, keep) + [last] else Filter(init, keep)
  }

  /** Every pair of rows, taken in table order, is related by `rel`. */
  ghost predicate Pairwise<T>(s: seq<T>, rel: (T, T) -> bool) {
    forall i, j :: 0 <= i < j < |s| ==> rel(s[i], s[j])
  }

  /** No value occurs twice. */
  predicate Distinct<T(==)>(s: seq<T>) {
    forall i, j :: 0 <= i < j < |s| ==> s[i] != s[j]
  }

  lemma FilterAppend<T>(s: seq<T>, x: T, keep: T -> bool)
    ensures Filter(s + [x], keep) == if keep(x) then Filter(s, keep) + [x] else Filter(s, keep)
  {
    assert (s + [x])[..|s|] == s;
  }

  /** Removing rows keeps every pairwise constraint of the rows that stay. */
  lemma {:induction false} FilterPairwise<T>(s: seq<T>, keep: T -> bool, rel: (T, T) -> bool)
    requires Pairwise(s, rel)
    ensures Pairwise(Filter(s, keep), rel)
  {
    if s != [] {
      var init, last := s[..|s| - 1], s[|s| - 1];
      assert Pairwise(init, rel);
      FilterPairwise(init, keep, rel);
      var f := Filter(init, keep);
      if keep(last) {
        var g := f + [last];
        forall i, j | 0 <= i < j < |g| ensures rel(g[i], g[j]) {
          if j == |f| {
            assert f[i] in init;
            var k :| 0 <= k < |init| && init[k] == f[i];
            assert s[k] == f[i] && s[|s| - 1] == last;
          } else {
            assert g[i] == f[i] && g[j] == f[j];
          }
        }
      }
    }
  }

  /** Running the same `WHERE` delete twice removes nothing the second time. */
  lemma {:induction false} FilterIdempotent<T>(s: seq<T>, keep: T -> bool)
    ensures Filter(Filter(s, keep), keep) == Filter(s, keep)
  {
    if s != [] {
      var init, last := s[..|s| - 1], s[|s| - 1];
      FilterIdempotent(init, keep);
      if keep(last) {
        FilterAppend(Filter(init, keep), last, keep);
      }
    }
  }

  /** A filter that keeps every row returns the table unchanged. */
  lemma {:induction false} FilterKeepsAll<T>(s: seq<T>, keep: T -> bool)
    requires forall x :: x in s ==> keep(x)
    ensures Filter(s, keep) == s
  {
    if s != [] {
      var init, last := s[..|s| - 1], s[|s| - 1];
      assert s == init + [last];
      FilterKeepsAll(init, keep);
    }
  }

  /** A filter and its complement split the table: the rows a delete removes
      are exactly those a count with the opposite condition sees. */
  lemma {:induction false} FilterSplit<T>(s: seq<T>, keep: T -> bool, drop: T -> bool)
    requires forall x :: drop(x) == !keep(x)
    ensures |Filter(s, keep)| + |Filter(s, drop)| == |s|
  {
    if s != [] {
      FilterSplit(s[..|s| - 1], keep, drop);
    }
  }

  /** In a sequence without repetitions each member occurs exactly once. */
  lemma {:induction false} DistinctOccursOnce<T>(s: seq<T>, x: T)
    requires Distinct(s)
    requires x in s
    ensures multiset(s)[x] == 1
  {
    var init, last := s[..|s| - 1], s[|s| - 1];
    assert s == init + [last];
    if x == last {
      assert x !in init;
    } else {
      DistinctOccursOnce(init, x);
    }
  }
}
