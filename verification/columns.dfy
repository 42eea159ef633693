/** Column-level operations of pandas that the data preparation relies on:
    `Series.unique`, boolean-mask filtering and membership of values. */
module Columns {

  /** No value occurs twice. */
  predicate Distinct<T(==)>(xs: seq<T>) {
    forall i, j :: 0 <= i < j < |xs| ==> xs[i] != xs[j]
  }

  /** The set of values occurring in a column. */
  function Values<T>(xs: seq<T>): set<T> {
    set x | x in xs
  }

  /** The values of `xs` not in `seen`, each once, in order of first appearance. */
  function UniqueAfter<T(==,!new)>(xs: seq<T>, seen: set<T>): (u: seq<T>)
    ensures Distinct(u)
    ensures forall x :: x in u <==> x in xs && x !in seen
    ensures |u| <= |xs|
    decreases |xs|
  {
    if xs == [] then []
    else if xs[0] in seen then UniqueAfter(xs[1..], seen)
    else [xs[0]] + UniqueAfter(xs[1..], seen + {xs[0]})
  }

  /** The unique values of a column (pandas `unique`): every value of the column exactly once, in order of
      first appearance. */
  function Unique<T(==,!new)>(xs: seq<T>): (u: seq<T>)
    ensures Distinct(u)
    ensures forall x :: x in u <==> x in xs
    ensures |u| <= |xs|
    ensures xs != [] ==> u != [] && u[0] == xs[0]
  {
    UniqueAfter(xs, {})
  }

  /** Selection by a boolean mask: the elements satisfying `keep`, in order. */
  function Filter<T(!new)>(xs: seq<T>, keep: T -> bool): (r: seq<T>)
    ensures |r| <= |xs|
    ensures forall x :: x in r <==> x in xs && keep(x)
    decreases |xs|
  {
    if xs == [] then []
    else if keep(xs[0]) then [xs[0]] + Filter(xs[1..], keep)
    else Filter(xs[1..], keep)
  }

  /** Filtering keeps exactly the kept part of every multiplicity, so it is
      determined by the multiset of its input. */
  lemma {:induction false} FilterMultiset<T(!new)>(xs: seq<T>, keep: T -> bool)
    ensures forall x :: multiset(Filter(xs, keep))[x] == if keep(x) then multiset(xs)[x] else 0
    decreases |xs|
  {
    if xs != [] {
      FilterMultiset(xs[1..], keep);
      assert xs == [xs[0]] + xs[1..];
    }
  }

  /** Filtering two arrangements of the same values keeps the same values. */
  lemma FilterPermutation<T(!new)>(xs: seq<T>, ys: seq<T>, keep: T -> bool)
    requires multiset(xs) == multiset(ys)
    ensures multiset(Filter(xs, keep)) == multiset(Filter(ys, keep))
  {
    FilterMultiset(xs, keep);
    FilterMultiset(ys, keep);
  }

  /** A column without repeats has as many values as entries. */
  lemma {:induction false} DistinctCardinality<T>(xs: seq<T>)
    requires Distinct(xs)
    ensures |Values(xs)| == |xs|
    decreases |xs|
  {
    if xs != [] {
      DistinctCardinality(xs[1..]);
      assert Values(xs) == Values(xs[1..]) + {xs[0]};
      assert xs[0] !in Values(xs[1..]);
    }
  }

  /** Filtering distributes over concatenation. */
  lemma {:induction false} FilterAppend<T(!new)>(xs: seq<T>, ys: seq<T>, keep: T -> bool)
    ensures Filter(xs + ys, keep) == Filter(xs, keep) + Filter(ys, keep)
    decreases |xs|
  {
    if xs == [] {
      assert xs + ys == ys;
    } else {
      assert (xs + ys)[0] == xs[0];
      assert (xs + ys)[1..] == xs[1..] + ys;
      FilterAppend(xs[1..], ys, keep);
    }
  }

  /** Filtering keeps a sequence whose elements all pass. */
  lemma {:induction false} FilterAll<T(!new)>(xs: seq<T>, keep: T -> bool)
    requires forall i :: 0 <= i < |xs| ==> keep(xs[i])
    ensures Filter(xs, keep) == xs
    decreases |xs|
  {
    if xs != [] {
      FilterAll(xs[1..], keep);
    }
  }

  /** Filtering empties a sequence whose elements all fail. */
  lemma {:induction false} FilterNone<T(!new)>(xs: seq<T>, keep: T -> bool)
    requires forall i :: 0 <= i < |xs| ==> !keep(xs[i])
    ensures Filter(xs, keep) == []
    decreases |xs|
  {
    if xs != [] {
      FilterNone(xs[1..], keep);
    }
  }
}
