/** Negative sampling by random candidates (`create_random_candidates`). The
    random draws of `np.random.choice` are parameters (positions into the
    arrays of unique ids), and so is the permutation of `sample(frac=1)`. */
module NegativeSampling {
  import opened Results
  import opened Columns
  import opened Transactions

  /** One row of the returned frame: (customer_id, article_id, purchased). */
  datatype Labelled = Labelled(customer: int, article: int, purchased: int)

  /** Why `create_random_candidates` raises. */
  datatype SampleError =
    | EmptyPopulation     // `np.random.choice` asked for draws from an empty array
    | NegativeSampleSize  // `np.random.choice` asked for a negative number of draws
    | NoDraws             // no draws: on the empty candidate frame the row test of
                          // line 257 yields an empty float series, not a boolean mask,
                          // and the filtering of lines 257-262 raises

  /** The distinct customer codes of the table, in order of first appearance. */
  function UniqueCustomers(ts: seq<Transaction>): (u: seq<int>)
    ensures Distinct(u) && forall c :: c in u <==> c in Customers(ts)
  {
    var col := seq(|ts|, i requires 0 <= i < |ts| => ts[i].customer);
    assert forall c :: c in col <==> c in Customers(ts) by {
      forall c | c in Customers(ts) ensures c in col {
        var i :| 0 <= i < |ts| && ts[i].customer == c;
        assert col[i] == c;
      }
    }
    Unique(col)
  }

  /** The distinct article codes of the table, in order of first appearance. */
  function UniqueArticles(ts: seq<Transaction>): (u: seq<int>)
    ensures Distinct(u) && forall a :: a in u <==> a in Articles(ts)
  {
    var col := seq(|ts|, i requires 0 <= i < |ts| => ts[i].article);
    assert forall a :: a in col <==> a in Articles(ts) by {
      forall a | a in Articles(ts) ensures a in col {
        var i :| 0 <= i < |ts| && ts[i].article == a;
        assert col[i] == a;
      }
    }
    Unique(col)
  }

  /** The (customer, article) pairs that occur in the table. */
  function Observed(ts: seq<Transaction>): set<(int, int)> {
    set i | 0 <= i < |ts| :: Pair(ts[i])
  }

  /** The draws are usable: as many customer draws as article draws, each a
      position in its array of unique ids. */
  predicate ValidDraws(ts: seq<Transaction>, customerDraws: seq<nat>, articleDraws: seq<nat>) {
    && |customerDraws| == |articleDraws|
    && (forall k :: 0 <= k < |customerDraws| ==> customerDraws[k] < |UniqueCustomers(ts)|)
    && (forall k :: 0 <= k < |articleDraws| ==> articleDraws[k] < |UniqueArticles(ts)|)
  }

  /** The drawn customers paired with the drawn articles: the candidates, in draw order. */
  function Candidates(ts: seq<Transaction>, customerDraws: seq<nat>, articleDraws: seq<nat>): (ps: seq<(int, int)>)
    requires ValidDraws(ts, customerDraws, articleDraws)
    ensures |ps| == |customerDraws|
    ensures forall k :: 0 <= k < |ps| ==> ps[k].0 in Customers(ts) && ps[k].1 in Articles(ts)
  {
    var uc := UniqueCustomers(ts);
    var ua := UniqueArticles(ts);
    seq(|customerDraws|, k requires 0 <= k < |customerDraws| => (uc[customerDraws[k]], ua[articleDraws[k]]))
  }

  /** Line 257: the candidates that are not observed pairs, in draw order.
      Candidates repeating each other are all kept. */
  function Survivors(candidates: seq<(int, int)>, observed: set<(int, int)>): (s: seq<(int, int)>)
    ensures |s| <= |candidates|
    ensures forall p :: p in s <==> p in candidates && p !in observed
    ensures forall p :: multiset(s)[p] == if p in observed then 0 else multiset(candidates)[p]
    decreases |candidates|
  {
    if candidates == [] then []
    else
      assert candidates == [candidates[0]] + candidates[1..];
      if candidates[0] in observed then Survivors(candidates[1..], observed)
      else [candidates[0]] + Survivors(candidates[1..], observed)
  }

  /** Lines 259-262: the observed rows labelled 1, in row order, then the
      survivors labelled 0, in draw order. */
  function Merge(ts: seq<Transaction>, survivors: seq<(int, int)>): (m: seq<Labelled>)
    ensures |m| == |ts| + |survivors|
    ensures forall i :: 0 <= i < |ts| ==> m[i] == Labelled(ts[i].customer, ts[i].article, 1)
    ensures forall k :: 0 <= k < |survivors| ==> m[|ts| + k] == Labelled(survivors[k].0, survivors[k].1, 0)
  {
    seq(|ts|, i requires 0 <= i < |ts| => Labelled(ts[i].customer, ts[i].article, 1))
    + seq(|survivors|, k requires 0 <= k < |survivors| => Labelled(survivors[k].0, survivors[k].1, 0))
  }

  /** `perm` lists each position 0 .. n-1 exactly once. */
  predicate IsPermutation(perm: seq<nat>, n: nat) {
    && |perm| == n
    && (forall i :: 0 <= i < n ==> perm[i] < n)
    && (forall i, j :: 0 <= i < j < n ==> perm[i] != perm[j])
  }

  /** The elements of `xs` at the positions `idx`. */
  function Gather<T>(xs: seq<T>, idx: seq<nat>): (r: seq<T>)
    requires forall i :: 0 <= i < |idx| ==> idx[i] < |xs|
    ensures |r| == |idx| && forall i :: 0 <= i < |idx| ==> r[i] == xs[idx[i]]
  {
    seq(|idx|, i requires 0 <= i < |idx| => xs[idx[i]])
  }

  /** Reading a sequence through a permutation of its positions rearranges it
      without losing or adding anything. */
  lemma {:induction false} GatherPermutation<T>(xs: seq<T>, perm: seq<nat>)
    requires IsPermutation(perm, |xs|)
    ensures multiset(Gather(xs, perm)) == multiset(xs)
    decreases |xs|
  {
    var n := |xs|;
    if n > 0 {
      var m := perm[n - 1];
      var front := perm[..n - 1];
      var rest := xs[..m] + xs[m + 1..];
      var shifted := seq(n - 1, i requires 0 <= i < n - 1 => if front[i] < m then front[i] else front[i] - 1);
      assert forall i :: 0 <= i < n - 1 ==> front[i] != m;
      assert IsPermutation(shifted, n - 1);
      GatherPermutation(rest, shifted);
      assert Gather(rest, shifted) == Gather(xs, front);
      assert Gather(xs, perm) == Gather(xs, front) + [xs[m]];
      assert xs == xs[..m] + [xs[m]] + xs[m + 1..];
    }
  }

  /** Shuffling all rows of the merged frame with a given permutation: row i
      of the result is row `perm[i]` of the merged frame. */
  function Shuffle<T>(xs: seq<T>, perm: seq<nat>): (r: seq<T>)
    requires IsPermutation(perm, |xs|)
    ensures |r| == |xs|
    ensures multiset(r) == multiset(xs)
  {
    GatherPermutation(xs, perm);
    Gather(xs, perm)
  }

  /** The length of the merged frame the given draws produce. */
  function MergedLength(ts: seq<Transaction>, customerDraws: seq<nat>, articleDraws: seq<nat>): nat
    requires ValidDraws(ts, customerDraws, articleDraws)
  {
    |ts| + |Survivors(Candidates(ts, customerDraws, articleDraws), Observed(ts))|
  }

  /** The random inputs fit: the failing cases need none, and otherwise
      `numSample` draws per column and a shuffle of the merged frame are given. */
  predicate RandomInputs(ts: seq<Transaction>, numSample: int, customerDraws: seq<nat>, articleDraws: seq<nat>, perm: seq<nat>) {
    (|ts| > 0 && numSample > 0) ==>
      && |customerDraws| == numSample
      && ValidDraws(ts, customerDraws, articleDraws)
      && IsPermutation(perm, MergedLength(ts, customerDraws, articleDraws))
  }

  /** `create_random_candidates` (lines 247-267). The result is a permutation
      of the observed rows labelled 1 followed by the surviving candidates
      labelled 0; no row labelled 0 is an observed pair, and every id in it
      occurs in the input. Fewer than `numSample` negatives may survive. It
      raises on an empty table and on a number of samples that is not
      positive. */
  function RandomCandidates(ts: seq<Transaction>, numSample: int, customerDraws: seq<nat>, articleDraws: seq<nat>, perm: seq<nat>)
    : (r: Result<seq<Labelled>, SampleError>)
    requires RandomInputs(ts, numSample, customerDraws, articleDraws, perm)
    ensures r.Failure? <==> |ts| == 0 || numSample <= 0
    ensures |ts| == 0 && numSample != 0 ==> r == Failure(EmptyPopulation)
    ensures |ts| > 0 && numSample < 0 ==> r == Failure(NegativeSampleSize)
    ensures numSample == 0 ==> r == Failure(NoDraws)
    ensures r.Success? ==>
              var survivors := Survivors(Candidates(ts, customerDraws, articleDraws), Observed(ts));
              && multiset(r.value) == multiset(Merge(ts, survivors))
              && |ts| <= |r.value| <= |ts| + numSample
    ensures r.Success? ==> forall row :: row in r.value ==>
              && (row.purchased == 1 || row.purchased == 0)
              && (row.purchased == 0 ==> (row.customer, row.article) !in Observed(ts))
              && (row.purchased == 1 ==> (row.customer, row.article) in Observed(ts))
              && row.customer in Customers(ts) && row.article in Articles(ts)
  {
    if |ts| == 0 && numSample != 0 then Failure(EmptyPopulation)
    else if numSample < 0 then Failure(NegativeSampleSize)
    else if numSample == 0 then Failure(NoDraws)
    else
      var survivors := Survivors(Candidates(ts, customerDraws, articleDraws), Observed(ts));
      var merged := Merge(ts, survivors);
      MergedRows(ts, survivors);
      var shuffled := Shuffle(merged, perm);
      assert forall row :: row in shuffled ==> row in merged by {
        forall row | row in shuffled ensures row in merged {
          assert row in multiset(shuffled);
        }
      }
      Success(shuffled)
  }

  /** What each row of the merged frame is. */
  lemma MergedRows(ts: seq<Transaction>, survivors: seq<(int, int)>)
    requires forall p :: p in survivors ==> p !in Observed(ts) && p.0 in Customers(ts) && p.1 in Articles(ts)
    ensures forall row :: row in Merge(ts, survivors) ==>
              && (row.purchased == 1 || row.purchased == 0)
              && (row.purchased == 0 ==> (row.customer, row.article) !in Observed(ts))
              && (row.purchased == 1 ==> (row.customer, row.article) in Observed(ts))
              && row.customer in Customers(ts) && row.article in Articles(ts)
  {
    var m := Merge(ts, survivors);
    forall row | row in m
      ensures && (row.purchased == 1 || row.purchased == 0)
              && (row.purchased == 0 ==> (row.customer, row.article) !in Observed(ts))
              && (row.purchased == 1 ==> (row.customer, row.article) in Observed(ts))
              && row.customer in Customers(ts) && row.article in Articles(ts)
    {
      var j :| 0 <= j < |m| && m[j] == row;
      if j < |ts| {
        assert row == Labelled(ts[j].customer, ts[j].article, 1);
        assert Pair(ts[j]) in Observed(ts);
      } else {
        var p := survivors[j - |ts|];
        assert row == Labelled(p.0, p.1, 0);
        assert p in survivors;
      }
    }
  }

  /** A row of an observed transaction. */
  predicate IsPositive(row: Labelled) {
    row.purchased == 1
  }

  /** The rows labelled 1 of the result are as many as the input transactions. */
  lemma PositivesAreTheInput(ts: seq<Transaction>, numSample: int, customerDraws: seq<nat>, articleDraws: seq<nat>, perm: seq<nat>)
    requires RandomInputs(ts, numSample, customerDraws, articleDraws, perm)
    requires |ts| > 0 && numSample > 0
    ensures |Filter(RandomCandidates(ts, numSample, customerDraws, articleDraws, perm).value, IsPositive)| == |ts|
  {
    var r := RandomCandidates(ts, numSample, customerDraws, articleDraws, perm).value;
    var survivors := Survivors(Candidates(ts, customerDraws, articleDraws), Observed(ts));
    FilterPermutation(r, Merge(ts, survivors), IsPositive);
    MergedPositives(ts, survivors);
    assert |multiset(Filter(r, IsPositive))| == |multiset(Filter(Merge(ts, survivors), IsPositive))|;
  }

  /** The merged frame has one row labelled 1 per input transaction. */
  lemma MergedPositives(ts: seq<Transaction>, survivors: seq<(int, int)>)
    ensures |Filter(Merge(ts, survivors), IsPositive)| == |ts|
  {
    var pos := seq(|ts|, i requires 0 <= i < |ts| => Labelled(ts[i].customer, ts[i].article, 1));
    var neg := seq(|survivors|, k requires 0 <= k < |survivors| => Labelled(survivors[k].0, survivors[k].1, 0));
    assert Merge(ts, survivors) == pos + neg;
    FilterAppend(pos, neg, IsPositive);
    FilterAll(pos, IsPositive);
    FilterNone(neg, IsPositive);
  }

  /** When every (customer, article) combination of the input is already
      observed, no candidate survives, whatever the draws: an empty set of
      negatives, not an error. */
  lemma SaturatedInputHasNoNegatives(ts: seq<Transaction>, customerDraws: seq<nat>, articleDraws: seq<nat>)
    requires ValidDraws(ts, customerDraws, articleDraws)
    requires forall c, a :: c in Customers(ts) && a in Articles(ts) ==> (c, a) in Observed(ts)
    ensures Survivors(Candidates(ts, customerDraws, articleDraws), Observed(ts)) == []
  {
    ObservedCandidatesDropped(Candidates(ts, customerDraws, articleDraws), Observed(ts));
  }

  /** Candidates that are all observed pairs leave no survivor. */
  lemma {:induction false} ObservedCandidatesDropped(candidates: seq<(int, int)>, observed: set<(int, int)>)
    requires forall k :: 0 <= k < |candidates| ==> candidates[k] in observed
    ensures Survivors(candidates, observed) == []
    decreases |candidates|
  {
    if candidates != [] {
      ObservedCandidatesDropped(candidates[1..], observed);
    }
  }
}
