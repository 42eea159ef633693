/** The temporal train/validation split (`split_transactions`) and the
    customer baskets built on it (`customer_buckets`). */
module TemporalSplit {
  import opened Columns
  import opened Transactions

  /** The three facts that make `last` the per-customer maximum date of `ts`. */
  ghost predicate IsLastPurchase(ts: seq<Transaction>, last: map<int, int>) {
    && last.Keys == Customers(ts)
    && (forall i :: 0 <= i < |ts| ==> ts[i].date <= last[ts[i].customer])
    && (forall c :: c in last ==> exists i :: 0 <= i < |ts| && ts[i].customer == c && ts[i].date == last[c])
  }

  /** Each customer's latest date, the per-customer maximum of the dates. */
  function LastPurchase(ts: seq<Transaction>): (last: map<int, int>)
    ensures IsLastPurchase(ts, last)
    decreases |ts|
  {
    if ts == [] then map[]
    else
      var prev := LastPurchase(ts[..|ts| - 1]);
      var t := ts[|ts| - 1];
      LastPurchaseStep(ts[..|ts| - 1], t, prev);
      assert ts == ts[..|ts| - 1] + [t];
      if t.customer in prev && t.date <= prev[t.customer] then prev else prev[t.customer := t.date]
  }

  /** Folding one more row into the maximum of the rows before it. */
  lemma LastPurchaseStep(init: seq<Transaction>, t: Transaction, prev: map<int, int>)
    requires IsLastPurchase(init, prev)
    ensures IsLastPurchase(init + [t], if t.customer in prev && t.date <= prev[t.customer] then prev else prev[t.customer := t.date])
  {
    var ts := init + [t];
    var last := if t.customer in prev && t.date <= prev[t.customer] then prev else prev[t.customer := t.date];
    assert forall i :: 0 <= i < |init| ==> ts[i] == init[i];
    assert ts[|init|] == t;
    assert Customers(ts) == Customers(init) + {t.customer} by {
      forall c | c in Customers(init) ensures c in Customers(ts) {
        var i :| 0 <= i < |init| && init[i].customer == c;
        assert ts[i].customer == c;
      }
      assert t.customer in Customers(ts);
    }
    forall c | c in last ensures exists i :: 0 <= i < |ts| && ts[i].customer == c && ts[i].date == last[c] {
      if c == t.customer && last[c] == t.date {
        assert ts[|init|].customer == c && ts[|init|].date == last[c];
      } else {
        var i :| 0 <= i < |init| && init[i].customer == c && init[i].date == prev[c];
        assert ts[i].customer == c && ts[i].date == last[c];
      }
    }
  }

  /** True when every row's customer has a latest date in `last`. */
  predicate Covered(ts: seq<Transaction>, last: map<int, int>) {
    forall i :: 0 <= i < |ts| ==> ts[i].customer in last
  }

  /** The rows not dated on their customer's latest date, in row order. */
  function History(ts: seq<Transaction>, last: map<int, int>): (x: seq<Transaction>)
    requires Covered(ts, last)
    ensures forall t :: t in x <==> t in ts && t.date != last[t.customer]
    decreases |ts|
  {
    if ts == [] then []
    else if ts[0].date != last[ts[0].customer] then [ts[0]] + History(ts[1..], last)
    else History(ts[1..], last)
  }

  /** The rows dated on their customer's latest date, in row order. */
  function Holdout(ts: seq<Transaction>, last: map<int, int>): (y: seq<Transaction>)
    requires Covered(ts, last)
    ensures forall t :: t in y <==> t in ts && t.date == last[t.customer]
    decreases |ts|
  {
    if ts == [] then []
    else if ts[0].date == last[ts[0].customer] then [ts[0]] + Holdout(ts[1..], last)
    else Holdout(ts[1..], last)
  }

  /** The two filters split the rows: every row goes to exactly one side. */
  lemma {:induction false} FiltersPartition(ts: seq<Transaction>, last: map<int, int>)
    requires Covered(ts, last)
    ensures multiset(History(ts, last)) + multiset(Holdout(ts, last)) == multiset(ts)
    ensures |History(ts, last)| + |Holdout(ts, last)| == |ts|
    decreases |ts|
  {
    if ts != [] {
      FiltersPartition(ts[1..], last);
      assert ts == [ts[0]] + ts[1..];
    }
  }

  /** `split_transactions` (lines 181-186): every row goes to exactly one of
      the history `x` and the holdout `y`; `y` holds exactly the rows dated on
      their customer's latest date, `x` those strictly before it. */
  function Split(ts: seq<Transaction>): (r: (seq<Transaction>, seq<Transaction>))
    ensures multiset(r.0) + multiset(r.1) == multiset(ts)
    ensures |r.0| + |r.1| == |ts|
    ensures forall i :: 0 <= i < |ts| ==> (ts[i] in r.1 <==> ts[i].date == LastPurchase(ts)[ts[i].customer])
    ensures forall i :: 0 <= i < |ts| ==> (ts[i] in r.0 <==> ts[i].date < LastPurchase(ts)[ts[i].customer])
    ensures forall t :: t in r.0 ==> t in ts
    ensures forall t :: t in r.1 ==> t in ts
  {
    var last := LastPurchase(ts);
    FiltersPartition(ts, last);
    (History(ts, last), Holdout(ts, last))
  }

  /** A customer whose rows all share one date has no history rows at all. */
  lemma SingleDateCustomerHasNoHistory(ts: seq<Transaction>, c: int)
    requires forall i, j :: 0 <= i < |ts| && 0 <= j < |ts| && ts[i].customer == c && ts[j].customer == c ==> ts[i].date == ts[j].date
    ensures forall t :: t in Split(ts).0 ==> t.customer != c
  {
    forall t | t in Split(ts).0 ensures t.customer != c {
      var i :| 0 <= i < |ts| && ts[i] == t;
    }
  }

  /** Every customer keeps at least one holdout row: the rows of its latest date. */
  lemma HoldoutCoversEveryCustomer(ts: seq<Transaction>)
    ensures Customers(Split(ts).1) == Customers(ts)
  {
    var y := Split(ts).1;
    var last := LastPurchase(ts);
    forall c | c in Customers(ts) ensures c in Customers(y) {
      var k :| 0 <= k < |ts| && ts[k].customer == c && ts[k].date == last[c];
      assert ts[k] in y;
      var j :| 0 <= j < |y| && y[j] == ts[k];
    }
    forall c | c in Customers(y) ensures c in Customers(ts) {
      var j :| 0 <= j < |y| && y[j].customer == c;
      assert y[j] in ts;
      var k :| 0 <= k < |ts| && ts[k] == y[j];
    }
  }

  /** The article codes of one customer's rows, in row order (one basket of
      grouping of article codes into lists by customer). */
  function Basket(ts: seq<Transaction>, c: int): (b: seq<int>)
    ensures |b| <= |ts|
    ensures forall a :: a in b <==> exists i :: 0 <= i < |ts| && ts[i].customer == c && ts[i].article == a
    decreases |ts|
  {
    if ts == [] then []
    else
      var rest := Basket(ts[1..], c);
      assert forall i :: 1 <= i < |ts| ==> ts[i] == ts[1..][i - 1];
      if ts[0].customer == c then [ts[0].article] + rest else rest
  }

  /** Appending one row extends only that row's customer's basket. */
  lemma BasketSnoc(ts: seq<Transaction>, t: Transaction, c: int)
    ensures Basket(ts + [t], c) == Basket(ts, c) + (if t.customer == c then [t.article] else [])
    decreases |ts|
  {
    if ts != [] {
      assert (ts + [t])[1..] == ts[1..] + [t];
      BasketSnoc(ts[1..], t, c);
    }
  }

  /** A customer without rows has an empty basket. */
  lemma EmptyBasket(ts: seq<Transaction>, c: int)
    requires c !in Customers(ts)
    ensures Basket(ts, c) == []
    decreases |ts|
  {
    if ts != [] {
      assert ts[0].customer in Customers(ts);
      assert Customers(ts[1..]) <= Customers(ts) by {
        forall d | d in Customers(ts[1..]) ensures d in Customers(ts) {
          var i :| 0 <= i < |ts| - 1 && ts[1..][i].customer == d;
          assert ts[i + 1].customer == d;
        }
      }
      EmptyBasket(ts[1..], c);
    }
  }

  /** The grouping of article codes into per-customer lists, computed in one
      pass: one key per customer, whose value is that customer's articles in
      row order. */
  method GroupBaskets(ts: seq<Transaction>) returns (b: map<int, seq<int>>)
    ensures b.Keys == Customers(ts)
    ensures forall c :: c in b ==> b[c] == Basket(ts, c)
  {
    b := map[];
    var n := 0;
    while n < |ts|
      invariant 0 <= n <= |ts|
      invariant b.Keys == Customers(ts[..n])
      invariant forall c :: c in b ==> b[c] == Basket(ts[..n], c)
    {
      var t := ts[n];
      assert ts[..n + 1] == ts[..n] + [t];
      forall c ensures Basket(ts[..n + 1], c) == Basket(ts[..n], c) + (if t.customer == c then [t.article] else []) {
        BasketSnoc(ts[..n], t, c);
      }
      if t.customer in b {
        b := b[t.customer := b[t.customer] + [t.article]];
      } else {
        EmptyBasket(ts[..n], t.customer);
        b := b[t.customer := [t.article]];
      }
      assert Customers(ts[..n + 1]) == Customers(ts[..n]) + {t.customer} by {
        assert forall i :: 0 <= i < n ==> ts[..n + 1][i] == ts[..n][i];
        assert ts[..n + 1][n] == t;
      }
      n := n + 1;
    }
    assert ts[..n] == ts;
  }

  /** A customer's train and test baskets together hold exactly the articles
      of that customer's rows. */
  lemma {:induction false} BasketsPartition(ts: seq<Transaction>, last: map<int, int>, c: int)
    requires Covered(ts, last)
    ensures multiset(Basket(History(ts, last), c)) + multiset(Basket(Holdout(ts, last), c)) == multiset(Basket(ts, c))
    decreases |ts|
  {
    if ts != [] {
      BasketsPartition(ts[1..], last, c);
    }
  }

  /** The baskets `customer_buckets` returns: a train/test pair, or all baskets. */
  datatype Buckets = TrainTest(train: map<int, seq<int>>, test: map<int, seq<int>>) | All(buckets: map<int, seq<int>>)

  /** `customer_buckets` (lines 156-170): with `train_test` the baskets of the
      history and the holdout of `split_transactions`, otherwise the baskets of
      all rows. Every customer has a test basket; train baskets exist only for
      customers with rows before their latest date. */
  method CustomerBuckets(ts: seq<Transaction>, trainTest: bool) returns (r: Buckets)
    ensures trainTest <==> r.TrainTest?
    ensures r.TrainTest? ==>
              && r.train.Keys == Customers(Split(ts).0)
              && r.test.Keys == Customers(ts)
              && (forall c :: c in r.train ==> r.train[c] == Basket(Split(ts).0, c))
              && (forall c :: c in r.test ==> r.test[c] == Basket(Split(ts).1, c))
              && (forall c :: c in r.test ==> |r.test[c]| + (if c in r.train then |r.train[c]| else 0) == |Basket(ts, c)|)
    ensures r.All? ==> r.buckets.Keys == Customers(ts) && forall c :: c in r.buckets ==> r.buckets[c] == Basket(ts, c)
  {
    if trainTest {
      var (x, y) := Split(ts);
      var train := GroupBaskets(x);
      var test := GroupBaskets(y);
      HoldoutCoversEveryCustomer(ts);
      forall c | c in test ensures |test[c]| + (if c in train then |train[c]| else 0) == |Basket(ts, c)| {
        BasketsPartition(ts, LastPurchase(ts), c);
        assert |multiset(Basket(ts, c))| == |Basket(ts, c)|;
        if c !in train {
          EmptyBasket(x, c);
        }
      }
      r := TrainTest(train, test);
    } else {
      var all := GroupBaskets(ts);
      r := All(all);
    }
  }
}
