/** The customer x article interaction matrices of `matrix_representation`:
    purchase counts for the history and the whole table, 0/1 labels for the
    holdout. A sparse matrix is its shape and a map from coordinates to the
    nonzero values it stores. */
module Interaction {
  import opened Results
  import opened Transactions
  import opened TemporalSplit

  /** `article_size` (line 199): the size of the article catalogue. */
  const ArticleCount: nat := 105542

  /** A sparse integer matrix: its shape and the values it stores. */
  datatype Matrix = Matrix(rows: nat, cols: nat, cells: map<(int, int), nat>)

  /** Why building a matrix raises. */
  datatype MatrixError =
    | EmptyTransactions   // the maximum of an empty column is NaN, which `csr_matrix` rejects as a shape
    | InvalidShape        // a negative dimension in `shape`
    | IndexOutOfBounds    // a coordinate outside `shape`

  /** Every stored value lies inside the shape and is nonzero. */
  predicate Valid(m: Matrix) {
    forall p | p in m.cells :: 0 <= p.0 < m.rows && 0 <= p.1 < m.cols && m.cells[p] > 0
  }

  /** The value at (r, c), 0 where nothing is stored. */
  function Cell(m: Matrix, p: (int, int)): nat {
    if p in m.cells then m.cells[p] else 0
  }

  /** How often each coordinate occurs: the duplicate summing of the COO to
      CSR conversion applied to a column of ones. */
  function Counts(ps: seq<(int, int)>): (m: map<(int, int), nat>)
    ensures forall p :: p in m <==> p in ps
    ensures forall p :: p in m ==> m[p] == multiset(ps)[p]
    decreases |ps|
  {
    if ps == [] then map[]
    else
      var init := ps[..|ps| - 1];
      var p := ps[|ps| - 1];
      var prev := Counts(init);
      assert ps == init + [p];
      prev[p := (if p in prev then prev[p] else 0) + 1]
  }

  /** The counts depend only on how often each coordinate occurs, not on the
      order of the rows: rebuilding from the same rows in any order gives the
      same matrix. */
  lemma CountsIgnoreOrder(ps: seq<(int, int)>, qs: seq<(int, int)>)
    requires multiset(ps) == multiset(qs)
    ensures Counts(ps) == Counts(qs)
  {
    assert forall p :: p in ps <==> p in multiset(ps);
    assert forall p :: p in qs <==> p in multiset(qs);
    assert Counts(ps).Keys == Counts(qs).Keys;
  }

  /** Every coordinate lies inside a `rows` x `cols` shape. */
  predicate InBounds(ps: seq<(int, int)>, rows: int, cols: int) {
    forall i :: 0 <= i < |ps| ==> 0 <= ps[i].0 < rows && 0 <= ps[i].1 < cols
  }

  /** A CSR matrix built from a column of ones at the given coordinates and a
      given shape: each cell holds the number of input coordinates equal to
      it, every other cell is 0; a negative dimension or a coordinate outside
      the shape raises. */
  function CooToMatrix(ps: seq<(int, int)>, rows: int, cols: int): (r: Result<Matrix, MatrixError>)
    ensures rows < 0 || cols < 0 ==> r == Failure(InvalidShape)
    ensures r.Success? <==> rows >= 0 && cols >= 0 && InBounds(ps, rows, cols)
    ensures r.Failure? ==> r.error == InvalidShape || r.error == IndexOutOfBounds
    ensures r.Success? ==> r.value.rows == rows && r.value.cols == cols && Valid(r.value)
    ensures r.Success? ==> forall p :: Cell(r.value, p) == multiset(ps)[p]
  {
    if rows < 0 || cols < 0 then Failure(InvalidShape)
    else if !InBounds(ps, rows, cols) then Failure(IndexOutOfBounds)
    else
      var m := Matrix(rows, cols, Counts(ps));
      assert Valid(m) by {
        forall p | p in m.cells ensures 0 <= p.0 < rows && 0 <= p.1 < cols {
          var i :| 0 <= i < |ps| && ps[i] == p;
        }
      }
      Success(m)
  }

  /** The largest customer code of a nonempty table. */
  function MaxCustomer(ts: seq<Transaction>): (m: int)
    requires |ts| > 0
    ensures m in Customers(ts)
    ensures forall i :: 0 <= i < |ts| ==> ts[i].customer <= m
    decreases |ts|
  {
    if |ts| == 1 then ts[0].customer
    else
      var rest := MaxCustomer(ts[1..]);
      assert forall i :: 1 <= i < |ts| ==> ts[i] == ts[1..][i - 1];
      assert rest in Customers(ts) by {
        var i :| 0 <= i < |ts| - 1 && ts[1..][i].customer == rest;
        assert ts[i + 1].customer == rest;
      }
      if ts[0].customer >= rest then ts[0].customer else rest
  }

  /** Setting every value above 1 to 1: a cell becomes 1 exactly where it was
      nonzero and stays 0 elsewhere; the shape is kept. */
  function Clamp(m: Matrix): (r: Matrix)
    ensures r.rows == m.rows && r.cols == m.cols
    ensures forall p :: Cell(r, p) <= 1 && (Cell(r, p) == 0 <==> Cell(m, p) == 0)
    ensures Valid(m) ==> Valid(r)
  {
    Matrix(m.rows, m.cols, map p | p in m.cells :: if m.cells[p] > 1 then 1 else m.cells[p])
  }

  /** What `matrix_representation` returns. */
  datatype Representation = TrainVal(x: Matrix, y: Matrix) | Whole(matrix: Matrix)

  /** The rows every matrix of the table is built from are inside the shape. */
  predicate Encodable(ts: seq<Transaction>) {
    forall i :: 0 <= i < |ts| ==> 0 <= ts[i].customer && 0 <= ts[i].article < ArticleCount
  }

  /** `matrix_representation` (lines 198-235). The shape is (largest customer
      code + 1, `ArticleCount`). With `train_test`, the history matrix counts
      each (customer, article) pair of the history rows and the label matrix
      holds 1 exactly at the pairs of the holdout rows; otherwise one matrix
      counts the pairs of all rows. It fails on an empty table, on a shape with
      a negative dimension and on codes outside the shape. */
  function MatrixRepresentation(ts: seq<Transaction>, trainTest: bool): (r: Result<Representation, MatrixError>)
    ensures |ts| == 0 ==> r == Failure(EmptyTransactions)
    ensures |ts| > 0 && MaxCustomer(ts) + 1 < 0 ==> r == Failure(InvalidShape)
    ensures r.Success? <==> |ts| > 0 && Encodable(ts)
    ensures r.Success? ==> (r.value.TrainVal? <==> trainTest)
    ensures r.Success? && r.value.TrainVal? ==>
              var (x, y) := (r.value.x, r.value.y);
              && x.rows == y.rows == MaxCustomer(ts) + 1 && x.cols == y.cols == ArticleCount
              && Valid(x) && Valid(y)
              && (forall p :: Cell(x, p) == multiset(Pairs(Split(ts).0))[p])
              && (forall p :: Cell(y, p) == if p in Pairs(Split(ts).1) then 1 else 0)
    ensures r.Success? && r.value.Whole? ==>
              var m := r.value.matrix;
              && m.rows == MaxCustomer(ts) + 1 && m.cols == ArticleCount && Valid(m)
              && (forall p :: Cell(m, p) == multiset(Pairs(ts))[p])
  {
    if |ts| == 0 then Failure(EmptyTransactions)
    else
      var size := MaxCustomer(ts) + 1;
      if trainTest then
        var (x, y) := Split(ts);
        SplitBounds(ts, size);
        WholeBounds(ts, size);
        var xm :- CooToMatrix(Pairs(x), size, ArticleCount);
        var ym :- CooToMatrix(Pairs(y), size, ArticleCount);
        Success(TrainVal(xm, Clamp(ym)))
      else
        WholeBounds(ts, size);
        var m :- CooToMatrix(Pairs(ts), size, ArticleCount);
        Success(Whole(m))
  }

  /** The whole table is inside the shape exactly when it is encodable. */
  lemma WholeBounds(ts: seq<Transaction>, size: int)
    requires |ts| > 0 && size == MaxCustomer(ts) + 1
    ensures InBounds(Pairs(ts), size, ArticleCount) <==> Encodable(ts)
  {
    if Encodable(ts) {
      SubtableBounds(ts, ts, size);
    } else {
      var i :| 0 <= i < |ts| && !(0 <= ts[i].customer && 0 <= ts[i].article < ArticleCount);
      RowBounds(ts, i, size);
    }
  }

  /** The history and the holdout are inside the shape exactly when the whole
      table is encodable. */
  lemma SplitBounds(ts: seq<Transaction>, size: int)
    requires |ts| > 0 && size == MaxCustomer(ts) + 1
    ensures InBounds(Pairs(Split(ts).0), size, ArticleCount) && InBounds(Pairs(Split(ts).1), size, ArticleCount)
            <==> Encodable(ts)
  {
    if Encodable(ts) {
      SubtableBounds(Split(ts).0, ts, size);
      SubtableBounds(Split(ts).1, ts, size);
    } else {
      var i :| 0 <= i < |ts| && !(0 <= ts[i].customer && 0 <= ts[i].article < ArticleCount);
      SideBounds(ts, i, size);
    }
  }

  /** A row outside the shape puts the history or the holdout outside it. */
  lemma SideBounds(ts: seq<Transaction>, i: int, size: int)
    requires 0 <= i < |ts|
    requires !(0 <= ts[i].customer && 0 <= ts[i].article < ArticleCount)
    ensures !InBounds(Pairs(Split(ts).0), size, ArticleCount) || !InBounds(Pairs(Split(ts).1), size, ArticleCount)
  {
    var x := Split(ts).0;
    var y := Split(ts).1;
    var t := ts[i];
    if t in x {
      var j :| 0 <= j < |x| && x[j] == t;
      RowBounds(x, j, size);
    } else {
      assert t in y;
      var j :| 0 <= j < |y| && y[j] == t;
      RowBounds(y, j, size);
    }
  }

  /** A row outside the shape puts its table outside the shape. */
  lemma RowBounds(ts: seq<Transaction>, i: int, size: int)
    requires 0 <= i < |ts|
    requires !(0 <= ts[i].customer && 0 <= ts[i].article < ArticleCount)
    ensures !InBounds(Pairs(ts), size, ArticleCount)
  {
    assert Pairs(ts)[i] == Pair(ts[i]);
  }

  /** Rows drawn from an encodable table are inside its shape. */
  lemma SubtableBounds(sub: seq<Transaction>, ts: seq<Transaction>, size: int)
    requires |ts| > 0 && size == MaxCustomer(ts) + 1 && Encodable(ts)
    requires forall t :: t in sub ==> t in ts
    ensures InBounds(Pairs(sub), size, ArticleCount)
  {
    forall i | 0 <= i < |sub| ensures 0 <= sub[i].customer < size && 0 <= sub[i].article < ArticleCount {
      assert sub[i] in ts;
    }
  }

  /** The pairs of the history and the holdout are together the pairs of the table. */
  lemma {:induction false} PairsPartition(ts: seq<Transaction>, last: map<int, int>)
    requires Covered(ts, last)
    ensures multiset(Pairs(History(ts, last))) + multiset(Pairs(Holdout(ts, last))) == multiset(Pairs(ts))
    decreases |ts|
  {
    if ts != [] {
      PairsPartition(ts[1..], last);
      PairsAppend([ts[0]], ts[1..]);
      assert ts == [ts[0]] + ts[1..];
      if ts[0].date != last[ts[0].customer] {
        PairsAppend([ts[0]], History(ts[1..], last));
      } else {
        PairsAppend([ts[0]], Holdout(ts[1..], last));
      }
    }
  }

  /** Each history count plus the number of holdout rows of the same pair is
      the count of the whole-table matrix; a label is 1 only where the whole
      table has a purchase. */
  lemma HistoryAndHoldoutMakeWhole(ts: seq<Transaction>)
    requires |ts| > 0 && Encodable(ts)
    ensures var tv := MatrixRepresentation(ts, true).value;
            var whole := MatrixRepresentation(ts, false).value.matrix;
            forall p :: Cell(tv.x, p) + multiset(Pairs(Split(ts).1))[p] == Cell(whole, p)
                        && Cell(tv.y, p) <= Cell(whole, p)
  {
    var tv := MatrixRepresentation(ts, true);
    var whole := MatrixRepresentation(ts, false);
    assert tv.Success? && tv.value.TrainVal? && whole.Success? && whole.value.Whole?;
    PairsPartition(ts, LastPurchase(ts));
    var (x, y) := Split(ts);
    assert multiset(Pairs(x)) + multiset(Pairs(y)) == multiset(Pairs(ts));
    forall p ensures Cell(tv.value.x, p) + multiset(Pairs(y))[p] == Cell(whole.value.matrix, p)
                     && Cell(tv.value.y, p) <= Cell(whole.value.matrix, p)
    {
      assert Cell(tv.value.x, p) == multiset(Pairs(x))[p];
      assert Cell(whole.value.matrix, p) == multiset(Pairs(ts))[p];
      assert p in Pairs(y) ==> multiset(Pairs(y))[p] >= 1;
    }
  }
}
