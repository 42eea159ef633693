/** The collate functions the data loaders call on each batch of items. */
module Collate {
  import opened Results
  import opened Interaction
  import opened SparseBatch
  import opened Datasets

  /** Why collating raises. */
  datatype CollateError =
    | EmptyBatch          // unzipping or reading the first item of an empty batch
    | IncompatibleWidths  // `vstack` of rows of different widths

  /** The first components of a batch of pairs. */
  function Firsts<A, B>(batch: seq<(A, B)>): (r: seq<A>)
    ensures |r| == |batch| && forall k :: 0 <= k < |batch| ==> r[k] == batch[k].0
  {
    seq(|batch|, k requires 0 <= k < |batch| => batch[k].0)
  }

  /** The second components of a batch of pairs. */
  function Seconds<A, B>(batch: seq<(A, B)>): (r: seq<B>)
    ensures |r| == |batch| && forall k :: 0 <= k < |batch| ==> r[k] == batch[k].1
  {
    seq(|batch|, k requires 0 <= k < |batch| => batch[k].1)
  }

  /** Stack sparse rows and convert the stack to a tensor. */
  function StackToTensor(blocks: seq<Coo>): (r: Result<Tensor, CollateError>)
    ensures r.Success? <==> blocks != [] && SameWidth(blocks)
    ensures blocks == [] ==> r == Failure(EmptyBatch)
    ensures r.Success? ==> r.value == CooToTensor(VStack(blocks).value)
  {
    match VStack(blocks)
    case Failure(NoBlocks) => Failure(EmptyBatch)
    case Failure(WidthMismatch) => Failure(IncompatibleWidths)
    case Success(m) => Success(CooToTensor(m))
  }

  /** What a stacked tensor holds at (r, c). */
  function TensorValue(t: Tensor, r: int, c: int): int
    requires Consistent(t)
  {
    Value(TensorToCoo(t).entries, r, c)
  }

  /** A batch of one-row items of one width (what indexing a dataset yields). */
  predicate RowBatch(rows: seq<Coo>) {
    && rows != []
    && (forall k :: 0 <= k < |rows| ==> rows[k].rows == 1 && WellFormed(rows[k]))
    && SameWidth(rows)
  }

  /** Stacking a row batch into a tensor: one row per item, the items' width,
      row k holding item k, and as many stored values as the items together. */
  lemma StackedTensorRows(rows: seq<Coo>)
    requires RowBatch(rows)
    ensures var t := StackToTensor(rows).value;
            && Consistent(t) && t.size == (|rows|, rows[0].cols) && |t.values| == TotalEntries(rows)
            && forall k, c :: 0 <= k < |rows| ==> TensorValue(t, k, c) == Value(rows[k].entries, 0, c)
  {
    StackOneRowBlocks(rows);
    TensorRoundTrip(VStack(rows).value, StackToTensor(rows).value);
  }

  /** `sparse_batch_collate` (lines 362-378), sparse branch: the inputs and the
      targets of the batch are each stacked, in batch order, into one tensor;
      an empty batch raises, and so do rows of different widths. */
  function SparseBatchCollate(batch: seq<(Coo, Coo)>): (r: Result<(Tensor, Tensor), CollateError>)
    ensures batch == [] ==> r == Failure(EmptyBatch)
    ensures r.Success? <==> batch != [] && SameWidth(Firsts(batch)) && SameWidth(Seconds(batch))
    ensures r.Success? && RowBatch(Firsts(batch)) && RowBatch(Seconds(batch)) ==>
              var (x, y) := r.value;
              && Consistent(x) && Consistent(y)
              && x.size == (|batch|, batch[0].0.cols) && y.size == (|batch|, batch[0].1.cols)
              && |x.values| == TotalEntries(Firsts(batch)) && |y.values| == TotalEntries(Seconds(batch))
              && (forall k, c :: 0 <= k < |batch| ==> TensorValue(x, k, c) == Value(batch[k].0.entries, 0, c))
              && (forall k, c :: 0 <= k < |batch| ==> TensorValue(y, k, c) == Value(batch[k].1.entries, 0, c))
  {
    if batch == [] then Failure(EmptyBatch)
    else
      var x :- StackToTensor(Firsts(batch));
      var y :- StackToTensor(Seconds(batch));
      if RowBatch(Firsts(batch)) && RowBatch(Seconds(batch)) then
        StackedTensorRows(Firsts(batch));
        StackedTensorRows(Seconds(batch));
        Success((x, y))
      else Success((x, y))
  }

  /** `sparse_batch_collate_single` (lines 380-390), sparse branch: the rows of
      the batch stacked, in batch order, into one tensor. */
  function SparseBatchCollateSingle(batch: seq<Coo>): (r: Result<Tensor, CollateError>)
    ensures batch == [] ==> r == Failure(EmptyBatch)
    ensures r.Success? <==> batch != [] && SameWidth(batch)
    ensures r.Success? && RowBatch(batch) ==>
              && Consistent(r.value) && r.value.size == (|batch|, batch[0].cols)
              && |r.value.values| == TotalEntries(batch)
              && forall k, c :: 0 <= k < |batch| ==> TensorValue(r.value, k, c) == Value(batch[k].entries, 0, c)
  {
    var t :- StackToTensor(batch);
    if RowBatch(batch) then
      StackedTensorRows(batch);
      Success(t)
    else Success(t)
  }

  /** `MF_batch_collate` (lines 392-414) on scalar items: the triples unzipped
      into three sequences of the batch's length, in batch order; an empty
      batch raises. */
  function MFBatchCollate(batch: seq<(int, int, int)>): (r: Result<(seq<int>, seq<int>, seq<int>), CollateError>)
    ensures r.Success? <==> batch != []
    ensures r.Success? ==>
              var (articles, customers, targets) := r.value;
              && |articles| == |batch| && |customers| == |batch| && |targets| == |batch|
              && forall k :: 0 <= k < |batch| ==> batch[k] == (articles[k], customers[k], targets[k])
  {
    if batch == [] then Failure(EmptyBatch)
    else
      Success((seq(|batch|, k requires 0 <= k < |batch| => batch[k].0),
               seq(|batch|, k requires 0 <= k < |batch| => batch[k].1),
               seq(|batch|, k requires 0 <= k < |batch| => batch[k].2)))
  }

  /** Zipping the three collated sequences back gives the batch. */
  lemma MFCollateRoundTrip(batch: seq<(int, int, int)>)
    requires batch != []
    ensures var (a, c, t) := MFBatchCollate(batch).value;
            seq(|batch|, k requires 0 <= k < |batch| => (a[k], c[k], t[k])) == batch
  {
  }

  /** Rows of a matrix at the given non-negative positions, as one-row matrices. */
  function Slices(m: Matrix, positions: seq<nat>): (rows: seq<Coo>)
    requires forall k :: 0 <= k < |positions| ==> positions[k] < m.rows
    ensures |rows| == |positions|
  {
    seq(|positions|, k requires 0 <= k < |positions| => RowSlice(m, positions[k]).value)
  }

  /** Slices of a matrix form a row batch whose row k holds matrix row `positions[k]`. */
  lemma SlicesAreRowBatch(m: Matrix, positions: seq<nat>)
    requires positions != []
    requires forall k :: 0 <= k < |positions| ==> positions[k] < m.rows
    ensures RowBatch(Slices(m, positions)) && Slices(m, positions)[0].cols == m.cols
    ensures forall k, c :: 0 <= k < |positions| && 0 <= c < m.cols ==>
              Value(Slices(m, positions)[k].entries, 0, c) == Cell(m, (positions[k], c))
  {
    var rows := Slices(m, positions);
    forall k | 0 <= k < |rows|
      ensures rows[k].rows == 1 && WellFormed(rows[k]) && rows[k].cols == m.cols
      ensures forall c :: 0 <= c < m.cols ==> Value(rows[k].entries, 0, c) == Cell(m, (positions[k], c))
    {
      var r := RowSlice(m, positions[k]);
      assert r.Success? && rows[k] == r.value;
    }
  }

  /** The dataset items at the positions are the row slices of its two matrices. */
  lemma ItemsAreSlices(d: SparseDataset, positions: seq<nat>)
    requires forall k :: 0 <= k < |positions| ==> positions[k] < d.data.rows && positions[k] < d.targets.rows
    ensures var items := seq(|positions|, k requires 0 <= k < |positions| => SparseItem(d, positions[k]).value);
            Firsts(items) == Slices(d.data, positions) && Seconds(items) == Slices(d.targets, positions)
  {
    var items := seq(|positions|, k requires 0 <= k < |positions| => SparseItem(d, positions[k]).value);
    forall k | 0 <= k < |positions|
      ensures items[k].0 == Slices(d.data, positions)[k] && items[k].1 == Slices(d.targets, positions)[k]
    {
      var r := SparseItem(d, positions[k]);
      assert r.Success?;
    }
  }

  /** A loader batch of a sparse dataset (`load_data`, lines 436-443) at the
      given row positions: the items of `SparseDataset` collated by
      `sparse_batch_collate`. */
  function DatasetBatch(d: SparseDataset, positions: seq<nat>): (r: Result<(Tensor, Tensor), CollateError>)
    requires forall k :: 0 <= k < |positions| ==> positions[k] < d.data.rows && positions[k] < d.targets.rows
    ensures positions == [] ==> r == Failure(EmptyBatch)
    ensures positions != [] ==> r.Success?
  {
    var items := seq(|positions|, k requires 0 <= k < |positions| => SparseItem(d, positions[k]).value);
    ItemsAreSlices(d, positions);
    if positions == [] then SparseBatchCollate(items)
    else
      SlicesAreRowBatch(d.data, positions);
      SlicesAreRowBatch(d.targets, positions);
      SparseBatchCollate(items)
  }

  /** Row k of a collated dataset batch is row `positions[k]` of the dataset:
      the input tensor holds the input matrix's values of that row, and the
      target tensor the target matrix's. */
  lemma CollatedDatasetBatch(d: SparseDataset, positions: seq<nat>)
    requires positions != []
    requires forall k :: 0 <= k < |positions| ==> positions[k] < d.data.rows && positions[k] < d.targets.rows
    ensures var r := DatasetBatch(d, positions).value;
            && Consistent(r.0) && Consistent(r.1)
            && r.0.size == (|positions|, d.data.cols) && r.1.size == (|positions|, d.targets.cols)
            && (forall k, c :: 0 <= k < |positions| && 0 <= c < d.data.cols ==>
                 TensorValue(r.0, k, c) == Cell(d.data, (positions[k], c)))
            && (forall k, c :: 0 <= k < |positions| && 0 <= c < d.targets.cols ==>
                 TensorValue(r.1, k, c) == Cell(d.targets, (positions[k], c)))
  {
    ItemsAreSlices(d, positions);
    SlicesAreRowBatch(d.data, positions);
    SlicesAreRowBatch(d.targets, positions);
  }
}
