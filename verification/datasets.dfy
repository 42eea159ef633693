/** The dataset classes the loaders index: `SparseDataset` (history row and
    label row of a customer), `SingleDataset` (one matrix) and `DatasetMF`
    (labelled (customer, article) rows). */
module Datasets {
  import opened Results
  import opened Interaction
  import opened SparseBatch
  import opened NegativeSampling

  /** `SparseDataset` (lines 287-313): inputs and targets indexed by row. */
  datatype SparseDataset = SparseDataset(data: Matrix, targets: Matrix)

  /** `SparseDataset.__len__` (line 313): the number of rows of the inputs,
      so exactly the non-negative indices below it select an input row. */
  function SparseLength(d: SparseDataset): (n: nat)
    ensures forall index :: 0 <= index ==> (RowSlice(d.data, index).Success? <==> index < n)
  {
    d.data.rows
  }

  /** `SparseDataset.__getitem__` (line 310): row `index` of the inputs and of
      the targets; it raises when either matrix has no such row. */
  function SparseItem(d: SparseDataset, index: int): (r: Result<(Coo, Coo), IndexError>)
    ensures r.Success? <==> RowSlice(d.data, index).Success? && RowSlice(d.targets, index).Success?
    ensures r.Success? ==> r.value == (RowSlice(d.data, index).value, RowSlice(d.targets, index).value)
    ensures 0 <= index < d.data.rows && d.targets.rows == d.data.rows ==> r.Success?
  {
    var x :- RowSlice(d.data, index);
    var y :- RowSlice(d.targets, index);
    Success((x, y))
  }

  /** `SingleDataset.__getitem__` (line 339): row `index` of the matrix. */
  function SingleItem(m: Matrix, index: int): (r: Result<Coo, IndexError>)
    ensures r.Success? <==> -(m.rows as int) <= index < m.rows
    ensures r.Success? && 0 <= index ==>
              && r.value.rows == 1 && r.value.cols == m.cols
              && forall col :: 0 <= col < m.cols ==> Value(r.value.entries, 0, col) == Cell(m, (index, col))
  {
    RowSlice(m, index)
  }

  /** `SingleDataset.__len__` (line 342): exactly the non-negative indices
      below it can be read. */
  function SingleLength(m: Matrix): (n: nat)
    ensures forall index :: 0 <= index ==> (SingleItem(m, index).Success? <==> index < n)
  {
    m.rows
  }

  /** `KeyError` of a label lookup in a column after `reset_index`. */
  datatype LabelError = MissingLabel(index: int)

  /** `DatasetMF.__getitem__` (lines 322-326): the (article_id, customer_id,
      purchased) triple of row `index`, article first. Columns are looked up by
      label, so a negative index raises instead of counting from the end. */
  function MFItem(rows: seq<Labelled>, index: int): (r: Result<(int, int, int), LabelError>)
    ensures r.Success? <==> 0 <= index < |rows|
    ensures r.Failure? ==> r.error == MissingLabel(index)
    ensures r.Success? ==>
              r.value.0 == rows[index].article && r.value.1 == rows[index].customer && r.value.2 == rows[index].purchased
  {
    if 0 <= index < |rows| then Success((rows[index].article, rows[index].customer, rows[index].purchased))
    else Failure(MissingLabel(index))
  }

  /** `DatasetMF.__len__` (line 329): exactly the indices 0 .. n-1 can be read. */
  function MFLength(rows: seq<Labelled>): (n: nat)
    ensures forall index :: MFItem(rows, index).Success? <==> 0 <= index < n
  {
    |rows|
  }
}
