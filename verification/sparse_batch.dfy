/** The sparse formats the loaders hand to training: a COO matrix (shape and
    stored entries, duplicates summing), the row slice of a CSR matrix, the
    vertical stacking of `scipy.sparse.vstack`, and the torch sparse tensor
    of `sparse_coo_to_tensor`. */
module SparseBatch {
  import opened Results
  import opened Interaction

  /** One stored entry of a COO matrix. */
  datatype Entry = Entry(row: int, col: int, val: int)

  /** A COO matrix: its shape and its entries in storage order. */
  datatype Coo = Coo(rows: nat, cols: nat, entries: seq<Entry>)

  /** `IndexError` of a row index outside the matrix. */
  datatype IndexError = RowIndexOutOfRange(index: int)

  /** Why stacking raises. */
  datatype StackError = NoBlocks | WidthMismatch

  /** Every entry lies inside the shape. */
  predicate WellFormed(m: Coo) {
    forall k :: 0 <= k < |m.entries| ==> 0 <= m.entries[k].row < m.rows && 0 <= m.entries[k].col < m.cols
  }

  /** The value a COO matrix denotes at (r, c): the sum of the entries stored there. */
  function Value(es: seq<Entry>, r: int, c: int): int
    decreases |es|
  {
    if es == [] then 0
    else (if es[0].row == r && es[0].col == c then es[0].val else 0) + Value(es[1..], r, c)
  }

  /** Values add up over a concatenation of entry lists. */
  lemma {:induction false} ValueAppend(a: seq<Entry>, b: seq<Entry>)
    ensures forall r, c :: Value(a + b, r, c) == Value(a, r, c) + Value(b, r, c)
    decreases |a|
  {
    if a == [] {
      assert a + b == b;
    } else {
      assert (a + b)[0] == a[0];
      assert (a + b)[1..] == a[1..] + b;
      ValueAppend(a[1..], b);
    }
  }

  /** A row no entry is stored in denotes zeros. */
  lemma {:induction false} ValueOfEmptyRow(es: seq<Entry>, r: int)
    requires forall k :: 0 <= k < |es| ==> es[k].row != r
    ensures forall c :: Value(es, r, c) == 0
    decreases |es|
  {
    if es != [] {
      ValueOfEmptyRow(es[1..], r);
    }
  }

  /** The stored cells of row `i` of `m` from column `c` on, in increasing
      column order, as entries of a one-row matrix. */
  function RowFrom(m: Matrix, i: int, c: nat): (es: seq<Entry>)
    requires c <= m.cols
    ensures forall k :: 0 <= k < |es| ==>
              es[k].row == 0 && c <= es[k].col < m.cols && (i, es[k].col) in m.cells && es[k].val == m.cells[(i, es[k].col)]
    ensures forall k, l :: 0 <= k < l < |es| ==> es[k].col < es[l].col
    ensures forall col :: Value(es, 0, col) == if c <= col < m.cols then Cell(m, (i, col)) else 0
    decreases m.cols - c
  {
    if c == m.cols then []
    else
      var rest := RowFrom(m, i, c + 1);
      var head := if (i, c) in m.cells then [Entry(0, c, m.cells[(i, c)])] else [];
      ValueAppend(head, rest);
      head + rest
  }

  /** Row `row` of `m` as a well-formed 1 x cols matrix: the stored cells of
      that row in increasing column order, with the row's values. */
  function RowOf(m: Matrix, row: int): (slice: Coo)
    ensures slice.rows == 1 && slice.cols == m.cols && WellFormed(slice)
    ensures forall k, l :: 0 <= k < l < |slice.entries| ==> slice.entries[k].col < slice.entries[l].col
    ensures forall k :: 0 <= k < |slice.entries| ==> (row, slice.entries[k].col) in m.cells
    ensures forall col :: 0 <= col < m.cols ==> Value(slice.entries, 0, col) == Cell(m, (row, col))
  {
    Coo(1, m.cols, RowFrom(m, row, 0))
  }

  /** Indexing a CSR matrix by one row (the item of `SparseDataset` and `SingleDataset`,
      lines 310 and 339): a 1 x cols matrix holding row `index`, where a
      negative index counts from the end and an index outside the rows raises.
      Its entries are the stored cells of that row in increasing column order. */
  function RowSlice(m: Matrix, index: int): (r: Result<Coo, IndexError>)
    ensures r.Success? <==> -(m.rows as int) <= index < m.rows
    ensures r.Failure? ==> r.error == RowIndexOutOfRange(index)
    ensures r.Success? ==> r.value == RowOf(m, if index < 0 then index + m.rows else index)
  {
    if !(-(m.rows as int) <= index < m.rows) then Failure(RowIndexOutOfRange(index))
    else Success(RowOf(m, if index < 0 then index + m.rows else index))
  }

  /** The entries moved down by `offset` rows. */
  function Shift(es: seq<Entry>, offset: int): (r: seq<Entry>)
    ensures |r| == |es|
    ensures forall k :: 0 <= k < |es| ==> r[k] == Entry(es[k].row + offset, es[k].col, es[k].val)
  {
    seq(|es|, k requires 0 <= k < |es| => Entry(es[k].row + offset, es[k].col, es[k].val))
  }

  /** Moving every entry down moves every value down. */
  lemma {:induction false} ValueShift(es: seq<Entry>, offset: int)
    ensures forall r, c :: Value(Shift(es, offset), r + offset, c) == Value(es, r, c)
    decreases |es|
  {
    if es != [] {
      ValueShift(es[1..], offset);
      assert Shift(es, offset)[1..] == Shift(es[1..], offset);
    }
  }

  /** The number of rows of the blocks together. */
  function TotalRows(blocks: seq<Coo>): nat
    decreases |blocks|
  {
    if blocks == [] then 0 else blocks[0].rows + TotalRows(blocks[1..])
  }

  /** The number of entries of the blocks together. */
  function TotalEntries(blocks: seq<Coo>): nat
    decreases |blocks|
  {
    if blocks == [] then 0 else |blocks[0].entries| + TotalEntries(blocks[1..])
  }

  /** The row where block `k` starts once the blocks are stacked. */
  function Offset(blocks: seq<Coo>, k: nat): nat
    requires k <= |blocks|
    decreases k
  {
    if k == 0 then 0 else Offset(blocks, k - 1) + blocks[k - 1].rows
  }

  /** The entries of the blocks one after another, each block moved down to
      start where the blocks before it end (`offset` is where the first starts). */
  function Stack(blocks: seq<Coo>, offset: int): (es: seq<Entry>)
    ensures |es| == TotalEntries(blocks)
    ensures (forall b :: b in blocks ==> WellFormed(b)) ==>
              forall k :: 0 <= k < |es| ==> offset <= es[k].row < offset + TotalRows(blocks)
    decreases |blocks|
  {
    if blocks == [] then []
    else
      var head := Shift(blocks[0].entries, offset);
      var rest := Stack(blocks[1..], offset + blocks[0].rows);
      assert forall b :: b in blocks[1..] ==> b in blocks;
      assert blocks[0] in blocks;
      var es := head + rest;
      assert (forall b :: b in blocks ==> WellFormed(b)) ==>
               forall k :: 0 <= k < |es| ==> offset <= es[k].row < offset + TotalRows(blocks) by {
        if forall b :: b in blocks ==> WellFormed(b) {
          forall k | 0 <= k < |es| ensures offset <= es[k].row < offset + TotalRows(blocks) {
            if k < |head| {
              assert es[k] == head[k];
            } else {
              assert es[k] == rest[k - |head|];
            }
          }
        }
      }
      es
  }

  /** All blocks have the width of the first. */
  predicate SameWidth(blocks: seq<Coo>)
    requires |blocks| > 0
  {
    forall k :: 0 <= k < |blocks| ==> blocks[k].cols == blocks[0].cols
  }

  /** Vertical stacking (`scipy.sparse.vstack`) converted to COO: the blocks on top of each other,
      with as many rows and entries as they have together; stacking no blocks
      or blocks of different widths raises. */
  function VStack(blocks: seq<Coo>): (r: Result<Coo, StackError>)
    ensures blocks == [] ==> r == Failure(NoBlocks)
    ensures r.Success? <==> blocks != [] && SameWidth(blocks)
    ensures r.Success? ==>
              && r.value.rows == TotalRows(blocks) && r.value.cols == blocks[0].cols
              && |r.value.entries| == TotalEntries(blocks)
              && ((forall b :: b in blocks ==> WellFormed(b)) ==> WellFormed(r.value))
  {
    if blocks == [] then Failure(NoBlocks)
    else if !SameWidth(blocks) then Failure(WidthMismatch)
    else
      var m := Coo(TotalRows(blocks), blocks[0].cols, Stack(blocks, 0));
      assert (forall b :: b in blocks ==> WellFormed(b)) ==> WellFormed(m) by {
        if forall b :: b in blocks ==> WellFormed(b) {
          assert forall b :: b in blocks ==> b.cols == blocks[0].cols;
          StackColumns(blocks, 0, blocks[0].cols);
        }
      }
      Success(m)
  }

  /** Stacking keeps every entry inside the common width. */
  lemma {:induction false} StackColumns(blocks: seq<Coo>, offset: int, width: nat)
    requires forall b :: b in blocks ==> WellFormed(b) && b.cols == width
    ensures forall k :: 0 <= k < |Stack(blocks, offset)| ==> 0 <= Stack(blocks, offset)[k].col < width
    decreases |blocks|
  {
    if blocks != [] {
      var head := Shift(blocks[0].entries, offset);
      var rest := Stack(blocks[1..], offset + blocks[0].rows);
      assert blocks[0] in blocks;
      assert forall b :: b in blocks[1..] ==> b in blocks;
      StackColumns(blocks[1..], offset + blocks[0].rows, width);
      var es := head + rest;
      forall k | 0 <= k < |es| ensures 0 <= es[k].col < width {
        if k < |head| {
          assert es[k] == head[k];
        } else {
          assert es[k] == rest[k - |head|];
        }
      }
    }
  }

  /** Row `r` of block `k` becomes row `Offset(blocks, k) + r` of the stack,
      with the same value in every column. */
  lemma {:induction false} StackedRow(blocks: seq<Coo>, offset: int, k: nat, r: int)
    requires forall b :: b in blocks ==> WellFormed(b)
    requires k < |blocks| && 0 <= r < blocks[k].rows
    ensures forall c :: Value(Stack(blocks, offset), offset + Offset(blocks, k) + r, c) == Value(blocks[k].entries, r, c)
    decreases |blocks|
  {
    var head := Shift(blocks[0].entries, offset);
    var rest := Stack(blocks[1..], offset + blocks[0].rows);
    assert forall b :: b in blocks[1..] ==> b in blocks;
    assert blocks[0] in blocks;
    ValueAppend(head, rest);
    ValueShift(blocks[0].entries, offset);
    if k == 0 {
      ValueOfEmptyRow(rest, offset + r);
    } else {
      OffsetTail(blocks, k);
      StackedRow(blocks[1..], offset + blocks[0].rows, k - 1, r);
      assert forall j :: 0 <= j < |head| ==> head[j].row < offset + blocks[0].rows;
      ValueOfEmptyRow(head, offset + Offset(blocks, k) + r);
    }
  }

  /** Offsets past the first block are offsets in the remaining blocks, moved down. */
  lemma {:induction false} OffsetTail(blocks: seq<Coo>, k: nat)
    requires 0 < k <= |blocks|
    ensures Offset(blocks, k) == blocks[0].rows + Offset(blocks[1..], k - 1)
    decreases k
  {
    if k > 1 {
      OffsetTail(blocks, k - 1);
    }
  }

  /** Stacking one-row blocks: block k is row k. */
  lemma {:induction false} OneRowOffsets(blocks: seq<Coo>, k: nat)
    requires forall j :: 0 <= j < |blocks| ==> blocks[j].rows == 1
    requires k <= |blocks|
    ensures Offset(blocks, k) == k
    decreases k
  {
    if k > 0 {
      OneRowOffsets(blocks, k - 1);
    }
  }

  /** One-row blocks stack to as many rows as there are blocks. */
  lemma {:induction false} OneRowTotal(blocks: seq<Coo>)
    requires forall j :: 0 <= j < |blocks| ==> blocks[j].rows == 1
    ensures TotalRows(blocks) == |blocks|
    decreases |blocks|
  {
    if blocks != [] {
      OneRowTotal(blocks[1..]);
    }
  }

  /** Stacking a batch of one-row matrices (the items of a sparse dataset):
      the result has one row per item and the items' width, row k holds item
      k's values, and its entries number the items' entries together. */
  lemma StackOneRowBlocks(blocks: seq<Coo>)
    requires blocks != [] && SameWidth(blocks)
    requires forall j :: 0 <= j < |blocks| ==> blocks[j].rows == 1 && WellFormed(blocks[j])
    ensures var m := VStack(blocks).value;
            && m.rows == |blocks| && m.cols == blocks[0].cols && |m.entries| == TotalEntries(blocks)
            && forall k, c :: 0 <= k < |blocks| ==> Value(m.entries, k, c) == Value(blocks[k].entries, 0, c)
  {
    OneRowTotal(blocks);
    assert forall b :: b in blocks ==> WellFormed(b);
    forall k | 0 <= k < |blocks| ensures forall c :: Value(Stack(blocks, 0), k, c) == Value(blocks[k].entries, 0, c) {
      OneRowOffsets(blocks, k);
      StackedRow(blocks, 0, k, 0);
    }
  }

  /** A torch sparse COO tensor: size, the index rows (row, column) and the values. */
  datatype Tensor = Tensor(size: (nat, nat), indices: (seq<int>, seq<int>), values: seq<int>)

  /** `sparse_coo_to_tensor` (lines 352-360): the tensor has the matrix's
      shape, and its index rows and values are the matrix's row, column and
      data arrays, entry by entry. */
  function CooToTensor(m: Coo): (t: Tensor)
    ensures t.size == (m.rows, m.cols)
    ensures |t.indices.0| == |m.entries| && |t.indices.1| == |m.entries| && |t.values| == |m.entries|
    ensures forall k :: 0 <= k < |m.entries| ==>
              t.indices.0[k] == m.entries[k].row && t.indices.1[k] == m.entries[k].col && t.values[k] == m.entries[k].val
  {
    Tensor((m.rows, m.cols),
           (seq(|m.entries|, k requires 0 <= k < |m.entries| => m.entries[k].row),
            seq(|m.entries|, k requires 0 <= k < |m.entries| => m.entries[k].col)),
           seq(|m.entries|, k requires 0 <= k < |m.entries| => m.entries[k].val))
  }

  /** The index rows and the values have one column per stored entry. */
  predicate Consistent(t: Tensor) {
    |t.indices.0| == |t.values| && |t.indices.1| == |t.values|
  }

  /** Reading a tensor back as a COO matrix. */
  function TensorToCoo(t: Tensor): (m: Coo)
    requires Consistent(t)
    ensures |m.entries| == |t.values|
  {
    Coo(t.size.0, t.size.1,
        seq(|t.values|, k requires 0 <= k < |t.values| => Entry(t.indices.0[k], t.indices.1[k], t.values[k])))
  }

  /** The conversion loses nothing: a matrix read back from its tensor is the
      matrix, and a tensor rebuilt from its matrix is the tensor. */
  lemma TensorRoundTrip(m: Coo, t: Tensor)
    ensures Consistent(CooToTensor(m)) && TensorToCoo(CooToTensor(m)) == m
    ensures Consistent(t) ==> CooToTensor(TensorToCoo(t)) == t
  {
    var back := TensorToCoo(CooToTensor(m));
    assert back.entries == m.entries;
    if Consistent(t) {
      var again := CooToTensor(TensorToCoo(t));
      assert again.indices.0 == t.indices.0;
      assert again.indices.1 == t.indices.1;
      assert again.values == t.values;
    }
  }
}
