# H&M recommender data preparation in Dafny

This project models the structural part of the data preparation in
`src/data_reader.py` and proves properties of the model. That part is what
turns the transactions, articles and customers tables into training inputs.

- **Identity encoding** (`data_preprocessing`). Every distinct value of an
  article or customer column gets a dense integer code, and a reverse
  dictionary is built. In customer columns the fill value `-1` keeps code
  `-1`. The transactions' id columns are then encoded with these dictionaries.
- **Temporal split** (`split_transactions`, `customer_buckets`). Each
  customer's rows dated on that customer's latest date form the holdout, and
  the rows before it form the history. Baskets group article codes per
  customer.
- **Interaction matrices** (`matrix_representation`).
  - The count matrix has shape (largest customer code + 1, 105542), and
    each cell holds the number of rows with that (customer, article) pair.
  - The label matrix is the holdout clamped to {0, 1}.
- **Negative sampling** (`create_random_candidates`). Random (customer,
  article) candidates that were never observed are labelled 0. The observed
  rows are labelled 1, and the two are concatenated and shuffled.
- **Datasets and collation**.
  - Row indexing of `SparseDataset`, `SingleDataset` and `DatasetMF`.
  - `scipy.sparse.vstack` of one-row matrices and `sparse_coo_to_tensor`.
  - The collate functions `sparse_batch_collate` and
    `sparse_batch_collate_single`, and the dense branch of `MF_batch_collate`.
- **Seasons** (`assign_season`).

Modelling choices:

- Raw ids are an arbitrary token type, and the customer fill value is a
  parameter `missing`.
- Dates are integers (day numbers).
- A sparse matrix is a shape plus a map from coordinates to stored nonzero
  values. A COO matrix is a shape plus a list of entries whose duplicates sum.
- A torch sparse tensor is its size, its two index rows and its values.
- Exceptions are `Result` failures: `KeyError`, `IndexError`, a `vstack` of
  nothing or of mismatched widths, the shape of an empty table (its largest
  customer code is NaN, which `csr_matrix` rejects), `np.random.choice` from
  an empty array or with a negative size, the filtering of an empty
  candidate frame, and a shape with a negative dimension.
- Randomness is passed in as input:
  - the draws of `np.random.choice` are positions into the arrays of unique
    ids;
  - the shuffle of `sample(frac=1)` is a permutation of row positions.

The customer decoding dictionary is built from the codes `0 .. k-1` only
(src/data_reader.py:84-91), so the fill value's code `-1` has no decoding
and looking it up raises `KeyError`. `Encoding.CustomerCodec` states this and
`Encoding.SentinelHasNoDecoding` proves it.

Modules, one per file: `Results`, `Columns` (pandas `unique` and mask
filtering), `Encoding`, `Transactions`, `TemporalSplit`, `Interaction`,
`NegativeSampling`, `SparseBatch`, `Datasets`, `Collate`, `Seasons`.

## Model

| member | source | states |
|---|---|---|
| `Columns.Unique` | src/data_reader.py:60 | every value of the column occurs exactly once, nothing else occurs, and the first value comes first |
| `Encoding.Enumerate` | src/data_reader.py:61-63 | for distinct names, name i gets code i and code i decodes to name i; the codes are exactly 0 .. n-1 |
| `Encoding.ArticleCodec` | src/data_reader.py:57-63 | the encoded keys are exactly the column's values; the codes are exactly 0 .. n-1 for n distinct values; encoding and decoding are inverse in both directions |
| `Encoding.Without` | src/data_reader.py:84 | removing the fill value keeps the names distinct and leaves exactly the other values |
| `Encoding.CustomerCodec` | src/data_reader.py:81-91 | the fill value, when present, is encoded as -1; the other values get the codes 0 .. k-1 and decode back; -1 has no decoding; decoding never yields the fill value |
| `Encoding.SentinelCodec` | src/data_reader.py:83-87 | the sentinel branch: contiguous codes for the kept names and -1 for the fill value, with decodings only for the contiguous codes |
| `Encoding.Apply` | src/data_reader.py:64 | the lookup succeeds iff every value is a key; on success it maps each value to its code in order; on failure it names the first missing value |
| `Encoding.EncodeArticleColumn` | src/data_reader.py:60-64 | encoding a column with its own dictionary never fails, keeps the length, and every code is in 0 .. n-1 and decodes to the original value |
| `Encoding.EncodeCustomerColumn` | src/data_reader.py:82-93 | encoding never fails; the fill value becomes -1; every other value becomes a code in 0 .. k-1 that decodes to it |
| `Encoding.EncodeArticles` | src/data_reader.py:59-64 | every article column is encoded with its own dictionaries, and every code decodes back to its value |
| `Encoding.EncodeCustomers` | src/data_reader.py:81-93 | every customer column is encoded with its own dictionaries; fill values become -1 and all other codes decode back |
| `Encoding.SentinelHasNoDecoding` | src/data_reader.py:87-91 | decoding the sentinel's code -1 raises `KeyError(-1)` |
| `Transactions.Pairs` | src/data_reader.py:211 | the (customer, article) coordinates of the rows, one per row in row order |
| `Transactions.PairsAppend` | src/data_reader.py:211 | the coordinates of concatenated tables are the concatenated coordinates |
| `Transactions.EncodeTransactions` | src/data_reader.py:97-98 | encoding succeeds iff every customer id and article id has a code; a success replaces exactly the ids by their codes and keeps the other fields; a failure names an unknown customer, or an unknown article when all customers are known |
| `Transactions.EncodedTransactionsDecode` | src/data_reader.py:57-98 | with dictionaries built from columns that contain every id, encoding the transactions succeeds and each row's codes decode to its raw ids, or stay -1 for the fill value |
| `TemporalSplit.LastPurchase` | src/data_reader.py:181 | one key per customer; its value is attained by one of the customer's rows and bounds all of them |
| `TemporalSplit.History` | src/data_reader.py:184 | a row is kept iff it is not dated on its customer's latest date |
| `TemporalSplit.Holdout` | src/data_reader.py:185 | a row is kept iff it is dated on its customer's latest date |
| `TemporalSplit.FiltersPartition` | src/data_reader.py:184-185 | the history and the holdout together are the table, as a multiset |
| `TemporalSplit.Split` | src/data_reader.py:181-186 | x and y partition the rows as a multiset; a row is in y iff dated on its customer's latest date, and in x iff dated before it |
| `TemporalSplit.SingleDateCustomerHasNoHistory` | src/data_reader.py:181-185 | a customer whose rows all share one date has no row in x |
| `TemporalSplit.HoldoutCoversEveryCustomer` | src/data_reader.py:181-185 | the customers of y are exactly the customers of the table |
| `TemporalSplit.Basket` | src/data_reader.py:164 | a customer's basket holds exactly the articles of that customer's rows |
| `TemporalSplit.BasketSnoc` | src/data_reader.py:164 | a new row extends only its own customer's basket, at the end |
| `TemporalSplit.EmptyBasket` | src/data_reader.py:164 | a customer without rows has an empty basket |
| `TemporalSplit.GroupBaskets` | src/data_reader.py:164-165 | the grouping has one key per customer, and each key's value is that customer's basket in row order |
| `TemporalSplit.BasketsPartition` | src/data_reader.py:157-165 | a customer's train and test baskets together are the customer's basket, as a multiset |
| `TemporalSplit.CustomerBuckets` | src/data_reader.py:156-170 | with `train_test`: train baskets of the history, test baskets of the holdout, a test basket for every customer, and train plus test lengths equal to the full basket length; otherwise: the baskets of all rows |
| `Interaction.Counts` | src/data_reader.py:210-212 | a coordinate is stored iff it occurs, and its value is the number of its occurrences |
| `Interaction.CountsIgnoreOrder` | src/data_reader.py:210-212 | rows in any order give the same count matrix |
| `Interaction.CooToMatrix` | src/data_reader.py:210-212 | a negative dimension raises; otherwise it succeeds iff all coordinates are inside the shape; each cell counts its coordinate, so cells not in the input are 0 |
| `Interaction.MaxCustomer` | src/data_reader.py:198 | the largest customer code of a nonempty table, occurring in it |
| `Interaction.Clamp` | src/data_reader.py:223 | the shape is kept; a cell is 1 where it was nonzero and 0 where it was 0 |
| `Interaction.MatrixRepresentation` | src/data_reader.py:198-235 | an empty table raises; otherwise it succeeds iff all codes are inside the shape (max customer + 1, 105542); x counts the history pairs, y is 1 exactly at the holdout pairs, and the whole-table matrix counts all pairs |
| `Interaction.WholeBounds` | src/data_reader.py:228-233 | the whole table is inside the shape iff every code is inside it |
| `Interaction.SplitBounds` | src/data_reader.py:202-221 | the history and the holdout are both inside the shape iff every code of the table is |
| `Interaction.SideBounds` | src/data_reader.py:202-221 | a row outside the shape puts the history or the holdout outside it |
| `Interaction.RowBounds` | src/data_reader.py:210-212 | a row outside the shape puts its table outside it |
| `Interaction.SubtableBounds` | src/data_reader.py:202-221 | rows drawn from a table inside the shape are inside it |
| `Interaction.PairsPartition` | src/data_reader.py:202-211 | the history pairs and the holdout pairs together are the table's pairs, as a multiset |
| `Interaction.HistoryAndHoldoutMakeWhole` | src/data_reader.py:200-235 | each history count plus that pair's holdout count is the whole-table count, and each label is at most the whole-table count |
| `NegativeSampling.UniqueCustomers` | src/data_reader.py:248 | the customer codes of the table, each exactly once |
| `NegativeSampling.UniqueArticles` | src/data_reader.py:249 | the article codes of the table, each exactly once |
| `NegativeSampling.Candidates` | src/data_reader.py:251-254 | one candidate per draw, whose customer and article occur in the table |
| `NegativeSampling.Survivors` | src/data_reader.py:256-257 | a candidate survives iff it is not an observed pair; every unobserved candidate keeps its multiplicity, and observed ones occur zero times |
| `NegativeSampling.Merge` | src/data_reader.py:259-262 | the first rows are the transactions in row order labelled 1, and the rest are the survivors in draw order labelled 0 |
| `NegativeSampling.GatherPermutation` | src/data_reader.py:264 | reading a sequence through a permutation keeps its multiset |
| `NegativeSampling.Shuffle` | src/data_reader.py:264 | the shuffled frame has the same rows, as a multiset |
| `NegativeSampling.MergedRows` | src/data_reader.py:259-262 | every merged row is labelled 0 or 1; 0 rows are unobserved pairs and 1 rows observed pairs; every id occurs in the table |
| `NegativeSampling.MergedPositives` | src/data_reader.py:259-262 | the merged frame has exactly one row labelled 1 per transaction |
| `NegativeSampling.RandomCandidates` | src/data_reader.py:247-267 | it raises iff the table is empty or `num_sample` is not positive: an empty population when draws are requested from an empty table, a negative size, or no draws at all, where the row test of line 257 on the empty candidate frame yields an empty float series instead of a boolean mask and the filtering of lines 257-262 raises; otherwise the result is a permutation of the labelled transactions followed by the labelled survivors, with length between the number of transactions and that plus `num_sample`; the labels and ids are as in `MergedRows` |
| `NegativeSampling.PositivesAreTheInput` | src/data_reader.py:259-264 | the result has exactly as many rows labelled 1 as there are transactions |
| `NegativeSampling.SaturatedInputHasNoNegatives` | src/data_reader.py:251-257 | when every customer-article combination is observed, no candidate survives |
| `NegativeSampling.ObservedCandidatesDropped` | src/data_reader.py:257 | candidates that are all observed leave no survivor |
| `SparseBatch.RowFrom` | src/data_reader.py:310 | the stored cells of one row, in increasing column order, with the matrix's values |
| `SparseBatch.RowOf` | src/data_reader.py:310 | one row as a well-formed 1 x cols matrix, whose entries are the row's stored cells in increasing column order with the row's values |
| `SparseBatch.RowSlice` | src/data_reader.py:310 | it succeeds iff -rows <= index < rows, where a negative index counts from the end, and then gives that row as `RowOf`; otherwise it raises naming the index |
| `SparseBatch.Stack` | src/data_reader.py:368 | the stacked entries number the blocks' entries together and lie in the stacked rows |
| `SparseBatch.StackedRow` | src/data_reader.py:368 | row r of block k becomes row (rows of the blocks before k) + r of the stack, with the same values |
| `SparseBatch.VStack` | src/data_reader.py:368 | it raises iff there are no blocks or the widths differ; otherwise the row count and entry count are the sums over the blocks, and the width is the blocks' width |
| `SparseBatch.StackOneRowBlocks` | src/data_reader.py:368 | stacking b one-row blocks gives b rows of their width, with row k holding block k's values |
| `SparseBatch.CooToTensor` | src/data_reader.py:352-360 | the tensor keeps the shape and, entry by entry, the row, column and value |
| `SparseBatch.TensorToCoo` | src/data_reader.py:352-360 | a consistent tensor read back as a COO matrix keeps one entry per value |
| `SparseBatch.TensorRoundTrip` | src/data_reader.py:352-360 | matrix to tensor to matrix is the identity, and so is tensor to matrix to tensor |
| `Datasets.SparseLength` | src/data_reader.py:312-313 | a non-negative index selects an input row iff it is below the length |
| `Datasets.SparseItem` | src/data_reader.py:309-310 | it succeeds iff both matrices have the row; the result is the pair of row slices; it always succeeds for 0 <= index < rows when both matrices have the same row count |
| `Datasets.SingleItem` | src/data_reader.py:338-339 | it succeeds iff -rows <= index < rows; a non-negative index gives that row's values |
| `Datasets.SingleLength` | src/data_reader.py:341-342 | a non-negative index can be read iff it is below the length |
| `Datasets.MFItem` | src/data_reader.py:322-326 | it succeeds iff 0 <= index < length, returning (article, customer, purchased) of that row; a negative index raises |
| `Datasets.MFLength` | src/data_reader.py:328-329 | an index can be read iff it lies in 0 .. length-1 |
| `Collate.Firsts` | src/data_reader.py:366 | the data component of each item, in batch order |
| `Collate.Seconds` | src/data_reader.py:366 | the target component of each item, in batch order |
| `Collate.StackToTensor` | src/data_reader.py:368-369 | it succeeds iff the rows are nonempty and of one width; an empty batch raises `EmptyBatch`; the result is the tensor of the stack |
| `Collate.StackedTensorRows` | src/data_reader.py:368-369 | the tensor of b stacked rows has size (b, width), row k holding item k, and as many values as the items together |
| `Collate.SparseBatchCollate` | src/data_reader.py:362-378 | an empty batch raises; it succeeds iff data widths agree and target widths agree; data and targets are each stacked in batch order, row k holding item k |
| `Collate.SparseBatchCollateSingle` | src/data_reader.py:380-390 | an empty batch raises; it succeeds iff widths agree; row k of the tensor holds item k |
| `Collate.MFBatchCollate` | src/data_reader.py:396-413 | an empty batch raises; otherwise three sequences of the batch's length whose k-th elements form item k |
| `Collate.MFCollateRoundTrip` | src/data_reader.py:396-413 | zipping the three collated sequences gives back the batch |
| `Collate.Slices` | src/data_reader.py:310 | one row slice per position |
| `Collate.SlicesAreRowBatch` | src/data_reader.py:309-310 | dataset rows form a batch of one-row matrices of the matrix's width, slice k holding row `positions[k]` |
| `Collate.DatasetBatch` | src/data_reader.py:436-443 | a loader batch of in-range positions collates successfully unless it is empty |
| `Collate.CollatedDatasetBatch` | src/data_reader.py:436-443 | row k of the collated input and target tensors holds row `positions[k]` of the history and label matrices |
| `Seasons.AssignSeason` | src/data_reader.py:634-642 | the season is in 1 .. 4: it is 1 exactly for 12, 1 and 2, 2 exactly for 3-5, 3 exactly for 6-8, and 4 otherwise |
| `Seasons.SeasonsOfTheYear` | src/data_reader.py:634-642 | for a month 1 .. 12 the season is (month mod 12) div 3 + 1 |

## Left out

- CSV reading and writing, pickle persistence, `os.chdir` and the hard-coded paths (src/data_reader.py:20-23, 46-48, 123-138, 265-266, 274) are file I/O.
- The `feature_generation` branch (lines 103-121) is not modelled: float means, ranks and price differences over columns that do not exist.
- The articles diversification features (lines 501-628, 644-744) are floating-point pandas and clustering work. `assign_season` is the only piece of them that is modelled.
- `articles_embbedings`, `load_data_mf` and the other loader builders, apart from the batch that `DatasetBatch` models, are file reads and `DataLoader` wiring.
- Random number generation, `random_split`, `train_test_split` and `DataLoader` are external libraries. The draws and the shuffle are inputs, and the `int(0.9 * len)` float train size (line 438) is not modelled.
- Age median imputation (lines 73-74) is a float median.
- The column selection of lines 54-55 chooses which article columns are encoded, and the model takes those columns as given. The `drop` of lines 66-67 runs after the encoding loop, so those columns are still encoded and only disappear from the returned frame. The model does not represent the returned article frame.
- The csr branch of `MF_batch_collate` (lines 397-399) is not modelled. It stores the stack in a misspelled variable and then converts the raw tuple, so it has no coherent behaviour to state.
- The dense (`torch.FloatTensor`) branches of `sparse_batch_collate` and `sparse_batch_collate_single` are not modelled. The float conversion of values is also left out: tensors keep integer values.
- The in-place mutation of the caller's frame at line 260 is not modelled. The `purchased` flag exists only in the returned rows.
- pandas `merge` (lines 158 and 182) may reorder rows and adds a `t_dat_last_purchase` column. The model keeps the input row order and leaves the column out.
- `Interaction.CooToMatrix`: scipy's distinct messages for a negative row and a too-large index are collapsed into one `IndexOutOfBounds` error.
- `Interaction.MatrixRepresentation`: the 64-bit integer width of the codes and counts is not modelled.
- `Columns.Unique`: NaN is not modelled (pandas `unique` keeps at most one NaN). Values are compared for equality. Customer columns are filled with -1 before their loop (line 78), but article columns are encoded unfilled (lines 59-64). A NaN in an article column is not modelled.
- `NegativeSampling.RandomCandidates`: the model asks for draws that are valid positions. `np.random.choice` draws them uniformly, and the model does not capture that distribution.
