# Hierarchical daily sales forecasting: the table transformations, in Dafny

The repository forecasts daily unit sales per (shop, item) in a three-level
hierarchy (total → shop → shop/item). Aggregation, forecasting and
reconciliation are library calls. The repository's own logic is a chain of
table transformations around those calls, and that chain is modelled here:

- **Series preparation** (`src/prep.py`), module `Prep`:
  - The completeness filter keeps the (shop_id, item_id) series that occur in
    exactly `n` distinct `date_block_num` values (default 34) and inner-joins
    the raw rows on them.
  - Zero-completion builds the product of every day in [min ds, max ds] with
    the shops and items seen. It reindexes the rows onto it, fills gaps with
    0 and joins back to the observed pairs.
  - Column selection keeps shop_id, item_id, ds and y (the former
    `item_cnt_day`). Then the constant `total` column is added.
- **Hierarchy levels** (`src/train.py`), module `Train`: `define_jerarquia`
  turns a flat column list into its cumulative prefixes.
- **Output projection** (`src/inference.py`), module `Inference`: the
  reconciled table is filtered to the ids listed under the tag
  `'total/shop_id/item_id'`. Each `unique_id` is then split on "/" into the
  columns total, shop_id and item_id.

Supporting modules:

- `Seqs` holds duplicate-freedom, an order-preserving filter (a boolean row
  mask), subsequences and first-appearance `unique()`.
- `Frames` holds a data frame as a class. Its fields are an ordered list of
  distinct column names and a list of rows, each row a map from column to
  cell. The in-place pandas operations the source uses are methods that
  update those fields: `df[c] = v`, `df[cols] = block` and
  `drop(c, axis=1, inplace=True)`.

The pure pandas pipelines (groupby/agg, join, reindex/fillna, boolean mask)
are functions over sequences of records. The steps that assign or drop
columns of a frame in place are methods with `modifies` clauses. The loop of
`define_jerarquia` is a method with a loop invariant, proved against a
recursive reference definition.

Days are integer ordinals, so the pandas `date_range(min, max)` is the integer
interval [min, max].

Where the code and the intent one might read into it differ, the model
follows the code:

- The docstrings of `encuentra_series_con_n_periodos` and
  `filtra_series_completas` speak of periods "with sales > 0". The code counts
  distinct periods on rows of any quantity, and keeps a series only if the
  count is *equal* to `n`.
- One might expect the zero-completion product to give every shop × item pair
  a series. The code joins the product back to the pairs that occur in the
  input (src/prep.py:176, 182). Pairs that never co-occur are absent
  (`Prep.CompletionSkipsUnobservedPairs`).
- One might expect the hierarchy to start from an empty (grand-total)
  grouping. The code's first level is `[niveles[0]]`
  (`Train.HierarchyNested`).
- One might expect an error whenever a bottom id does not split into exactly
  one piece per level. pandas fails only when the *widest* split has a
  different number of pieces. Rows with fewer pieces get missing cells
  (`Inference.FormatOriginalSeries`, `Inference.SplitCells`).
- Zero-completion is not idempotent in the code: its output no longer has
  `date_block_num`, so a second `drop('date_block_num', axis=1)` would fail
  (src/prep.py:178-182).

Error cases are modelled as `Result` values, not as preconditions:

- an empty table has no min/max date to range over;
- a repeated (ds, shop_id, item_id) label makes the reindex fail;
- a missing column or a missing tag raises KeyError;
- a split whose widest row does not have one piece per level fails the
  column assignment.

## Model

| member | source | states |
|---|---|---|
| `Seqs.Unique` | src/prep.py:172 | `Series.unique()`: duplicate-free, holds exactly the elements of its input, and lists them in order of first appearance |
| `Seqs.FilterCounts` | src/inference.py:123-126 | a boolean mask keeps each selected element as often as it occurs, and no other element |
| `Seqs.FilterKeepsOrder` | src/inference.py:123-126 | a boolean mask keeps the relative order of the rows it selects |
| `Seqs.FilterIdempotent` | src/inference.py:123-126 | applying the same mask twice gives the same rows as applying it once |
| `Seqs.DistinctCard` | src/prep.py:176 | a duplicate-free list is as long as its set of elements (the row-count argument) |
| `Frames.Frame.Select` | src/prep.py:148 | `df[cols]`: a new frame with exactly those columns in that order and the same rows projected; KeyError when one is missing |
| `Frames.Frame.SetColumn` | src/prep.py:150 | `df[c] = values` overwrites or appends column c, sets row i's cell to values[i] and changes nothing else |
| `Frames.Frame.SetColumns` | src/inference.py:142 | `df[names] = block` assigns several columns at once (new names appended in order); other cells unchanged |
| `Frames.Frame.DropColumn` | src/prep.py:151 | `drop(c, axis=1, inplace=True)` removes column c from the column list and from every row; reports KeyError when c is absent, and then nothing changes |
| `Prep.GroupPeriods` | src/prep.py:95-99 | the groupby/nunique fold: its keys are exactly the observed series, and each value is the set of distinct blocks of that series |
| `Prep.FindCompleteSeries` | src/prep.py:95-103 | a series is selected iff it occurs in the input and its number of distinct `date_block_num` values equals n; quantity plays no part |
| `Prep.FilterCompleteSeries` | src/prep.py:119-121 | a row survives the inner join iff it is an input row whose (shop_id, item_id) is in the key set |
| `Prep.FilterCompleteSeriesKeepsRows` | src/prep.py:119-121 | the join keeps each selected row with its multiplicity and in input order; unselected rows have multiplicity 0 |
| `Prep.FilteredSeriesAreTheCompleteOnes` | src/prep.py:217-219 | after the filter, the series present are exactly the series found complete |
| `Prep.MinDs` | src/prep.py:166 | `df.ds.min()`: a lower bound of every ds that some row attains |
| `Prep.MaxDs` | src/prep.py:167 | `df.ds.max()`: an upper bound of every ds that some row attains |
| `Prep.Lookup` | src/prep.py:178-180 | finds a row carrying the given (ds, shop_id, item_id) label, or reports that no row carries it |
| `Prep.FillRow` | src/prep.py:178-180 | the reindexed row for (d, k) has that label, and holds 0 when no input row carries it (`fillna(0)`) |
| `Prep.FillRowKeepsObserved` | src/prep.py:178-180 | with unique labels, the reindexed row for an observed label holds that row's quantity |
| `Prep.ShopGrid` | src/prep.py:171-173 | one shop's slice of the product index after the join: exactly the observed pairs of that shop whose item is listed, without repeats |
| `Prep.SeriesGrid` | src/prep.py:171-176 | the product shops × items restricted to the observed pairs: exactly those pairs, each once when shops and items are duplicate-free |
| `Prep.ObservedGridExact` | src/prep.py:171-182 | the completion's key order lists every observed (shop_id, item_id) pair exactly once and nothing else |
| `Prep.DayRows` | src/prep.py:171-180 | one day of the completed table: row j carries the label (d, key j) and is filled from the input, and with duplicate-free keys no label repeats within the day |
| `Prep.Calendar` | src/prep.py:168-180 | days [lo, hi] × keys: (hi-lo+1)·|keys| rows, each within the range, keyed by a listed pair, filled from the input, in ascending ds |
| `Prep.CalendarCovers` | src/prep.py:168-173 | every (day, key) of the range has a row |
| `Prep.CalendarDistinct` | src/prep.py:171-173 | with duplicate-free keys no (ds, shop_id, item_id) label repeats |
| `Prep.CompleteZeros` | src/prep.py:166-182 | succeeds iff the input is non-empty and its (ds, shop_id, item_id) labels are unique; otherwise the empty-range or duplicate-label error |
| `Prep.CompletionSize` | src/prep.py:166-182 | the completed table has (max ds − min ds + 1) × (number of observed pairs) rows |
| `Prep.CompletionCoverage` | src/prep.py:166-182 | exact coverage: every row is an observed pair on a day of [min ds, max ds], and every such (day, pair) has a row |
| `Prep.CompletionSkipsUnobservedPairs` | src/prep.py:171-182 | a shop/item combination that never co-occurs gets no rows, although the product index holds it |
| `Prep.CompletionOneRowPerLabel` | src/prep.py:171-182 | exactly one row per (ds, shop_id, item_id) |
| `Prep.CompletionOrderAndRange` | src/prep.py:166-173 | rows are in ascending ds, and the first and last day of the output are the input's min and max ds |
| `Prep.CompletionValues` | src/prep.py:178-180 | a row whose label was observed keeps that row's `item_cnt_day`; a gap row holds 0 |
| `Prep.CompletionKeepsEveryObservation` | src/prep.py:178-182 | every input row reappears, with its day, series and quantity, in the completed table |
| `Prep.PreparedSeriesHaveNPeriods` | src/prep.py:217-225 | composition: every series of the completed table has exactly n distinct periods in the raw input, and every such series is present |
| `Prep.SelectHtsColumns` | src/prep.py:142-153 | default branch: a new frame with columns shop_id, item_id, ds, y where y is the former item_cnt_day row by row; same row count; the caller's frame is untouched |
| `Prep.AddTotalColumn` | src/prep.py:196-198 | every row of the caller's frame gets `total` = the given name; other cells and the row count are unchanged |
| `Prep.PrepareHierarchicalSeries` | src/prep.py:214-225 | the preparation pipeline fails exactly when completion fails; otherwise it yields columns shop_id, item_id, ds, y, total, one row per completed row |
| `Train.Hierarchy` | src/train.py:56-60 | the reference definition of the levels: one level per column |
| `Train.HierarchyAt` | src/train.py:58-59 | level i is the prefix `niveles[:i+1]` |
| `Train.HierarchyNested` | src/train.py:58-59 | level i has i + 1 columns, level i extends level i−1 by `niveles[i]`, and the first level is `[niveles[0]]` |
| `Train.HierarchyPrefixes` | src/train.py:58-60 | each level is a proper prefix of every deeper level, and the last level is the whole list |
| `Train.DefaultHierarchy` | src/train.py:108 | `['total','shop_id','item_id']` gives `[['total'], ['total','shop_id'], ['total','shop_id','item_id']]` |
| `Train.DefineHierarchy` | src/train.py:56-60 | the insert loop returns the reference levels: as many levels as columns, level i being `niveles[:i+1]`; empty input gives an empty list |
| `Inference.Split` | src/inference.py:142 | `str.split('/')`: at least one piece, and no piece contains the separator |
| `Inference.JoinSplit` | src/inference.py:142 | joining the pieces of any id with "/" gives the id back |
| `Inference.SplitJoin` | src/inference.py:142 | splitting a "/"-join of separator-free pieces gives the pieces back |
| `Inference.FilterOriginalSeries` | src/inference.py:123-126 | a row is kept iff its unique_id is listed under `'total/shop_id/item_id'`; a missing id column or a missing tag is an error |
| `Inference.FilterOriginalSeriesKeepsRows` | src/inference.py:123-126 | the kept rows are unchanged, in their original order and multiplicity |
| `Inference.FilterOriginalSeriesIdempotent` | src/inference.py:123-126 | filtering the filter's own output changes nothing |
| `Inference.SplitWidth` | src/inference.py:142 | the width of the expanded split is the most pieces any id has (attained by some row) |
| `Inference.SplitCells` | src/inference.py:142 | the expanded row of an id: piece k in column k, missing beyond the id's pieces; no text cell contains "/", and when the width equals the piece count, joining the cells with "/" gives the id back |
| `Inference.SplitColumnsRoundTrip` | src/inference.py:142 | with exactly one piece per level, column `niveles[k]` receives piece k, and joining the level columns with "/" reproduces the id |
| `Inference.JoinedColumnsSplitBack` | src/inference.py:142 | separator-free level columns, joined and split again, give back one piece per level equal to the columns |
| `Inference.FormatOriginalSeries` | src/inference.py:142-143 | level columns are set from the split, unique_id is dropped, and the row count and other cells are unchanged; errors leave the frame untouched |
| `Inference.FormattedRowFaithful` | src/inference.py:142-143 | a formatted row has no unique_id, keeps every other original cell, and its level columns join back to the former id |
| `Inference.ProjectOutput` | src/inference.py:168-170 | filter then format: the filter's error if it fails; otherwise succeeds iff every kept id is text and the widest split has exactly three pieces, returning `NonTextId` or `ColumnCountMismatch(3, width)` otherwise, and on success a new frame with one formatted row per kept row |

## Left out

- File and artifact I/O is not modelled: CSV reading and writing, pickles,
  model save/load and the timestamped output name (`carga_df_ventas`,
  `to_csv`, `carga_insumos`). Tables enter and leave the model as values.
- The command-line entry points (`main` of each script and `main.py`) are
  not modelled; they only parse arguments and call the stages in order.
- `define_columna_tiempo` is not modelled, since date parsing with
  `pd.to_datetime` is library behaviour. `ds` arrives as an integer day
  ordinal.
- The hierarchy aggregation, the summing matrix and the tags produced by
  `hierarchicalforecast.utils.aggregate` are not modelled. They are foreign
  code. Tags enter `FilterOriginalSeries` as a given map.
- AutoETS forecasting and MinTrace reconciliation are not modelled. They are
  external statistical code over floating point, run in parallel. Coherence
  and non-negativity of the forecasts are not claimed.
- The non-default branch of `seleccion_variables_hts` is not modelled:
  `list.extend` returns None there, so it cannot run as written.
- Raw columns other than ds, date_block_num, shop_id, item_id and
  item_cnt_day (such as a price column) are not modelled. Zero-completion
  would also fill them with 0; the column selection drops them afterwards.
- pandas row labels (the index), dtype changes (ints becoming floats after
  reindexing) and `fillna(0)` on NaN cells of observed rows are not
  modelled. Quantities are exact reals.
- Prep.FindCompleteSeries: returns a set of series keys. The sorted index
  order of `groupby` is not modelled, because the result only feeds a join.
- Inference.FormatOriginalSeries: requires distinct level names that do not
  include `unique_id`. pandas behaviour for repeated names is not modelled.
  Non-text ids are reported as an error; pandas would give NaN pieces for
  them in a mixed column.
- Inference.SplitWidth: a table with no rows has width 0, so formatting it
  against three levels fails. pandas' exact result for an empty column is
  not modelled.
- Frames.Frame.Select: requires distinct column names; frames with repeated
  column names are not represented.
