# Feature-engineering helpers of the loan-default project, in Dafny

The loan-default project prepares a credit-risk dataset (one row per loan
application, identified by `SK_ID_CURR`) for a model. Its helper module
`src/utils/utils.py` holds one function per transformation. Each function
takes a data frame and returns a new frame, and the input's rows keep their
count and order. `binary_encoding` and the three helpers modelled
here put `SK_ID_CURR` first. `one_hot_encoding` instead appends a
caller-named key column after its dummy columns. The three helpers that
carry rules of their own are the ones this project models:

- `label_encoding` replaces each value of the i-th listed column by its
  0-based rank in the i-th caller-supplied category list. A value that is not
  in its list fails the whole call.
- `aggregate_columns_on_col` builds one output column per entry of a
  name → column-list mapping. Each entry's column is the row-wise sum of that
  entry's input columns, with missing cells skipped.
- `columns_not_changed` keeps the listed columns and applies two cleanup
  rules in order. First, every row whose `DAYS_ID_PUBLISH` is positive
  becomes entirely missing, identifier included. Then the four "days" columns
  are replaced by their absolute values.

`frame.dfy` (module `Frame`) models the data frame. A frame is a list of
column names plus a sequence of rows. A cell is `Str`, `Num` (an integer) or
`Missing`, which stands for NaN. The module also defines the frame operations
the helpers use: label-based column selection, assignment to an existing
column and assignment to a new one.

`utils.dfy` (module `Utils`) models the three helpers:

- `LabelEncoding` and `AggregateColumnsOnCol` are methods. Each keeps the
  source's loop over columns as a `while` loop, with a loop-state predicate
  (`LabelledUpTo`, `AggregatedUpTo`) and a step lemma.
- `ColumnsNotChanged` is a function. It composes the masked assignment
  (`BlankRows`) with the absolute-value step (`AbsColumns`).

Where the doc comments and the code disagree, the model follows the code:

- The doc comment of `label_encoding` promises `[Monday, …, Sunday] → [1, …, 7]`.
  The code uses the list's `index` method, which gives 0 to 6. `WeekdayRanks`
  pins this down.
- The doc comment of `columns_not_changed` promises to keep the columns
  "without changing" them (src/utils/utils.py:76, :81). The code blanks rows
  and takes absolute values of the four day columns (lines 84-86), and
  `ColumnsNotChanged` states both changes.

Other behaviour worth pinning down:

- An all-missing or empty column list sums to 0 here. This is the frame
  library's default `sum` (skip missing values, minimum count 0).
- `columns_not_changed` is not idempotent as a whole. Run a second time, it
  blanks the rows whose `DAYS_ID_PUBLISH` it has just made positive
  (`CleanupNotIdempotent`). Only its absolute-value step is idempotent.

## Model

| member | source | states |
|---|---|---|
| `Frame.IndexOf` | src/utils/utils.py:52 | the list lookup succeeds exactly when the value is in the list, and then returns the position of the value's first occurrence |
| `Frame.Select` | src/utils/utils.py:50 | selecting columns by name gives exactly those columns in the requested order, keeps every row in order, and copies each selected cell from the input |
| `Frame.SetColumn` | src/utils/utils.py:52 | assigning to an existing column replaces that column's cells row by row, and leaves the column list, the row count and every other column unchanged |
| `Frame.AddColumn` | src/utils/utils.py:69 | assigning to a new column appends it after the existing columns with the given cells, and leaves the existing columns' cells unchanged |
| `Utils.EncodeColumn` | src/utils/utils.py:52 | a column encodes exactly when all its values are in the category list; each code is the 0-based first position of its value; otherwise the error names the first row whose value is not listed |
| `Utils.LabelStep` | src/utils/utils.py:51-52 | encoding the i-th labelled column in place turns that column into ranks, and leaves the key and every other labelled column unchanged |
| `Utils.LabelFailure` | src/utils/utils.py:51-52 | a lookup failure in column i is the first one of the whole call: every earlier column and every earlier row of column i is fully listed |
| `Utils.LabelEncoding` | src/utils/utils.py:40-54 | succeeds exactly when every labelled value is in its column's list; the result is `SK_ID_CURR` followed by the labelled columns with the key copied, and each labelled cell is the value's 0-based rank in its list (below 128); on failure no frame is returned and the error reports the first unlisted value in loop order |
| `Utils.WeekdayRanks` | src/utils/utils.py:42 | with the weekday list, Monday is encoded as 0 and not 1, Wednesday as 2 and Sunday as 6, and a missing cell is not listed |
| `Utils.AggregateStep` | src/utils/utils.py:68-69 | appending entry i's sum column extends the built frame by that column only, and keeps every earlier entry's sums |
| `Utils.AggregateColumnsOnCol` | src/utils/utils.py:57-71 | the result is `SK_ID_CURR` (copied) followed by one column per mapping entry, in the mapping's order, and no other input column; each output cell is the sum of the numbers among that row's listed input cells, with missing cells skipped |
| `Utils.SumPresent` | src/utils/utils.py:69 | the missing-skipping sum of a list of cells: a sum of cells that are all missing or non-negative is non-negative, and one of cells that are all missing or non-positive is non-positive |
| `Utils.SumColumns` | src/utils/utils.py:69 | the row-wise sum of the named columns has one cell per row, and each cell is the missing-skipping sum of that row's cells in those columns; a row whose named cells are all missing sums to 0 |
| `Utils.AggregateExample` | src/utils/utils.py:66-69 | the mapping `{"total": ["A", "B"]}` over rows (A=3, B=5) and (A=4, B missing) gives `SK_ID_CURR` and `total`, with the keys copied and totals 8 and 4 |
| `Utils.SumPresentAppend` | src/utils/utils.py:69 | the row sum of consecutive groups of columns is the sum of their row sums |
| `Utils.SumPresentAllMissing` | src/utils/utils.py:69 | an empty or all-missing list of cells sums to 0 |
| `Utils.SumPresentSkipsMissing` | src/utils/utils.py:69 | a missing cell adds nothing to a row sum, wherever it stands |
| `Utils.SumPresentRemove` | src/utils/utils.py:69 | dropping one cell from a row takes exactly that cell's amount out of its sum |
| `Utils.SumPresentPermutation` | src/utils/utils.py:69 | the row sum depends only on which columns are listed, not on their order |
| `Utils.IsPositive` | src/utils/utils.py:84 | the test `DAYS_ID_PUBLISH > 0`: a missing cell (NaN) is never positive, and a positive cell is a non-zero number that equals its own absolute value |
| `Utils.AbsCell` | src/utils/utils.py:86 | a numeric cell becomes the non-negative one of itself and its negation; a missing cell stays missing |
| `Utils.BlankRows` | src/utils/utils.py:84 | a row whose `DAYS_ID_PUBLISH` is a positive number becomes missing in every column; a row with a missing or non-positive value keeps all its cells |
| `Utils.AbsColumns` | src/utils/utils.py:85-86 | the named columns hold the absolute values of their cells; every other column and the row count are unchanged |
| `Utils.ColumnsNotChanged` | src/utils/utils.py:74-88 | the result is `SK_ID_CURR` followed by the kept columns, with every input row in order; a row whose input `DAYS_ID_PUBLISH` is positive is missing everywhere, key included; any other row keeps its key and kept cells, except that the four day columns hold absolute values |
| `Utils.StringInBlankedRow` | src/utils/utils.py:84-86 | a string in `DAYS_BIRTH` is accepted in a row whose `DAYS_ID_PUBLISH` is positive; that row comes out missing, `DAYS_BIRTH` and key included |
| `Utils.DaysNeverNegative` | src/utils/utils.py:84-86 | after the cleanup every day column cell is missing or a non-negative number |
| `Utils.AbsColumnsIdempotent` | src/utils/utils.py:86 | applying the absolute-value step twice gives the same frame as applying it once |
| `Utils.BlankingPrecedesAbs` | src/utils/utils.py:84-86 | blanking tests the signed value: `DAYS_ID_PUBLISH = -5` keeps its row and comes out as 5, `DAYS_BIRTH = -100` comes out as 100, and a positive value blanks its row; with the two steps swapped the first row would be blanked too |
| `Utils.CleanupNotIdempotent` | src/utils/utils.py:83-86 | running the cleanup on its own output can change it, because rows just made positive get blanked |

## Left out

- `one_hot_encoding` (src/utils/utils.py:7-21) is not modelled. Its behaviour is that of the frame library's dummy-variable expansion: category order, handling of missing values and which level `drop_first` removes. None of that is visible in the repository.
- `binary_encoding` (src/utils/utils.py:24-37) is not modelled. It is one call to a fitted ordinal encoder whose code assignment depends on that library's category ordering.
- Floating point is not modelled. Numbers are integers and NaN is `Missing`. Rounding in sums is not modelled, and neither is the int-to-float promotion when NaN is written into a column.
- LabelEncoding: codes are not narrowed to `int8`. Instead, the precondition `Labelable` limits each category list to 128 entries, so every rank fits a signed byte. The silent wrap-around for longer lists is not modelled.
- LabelEncoding: when `col_categories` holds fewer lists than there are labelled columns, the source raises `IndexError`, but only if the frame has at least one row. With no rows the lookup is never made and the call succeeds. The precondition `Labelable` requires enough lists in every case, so the model does not cover a row-less frame with too few lists.
- LabelEncoding: the source raises `ValueError` with a message. The model returns `NotInCategories`, which names the failing column's position, the row and the value.
- LabelEncoding: missing cells are compared structurally. Python's `list.index` finds a NaN only when the list holds that very NaN object.
- Missing columns are not modelled. Named columns that do not exist raise `KeyError` (src/utils/utils.py:50, 69, 83, 86). Where the source reads a column as an attribute, it raises `AttributeError` instead: `df.SK_ID_CURR` at line 66, and `df.DAYS_ID_PUBLISH` at line 84 on the frame narrowed at line 83. The preconditions (`HasColumns`, `Labelable`, `Aggregatable`, `Cleanable`) require the columns to exist.
- Duplicate column names and an output column named `SK_ID_CURR` are not modelled. The frame library handles both in ways of its own: duplicated selections, and overwriting the key. The preconditions require distinct names that differ from the key.
- Strings in summed columns are not modelled. What the frame library's row-wise sum does with them depends on the library version and on the cells. It may join the strings (an all-string selection), drop the string column (versions before 2.0, mixed selection) or raise a type error (versions from 2.0 on, a row mixing numbers and strings). `Summable` requires the summed columns to hold only numbers or missing cells.
- Strings in the day columns are excluded where the source raises a type error. The comparison `> 0` fails on a string anywhere in `DAYS_ID_PUBLISH`. `abs` fails on a string in one of the other three day columns only in a row the comparison keeps, because a blanked row is already all missing (`StringInBlankedRow`). `Cleanable` (through `DaysNumericWhereKept`) requires exactly this much.
- Row index labels are not modelled. Frames are aligned by row position. This is faithful because the source never resets or reorders the index: every frame built inside each helper shares the caller's index, whatever it is.
- The name → column-list mapping of `aggregate_columns_on_col` is a Python dict. Here it is a sequence of `Aggregation` entries in the dict's insertion order.
- The unused regressor import (src/utils/utils.py:4), reading and writing the dataset, and model training are not modelled.
