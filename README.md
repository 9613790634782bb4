# Row selection in the diabetes preprocessing script

The analysis script `main.py` loads the nine-column Pima diabetes table
(Pregnancies, Glucose, Blood_pressure, Skin_thickness, Insulin, Bmi,
Diabetes_Pedigree_Function, Age, Outcome). It then prepares the table before
classifiers are fitted to it. This project models the discrete part of that
preparation and proves what it does:

- **Row filter** (`row_filter.dfy`). `drop_column_values` deletes, in place,
  every row whose given column equals a sentinel value. It first collects the
  index labels of the matching rows, then drops those labels. The script runs
  it once per column over Glucose, Blood_pressure, Skin_thickness, Insulin and
  Bmi, with sentinel 0, each pass working on the result of the one before. The
  DataFrame is a class (`RowFilter.DataFrame`) whose `entries` field the method
  replaces. Its invariant is that index labels are distinct, as they are after
  `read_csv`. Under that invariant, dropping by label is proved equal to the
  value filter `Keep`.
- **Class balancing** (`equalize.dfy`). `equalize_data` counts the Outcome-0
  rows (`l0`) and the Outcome-1 rows (`l1`). It computes
  `min_l = l0 * (l0 < l1) + l1 * (l0 > l1)` exactly as written, with booleans
  as 0/1. It returns the first `min_l` Outcome-1 rows followed by the first
  `min_l` Outcome-0 rows. The function is modelled as written, so two equally
  large classes give an empty table. That case has its own lemma.
- **Reduction** (`average.dfy`). `average_list` reads every NaN entry as 0 and
  returns the sum divided by the length. An empty list raises
  ZeroDivisionError, modelled as the `ZeroDivision` result.

`data_table.dfy` holds the shared data model. A row is a sequence of nine
`real` cells; only `==` is ever applied to them. An entry pairs a row with its
pandas index label. A table is a sequence of entries in row order.
`IsSubsequence` is the order-preserving "obtained by deleting rows" relation.

The docstring of `equalize_data` (main.py:105) asks for equally many samples
in each Outcome class, and the formula at main.py:110 evidently means to take
the smaller class size. As written it yields 0 when both classes are equally
large, so an already balanced table comes back empty. The model follows the
code (`Equalize.EqualizeData`, `Equalize.EqualizeEqualSizesEmpty`). The
intended behaviour is modelled beside it, see "## Findings".

## Model

| member | source | states |
|---|---|---|
| `DataTable.Indexed` | main.py:184 | a freshly loaded table labels its rows first, first+1, ... in file order, so the labels are distinct |
| `RowFilter.DataFrame.Load` | main.py:184 | the loaded frame holds the rows in file order, row i labelled i, and satisfies the distinct-label invariant |
| `RowFilter.Keep` | main.py:99-101 | after the filter, a row remains exactly when it was in the table and its column differs from the sentinel; no row is added |
| `RowFilter.KeepIsSubsequence` | main.py:99-101 | the remaining rows are an order-preserving subsequence of the input, each unchanged |
| `RowFilter.KeepDistinct` | main.py:101 | dropping rows from a table with distinct labels leaves distinct labels |
| `RowFilter.MatchingLabels` | main.py:99 | the collected labels include every matching row's label, and each collected label belongs to a matching row |
| `RowFilter.DropLabels` | main.py:101 | dropping labels keeps exactly the rows whose label is not listed |
| `RowFilter.DropLabelsIsKeep` | main.py:99-101 | when the listed labels are exactly the labels of the matching rows, dropping them equals the value filter |
| `RowFilter.MatchingLabelsExact` | main.py:99 | with distinct labels, a row's label is collected if and only if the row matches |
| `RowFilter.DropMatchingIsKeep` | main.py:99-101 | on a table with distinct labels, collect-then-drop removes exactly the rows whose column equals the sentinel |
| `RowFilter.DataFrame.DropColumnValues` | main.py:94-101 | in place: the new table is the old one filtered; it is a subsequence of the old one, no remaining row holds the sentinel in that column, and labels stay distinct |
| `RowFilter.Clean` | main.py:187-188 | a row survives all passes exactly when none of the listed columns holds the sentinel; no row is added |
| `RowFilter.CleanNothing` | main.py:187-188 | before any pass, nothing is removed |
| `RowFilter.KeepAfterClean` | main.py:187-188 | one more pass over the result of the earlier passes gives the table cleaned for one more column |
| `RowFilter.CleanStep` | main.py:187-188 | pass k of the loop turns the table cleaned for the first k columns into the one cleaned for the first k+1 |
| `RowFilter.CleanIsSubsequence` | main.py:187-188 | the rows that survive the loop are an order-preserving subsequence of the loaded table |
| `RowFilter.CleanNarrowing` | main.py:187-188 | each pass yields a subsequence of the previous pass's table, so the row count never increases and a dropped row never returns |
| `RowFilter.DropErroneousRows` | main.py:186-188 | after the loop, no row holds 0 in Glucose, Blood_pressure, Skin_thickness, Insulin or Bmi; every row without such a 0 is kept; the result is a subsequence of the input |
| `Equalize.Select` | main.py:108-109 | the class selection holds exactly the input rows with that Outcome, and no more rows than the input |
| `Equalize.SelectIsSubsequence` | main.py:111-112 | a class selection keeps its rows in original order |
| `Equalize.SelectAppend` | main.py:112 | selecting a class from two concatenated tables selects it from each in turn |
| `Equalize.SelectJoin` | main.py:111-112 | a block of Outcome-k rows joined to a block of Outcome-j rows (k != j) has exactly those blocks as its two class selections |
| `Equalize.SelectPrefixes` | main.py:111-112 | the first m Outcome-1 rows followed by the first m Outcome-0 rows have exactly those prefixes as their classes |
| `Equalize.MinLength` | main.py:110 | the value of `min_l` never exceeds either class size |
| `Equalize.MinLengthIsMin` | main.py:110 | `min_l` equals min(l0, l1) if and only if l0 != l1 or l0 == 0 |
| `Equalize.MinLengthOfEqualSizes` | main.py:110 | with l0 == l1, `min_l` is 0 |
| `Equalize.EqualizeData` | main.py:103-113 | the result has 2 * `min_l` rows, every row comes from the input, and no row with an Outcome other than 0 or 1 appears |
| `Equalize.EqualizeOnesFirst` | main.py:111-112 | the first `min_l` result rows have Outcome 1 and the next `min_l` have Outcome 0 |
| `Equalize.EqualizeClassPrefixes` | main.py:111-112 | each class of the result is the first `min_l` rows of that class in the input, in original order |
| `Equalize.EqualizeBalanced` | main.py:108-112 | when l0 != l1 the result has min(l0, l1) rows of each class |
| `Equalize.EqualizeEqualSizesEmpty` | main.py:110-113 | when l0 == l1 the result is empty |
| `Equalize.BalancedPairIsDropped` | main.py:110 | a table of one Outcome-1 row and one Outcome-0 row comes back empty, where the intended balancing returns both rows |
| `Equalize.EqualizeIntended` | main.py:103-113 | balancing with `min_l` = min(l0, l1): every result row comes from the input |
| `Equalize.IntendedBalanced` | main.py:103-113 | the intended balancing always has min(l0, l1) rows of each class, each the first rows of its class in original order |
| `Equalize.IntendedAgreesWhenUnequal` | main.py:110 | when l0 != l1 the code as written and the intended balancing give the same table |
| `Average.AverageList` | main.py:41-43 | the result is an error exactly for the empty list; otherwise the mean is the sum of the defined entries divided by the count of all entries (NaN counts as 0, not skipped), and it lies in [0, 1] when every defined entry does |
| `Average.SumZeroNaN` | main.py:42-43 | summing with NaN read as 0 equals summing only the defined entries |
| `Average.SumBounds` | main.py:43 | a sum of values in [0, 1] lies between 0 and the number of values |
| `Average.ZeroNaNSumBounds` | main.py:42-43 | if every defined entry lies in [0, 1], the sum with NaN read as 0 lies between 0 and the number of entries |
| `Average.ExtraNaNLowersMean` | main.py:42-43 | for non-negative metrics, one more NaN entry never raises the mean |

## Left out

- `scale_data` (main.py:115-118): a wrapper over scikit-learn's `MinMaxScaler`, whose code is not part of this model; it is floating-point arithmetic.
- `remove_outliers` (main.py:120-123): z-scores need square roots and floating-point comparison. It also overwrites the caller's Insulin column in place (main.py:121).
- `test_trafos` (main.py:45-92) and the final classifier run (main.py:211): they drive `MLtests` from `MLapproaches`, which is not part of this model, and append to module-level lists.
- Plotting and styling (main.py:15-38, 125-170, 205-208): visual side effects only.
- Reading `diabetes.csv` (main.py:184) is file I/O. `RowFilter.DataFrame.Load` takes the parsed rows as a parameter and models only the fresh 0, 1, 2, ... index.
- Cells are exact `real` values and cannot be NaN. An empty CSV cell would become NaN in pandas and never equal 0; the model has no such cell.
- `Average.AverageList`: does not model IEEE double rounding in `sum` and `/`, because the model uses exact reals; the proved bounds hold for the exact mean.
- `RowFilter.DropLabels`: does not model the KeyError pandas raises for a label absent from the frame, because the labels it is given always come from the frame itself.
- `DataFrame.append` (main.py:112) is taken as concatenation that keeps each row's label. It no longer exists in pandas 2; that version dependence is not modelled.

## Findings

| source | as written | input that shows it | evidently intended | confidence | as-written member | corrected member |
|---|---|---|---|---|---|---|
| main.py:110 | `min_l = l0 * (l0 < l1) + l1 * (l0 > l1)` is 0 when `l0 == l1`, so `equalize_data` returns an empty table | a table with one Outcome-1 row and one Outcome-0 row | `min_l = min(l0, l1)`: an already balanced table comes back whole, Outcome-1 rows first | high; not executed | `Equalize.BalancedPairIsDropped` | `Equalize.IntendedBalanced` |
