# Dashboard statistics of KleaSCM/Charts, in Dafny

The Charts dashboard page (`pages/dashboard.tsx`) loads a CSV file of working
hours, turns every record into a row with a date text and three hour columns
(expected, compulsory and voluntary hours), computes nine descriptive
statistics over all rows (mean, median and population standard deviation of
each column) and shows a bar chart of the rows whose date contains the text
typed into a search box.

This project models that page as pure functions over Dafny values and proves
what the code promises about them:

- `wrappers.dfy` — `Option`, used for a cell that does not parse and for
  statistics that are not available.
- `seqs.dfy` — `Seqs`: the element-wise `map` of arrays, counting the
  elements that pass a test, and the fact that both only depend on the
  multiset of the elements.
- `statistics.dfy` — `Statistics`: the three inner reductions of
  `calculateStats`. `Sum` is `reduce((a, b) => a + b, 0)`, `SumFromFirst`
  the unseeded `reduce` used under the root; `Mean`; `Sort` (the ascending
  sort of a copy) and `Median`; `Variance` (the quantity under the root) and
  `StandardDeviation`.
- `date_search.dfy` — `DateSearch`: `toLowerCase` and `includes`.
- `dashboard.dfy` — `Dashboard`: the raw and normalised rows,
  `parseFloat(cell) || 0`, `calculateStats` and its `Stats` record, the date
  filter, and a small record of the page state (rows, statistics, query).
- `worked_cases.dfy` — `WorkedCases`: the statistics and the search on
  small concrete inputs.

Numbers are Dafny `real`s. `Math.sqrt` and `parseFloat` are parameters
(`sqrt: real -> real`, `parse: string -> Option<real>` with `None` for NaN);
the lemmas that need a true square root require `IsSqrt(sqrt)`, and
`StandardDeviationUnique` shows that the result then does not depend on the
choice of `sqrt`. Products inside contracts are written `Product(a, b)`
(plain multiplication) and squares `Square(d)` (`Math.pow(d, 2)`).

On an empty dataset the code does not produce NaN statistics: `mean` and
`median` would, but the unseeded `reduce` in `standardDeviation`
(`pages/dashboard.tsx:37`) throws on an empty array, so `calculateStats`
throws and `setStats` is never reached. The model follows the code:
`CalculateStats` returns `None` exactly for the empty dataset, and the page
then keeps showing "Loading statistics..." (`LoadedPage`).

## Model

| member | source | states |
|---|---|---|
| Seqs.Map | pages/dashboard.tsx:25-27 | `arr.map(f)` has one result per element, `f` of the element at the same index |
| Seqs.MapPermutation | pages/dashboard.tsx:25-27 | mapping two rearrangements of the same elements gives rearrangements of the same results |
| Seqs.CountPermutation | pages/dashboard.tsx:30-34 | the number of elements passing a test does not depend on their order; the step by which MedianSplitsInHalf carries its bound from the sorted copy back to the input |
| Statistics.Sum | pages/dashboard.tsx:29 | `arr.reduce((a, b) => a + b, 0)`, a left fold from 0; specified by SumConcat, SumBounds, SumNonNegative and SumPermutation |
| Statistics.SumFromFirst | pages/dashboard.tsx:37 | the unseeded `reduce((a, b) => a + b)`, a left fold starting from the first element; specified by SumFromFirstIsSum |
| Statistics.SumConcat | pages/dashboard.tsx:29 | the sum of a concatenation is the sum of the sums |
| Statistics.SumBounds | pages/dashboard.tsx:29 | a sum of `n` values between `lo` and `hi` lies between `n * lo` and `n * hi` |
| Statistics.SumNonNegative | pages/dashboard.tsx:37 | a sum of non-negative values is non-negative, and zero exactly when every value is zero |
| Statistics.SumPermutation | pages/dashboard.tsx:29 | the sum does not depend on the order of the elements |
| Statistics.SumFromFirstIsSum | pages/dashboard.tsx:37 | on a non-empty array the unseeded `reduce` gives the same sum as the zero-seeded one |
| Statistics.Mean | pages/dashboard.tsx:29 | `mean`: the sum divided by the count; specified by MeanTimesCount, MeanBounds, MeanOfConstant and MeanPermutation |
| Statistics.MeanTimesCount | pages/dashboard.tsx:29 | the mean times the count is the sum |
| Statistics.MeanBounds | pages/dashboard.tsx:29 | the mean times the count is the sum; the mean lies between the smallest and the largest element |
| Statistics.MeanOfConstant | pages/dashboard.tsx:29 | the mean of an array whose elements all equal `c` is `c` |
| Statistics.MeanPermutation | pages/dashboard.tsx:29 | the mean does not depend on the order of the elements |
| Statistics.Sort | pages/dashboard.tsx:31 | the copy is ascending, has the same length and is a permutation of the input |
| Statistics.SortedUnique | pages/dashboard.tsx:31 | two ascending arrays with the same elements are equal, so every correct sort gives the same median |
| Statistics.SortPermutation | pages/dashboard.tsx:31 | sorting depends only on the multiset of the input |
| Statistics.Median | pages/dashboard.tsx:30-34 | `median`: middle element of the sorted copy, or the average of the two central ones; specified by MedianFromSorted, MedianOdd, MedianEven, MedianBounds, MedianPermutation and MedianSplitsInHalf |
| Statistics.MedianFromSorted | pages/dashboard.tsx:30-34 | the median is the middle element, or the average of the two central ones, of any ascending arrangement of the input |
| Statistics.MedianOdd | pages/dashboard.tsx:33 | for an odd count the median is one of the inputs |
| Statistics.MedianEven | pages/dashboard.tsx:33 | for an even count the median is the average of two inputs, two distinct occurrences, the smaller first |
| Statistics.MedianBounds | pages/dashboard.tsx:30-34 | the median lies between the smallest and the largest input |
| Statistics.MedianPermutation | pages/dashboard.tsx:30-34 | the median does not depend on the order of the input |
| Statistics.MedianSplitsInHalf | pages/dashboard.tsx:30-34 | at most half of the inputs lie strictly below the median and at most half strictly above it |
| Statistics.Square | pages/dashboard.tsx:37 | `Math.pow(d, 2)`: plain `d * d` |
| Statistics.Squares | pages/dashboard.tsx:37 | `arr.map(x => Math.pow(x - meanValue, 2))` (through SquaredDeviation): one squared deviation `Square(x - c)` per element, in order |
| Statistics.Variance | pages/dashboard.tsx:37 | the quantity under the root: the unseeded sum of squared deviations from the mean divided by `arr.length`; specified by VarianceIsAverageSquaredDeviation, VarianceTimesCount, VarianceZeroIffConstant and VariancePermutation |
| Statistics.StandardDeviation | pages/dashboard.tsx:35-38 | `standardDeviation`: `Math.sqrt` (the parameter `sqrt`) of the variance; specified by StandardDeviationSpec and StandardDeviationUnique |
| Statistics.VarianceIsAverageSquaredDeviation | pages/dashboard.tsx:35-38 | the quantity under the root times the count is the sum of squared deviations from the mean (population divisor `arr.length`) |
| Statistics.VarianceTimesCount | pages/dashboard.tsx:35-38 | the variance times the count is the sum of squared deviations from the mean |
| Statistics.VarianceZeroIffConstant | pages/dashboard.tsx:35-38 | the quantity under the root is non-negative, and zero exactly when all elements are equal |
| Statistics.VariancePermutation | pages/dashboard.tsx:35-38 | the quantity under the root does not depend on the order of the elements |
| Statistics.StandardDeviationSpec | pages/dashboard.tsx:35-38 | with a true square root, the standard deviation is non-negative, squares to the variance, and is zero exactly when all elements are equal |
| Statistics.StandardDeviationUnique | pages/dashboard.tsx:37 | any two true square roots give the same standard deviation |
| DateSearch.Lower | pages/dashboard.tsx:81 | lower-casing keeps the length and maps each character on its own |
| DateSearch.LowerIdempotent | pages/dashboard.tsx:81 | lower-casing an already lower-cased text changes nothing |
| DateSearch.Includes | pages/dashboard.tsx:81 | `includes` is true exactly when the needle occurs at some position of the text |
| DateSearch.IncludesEmpty | pages/dashboard.tsx:81 | the empty query occurs in every text |
| DateSearch.IncludesTransitive | pages/dashboard.tsx:81 | a text containing a query contains every part of that query |
| Dashboard.ParseOrZero | pages/dashboard.tsx:68-70 | a cell that parses gives its number; a cell that does not parse (NaN) gives 0 |
| Dashboard.NormalizeRow | pages/dashboard.tsx:67-70 | one record: the date copied, each hour cell through `ParseOrZero`; specified by NormalizeSpec |
| Dashboard.Normalize | pages/dashboard.tsx:66-71 | `formattedData`: every record normalised, in order; specified by NormalizeSpec, NormalizeConcat and NormalizeNonNegative |
| Dashboard.NormalizeSpec | pages/dashboard.tsx:66-71 | normalisation keeps the row count, the order and each date; each hour value is the parsed number of its cell, or 0 when it does not parse |
| Dashboard.NormalizeConcat | pages/dashboard.tsx:66-71 | normalisation works record by record: normalising a concatenation normalises each part |
| Dashboard.NormalizeNonNegative | pages/dashboard.tsx:68-70 | when every cell of a column in this dataset that parses gives a non-negative number, every hour value of that column is non-negative, the zero default included |
| Dashboard.ColumnValues | pages/dashboard.tsx:25-27 | a column has one value per row, the row's field, in row order |
| Dashboard.CalculateStats | pages/dashboard.tsx:24-51 | no statistics exactly for the empty dataset, where the unseeded `reduce` throws |
| Dashboard.CalculateStatsColumns | pages/dashboard.tsx:40-50 | each of the nine fields is the mean, median or standard deviation of its own column |
| Dashboard.CalculateStatsBounds | pages/dashboard.tsx:29-34 | per column: mean times row count is the column total; mean and median lie between the column's smallest and largest value |
| Dashboard.CalculateStatsSpread | pages/dashboard.tsx:35-38 | per column, with a true square root: the standard deviation is non-negative, squares to the column's variance and is zero exactly when all rows hold the same value |
| Dashboard.CalculateStatsMedianSplits | pages/dashboard.tsx:30-34 | per column, at most half of the rows lie strictly below the median and at most half strictly above |
| Dashboard.CalculateStatsOrderIndependent | pages/dashboard.tsx:24-51 | rearranging the rows does not change any of the nine statistics |
| Dashboard.MatchesDate | pages/dashboard.tsx:81 | the filter test: the lower-cased date includes the lower-cased query; specified through Lower and Includes |
| Dashboard.FilterByDate | pages/dashboard.tsx:80-82 | every row shown matches the query, and the number of rows shown is the number of rows whose date matches; with FilterMembership and FilterConcat this fixes the result |
| Dashboard.FilterMembership | pages/dashboard.tsx:80-82 | a row is shown exactly when it is loaded and its lower-cased date contains the lower-cased query |
| Dashboard.FilterConcat | pages/dashboard.tsx:80-82 | filtering a concatenation filters each part, so the shown rows keep their original order |
| Dashboard.FilterSubMultiset | pages/dashboard.tsx:80-82 | no row is shown more often than it occurs |
| Dashboard.FilterShowsSameDate | pages/dashboard.tsx:80-82 | a query equal to a row's date, up to letter case, shows that row |
| Dashboard.FilterEmptyQuery | pages/dashboard.tsx:80-82 | the empty query shows every row, in order |
| Dashboard.FilterCaseInsensitive | pages/dashboard.tsx:80-82 | queries with the same lower-cased text show the same rows |
| Dashboard.FilterIgnoresUpperCase | pages/dashboard.tsx:80-82 | a query typed in capitals shows the same rows as the query itself ("JAN" and "jan") |
| Dashboard.FilterIdempotent | pages/dashboard.tsx:80-82 | filtering the shown rows again with the same query changes nothing |
| Dashboard.FilterNarrows | pages/dashboard.tsx:80-82 | a longer query that contains a shorter one shows exactly the rows of the shorter query's result that also match it |
| Dashboard.Initial | pages/dashboard.tsx:54-56 | the state before loading: no rows, no statistics, empty query; specified by LoadedPage |
| Dashboard.OnParsed | pages/dashboard.tsx:65-73 | the parser callback: store the normalised rows, then set the statistics unless `calculateStats` throws; specified by LoadedPage |
| Dashboard.OnSearch | pages/dashboard.tsx:91 | typing replaces the query only; specified by SearchesKeepData |
| Dashboard.Searches | pages/dashboard.tsx:91 | several queries typed one after the other; specified by SearchesKeepData |
| Dashboard.Visible | pages/dashboard.tsx:80-82 | the rows handed to the chart: the loaded rows filtered by the current query; specified by LoadedPage and the Filter lemmas |
| Dashboard.SearchesKeepData | pages/dashboard.tsx:80-91 | typing queries never changes the rows or the statistics; the box holds the last query |
| Dashboard.LoadedPage | pages/dashboard.tsx:72-82 | after loading and any searches the statistics are those of all loaded rows, never of the filtered ones; an empty file leaves no statistics; before any search every row is shown |
| WorkedCases.MedianOddCase | pages/dashboard.tsx:33 | the median of 3, 1, 2 is 2 |
| WorkedCases.MedianEvenCase | pages/dashboard.tsx:33 | the median of 4, 1, 3, 2 is 2.5 |
| WorkedCases.StandardDeviationCase | pages/dashboard.tsx:35-38 | 2, 4, 4, 4, 5, 5, 7, 9 have mean 5, variance 4 and standard deviation 2 |
| WorkedCases.SearchCase | pages/dashboard.tsx:80-82 | the query "JAN" keeps the row dated 2023-Jan-05 and drops the one dated 2023-Feb-01 |

## Proof steps

Lemmas and helper definitions about real arithmetic, sequences, sorting and
strings that the statements above are built from; they model no line of the
page on their own:

- `Seqs`: `MapConcat`, `RemoveOne`, `MultisetFirstRest`, `CountConcat`,
  `CountNone`, `CutAt`, `CountCons`, `CountRemove`.
- `Statistics`: `Product` (plain `a * b`), `ProductStep`, `ProductPositive`,
  `ProductMonotone`, `SquareSign`, `SquareMonotone`, `SquareInjective`,
  `DivideByCount`, `QuotientSign`, `SumAppend`, `SumRemove`, `Min`, `Max`,
  `Sorted`, `Insert`, `InsertMultiset`, `InsertSorted`, `SortedFirstIsLeast`,
  `SortedTail`, `SameFirstAndRest`, `SortedSameFirst`, `BetweenExtremes`,
  `Below`, `Above`, `CountAtMostPrefix`, `CountAtMostSuffix`, `SortedBelow`,
  `SortedAbove`, `SquaredDeviation`, `IsSqrt`.
- `DateSearch`: `LowerChar`, `OccursAt`, `OccursShift`, `IncludesSelf`, and
  `UpperChar`, `Upper` with `LowerUpper` (ASCII upper-casing, used only to
  state `FilterIgnoresUpperCase`).
- `Dashboard`: `RowNormalizer`, `Cell`, `ColumnOf`, `ColumnConstant`,
  `DateMatcher`.
- `WorkedCases`: `ArrangeOdd`, `ArrangeEven`, `SumPrefixStep`, `SumOfEight`.

Contracts use `Product(a, b)` so that the solver sees one product term;
`MeanTimesCount` and `VarianceTimesCount` restate the main facts with `*`.

## Left out

- Loading `/data.csv` with `fetch` and its promise chain: network I/O. The model starts from the records the CSV parser delivers.
- The CSV parser (header mapping, skipping empty lines, the error callback that logs to the console): a foreign library. Its output is a sequence of `RawRow` with exactly four text cells; extra columns (kept by the `...row` spread) and missing columns are not modelled.
- `parseFloat`: a parameter. How it reads a prefix of the text, and `Infinity`, are not modelled; only the parse-or-zero rule is.
- IEEE-754 arithmetic: numbers are exact reals, so rounding, NaN propagation, infinities and negative zero are not modelled. A parsed `0` and `-0` both become `0` under `|| 0`, which reals capture.
- `Math.sqrt`: a parameter; its properties are assumed as the precondition `IsSqrt` wherever they are used.
- `toLowerCase`: only ASCII letters are lower-cased; Unicode case mapping is not modelled.
- Statistics.Mean: the empty array (NaN) is excluded by a precondition, and so are `Median`, `Variance` and `StandardDeviation`; the empty dataset is handled one level up, where `CalculateStats` returns `None`.
- Sorting in place: `sort` runs on a fresh copy, so the argument of `median` is never changed; the model sorts a value (insertion sort), and `SortedUnique` makes the result independent of the sorting algorithm.
- React state: `useState`, `useEffect` and re-rendering are reduced to the pure transitions `OnParsed` and `OnSearch` on a `Page` record. `OnParsed` assumes that the rows stored just before `calculateStats` throws are kept.
- Rendering: the JSX, `toFixed(2)` formatting and the chart (`components/BarChart.tsx` is not part of this model); `pages/index.tsx` is a redirect and is not part of this model.
