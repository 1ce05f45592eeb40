# Used car sales: zip-code band and price-change statistics

This project is a Dafny model of the analysis script `avg_med_prices.py`. The
script reads a table of car sales and runs four steps:

1. It pads every zip code to five characters with `str.zfill(5)`
   (`add_zero_to_zipcode`).
2. It keeps the rows whose zip code starts with "00" to "19", comparing the
   two leading characters as strings. It then orders the kept rows by zip
   code (`filter_by_zipcode`).
3. It writes `price_difference = Resell Price - Sale Price` into each row
   (`calculate_price_differences`). It then returns the mean and median of
   that column, signed and absolute, under four fixed dictionary keys.
4. It prints those four values in a fixed-width report (`print_results`).

Modules, one per concern:

- `Strings` holds Python's string behaviour that the script relies on:
  - `str(n)` for a non-negative int
  - `zfill`
  - `s[:2]`
  - the `<=` order on `str`
- `Sales` holds the row and its zip-code cell. A cell is an int, as the CSV
  loader gives it, or a string.
- `ZipPadding` models `add_zero_to_zipcode`.
- `ZipFilter` models `filter_by_zipcode`.
- `PriceStats` models `calculate_price_differences`. It is a method over an
  array of rows, because the source writes the new column into the caller's
  table. The statistics are functions of that column.
- `Report` models the lines `print_results` writes, given the four values
  already formatted.
- `Analysis` models the `__main__` pipeline and the properties of the
  pipeline as a whole.

Design choices:

- Pandas gives NaN as the mean or median of an empty column, and the model
  keeps it as the `Stat.NaN` value. No operation requires a non-empty table.
- Sort stability: the code calls `sort_values(by="zipcode")` with pandas'
  default algorithm, which is not stable. The model follows the code:
  - it promises only that the output is ordered by zip string and is a
    permutation of the rows in band;
  - `Analysis.ResultsIgnoreTieOrder` proves that the order of rows with equal
    zip codes cannot change the results.

## Model

| member | source | states |
|---|---|---|
| Strings.DecimalString | avg_med_prices.py:36 | `astype(str)` on a non-negative int gives at least one decimal digit, with no leading zero unless the number is 0 |
| Strings.DecimalRoundTrip | avg_med_prices.py:36 | reading back the decimal text of n gives n |
| Strings.DecimalStringLength | avg_med_prices.py:36-38 | the decimal text of n has at most k characters exactly when n < 10^k |
| Strings.ZFill | avg_med_prices.py:38 | `zfill(width)` returns a string of length max(len, width) |
| Strings.ZFillPadsUnsigned | avg_med_prices.py:38 | an unsigned string shorter than the width becomes width - len '0's followed by the original text |
| Strings.ZFillPadsSigned | avg_med_prices.py:38 | a string with a leading '+' or '-' keeps its sign first, then the zeros, then the rest |
| Strings.ZFillNeverTruncates | avg_med_prices.py:38 | a string already at least width long comes back unchanged |
| Strings.ZFillIdempotent | avg_med_prices.py:38 | padding twice is the same as padding once |
| Strings.ZFillKeepsValue | avg_med_prices.py:38 | padding a digit string keeps it all digits and keeps the number it denotes |
| Strings.Prefix2 | avg_med_prices.py:59 | `s[:2]` has length min(len, 2) and is a prefix of s |
| Strings.LexLeReflexive | avg_med_prices.py:59-61 | Python's string `<=` is reflexive |
| Strings.LexLeAntisymmetric | avg_med_prices.py:59-61 | strings that are `<=` each other are equal |
| Strings.LexLeTransitive | avg_med_prices.py:59-61 | string `<=` is transitive |
| Strings.LexLeTotal | avg_med_prices.py:61 | any two strings are comparable, so sorting by zip string is well defined |
| Strings.PrefixLexLe | avg_med_prices.py:59 | a prefix sorts before the string it starts |
| Sales.AsStr | avg_med_prices.py:36 | `astype(str)` keeps a string cell and writes an int cell as digits that denote the same number |
| Sales.WithStrZip | avg_med_prices.py:57 | converting the zip column to str leaves the zip text, index and prices of the row unchanged |
| ZipPadding.PadZip | avg_med_prices.py:36-38 | a padded cell is a string of length max(len(str(z)), 5) |
| ZipPadding.AddZeroToZipcode | avg_med_prices.py:23-40 | the result has the same rows in the same order; each zip cell is `str(z).zfill(5)` and every other field is unchanged |
| ZipPadding.IntZipPadsToFive | avg_med_prices.py:36-38 | an int zip below 100000 becomes exactly five digits that denote the same number |
| ZipPadding.ShortZipIsLeftPadded | avg_med_prices.py:38 | an unsigned zip text of at most five characters becomes 5 - len zeros followed by the text |
| ZipPadding.LongZipUnchanged | avg_med_prices.py:38 | a zip text of five or more characters is not truncated |
| ZipPadding.AddZeroIdempotent | avg_med_prices.py:23-40 | padding an already padded table changes nothing |
| ZipPadding.PaddingExample | tests/test_avg_med_prices.py:38-44 | 123, 1234 and 12345 become "00123", "01234" and "12345" |
| ZipFilter.InBandIsNumericRange | avg_med_prices.py:59 | for a zip starting with two digits, the string test `between("00", "19")` holds exactly when those two digits read as a number of at most 19 |
| ZipFilter.ShortZipBand | avg_med_prices.py:59 | the empty zip is out of band, and a one-character zip is in band only when it is "1" |
| ZipFilter.InBand | avg_med_prices.py:59 | `zip.str[:2].between("00", "19")` holds exactly when the zip starts with '0' followed by a character from '0' up, or with '1' alone or followed by a character up to '9' |
| ZipFilter.KeepBand | avg_med_prices.py:57-59 | no rows are added, and every kept row has a string zip inside the band |
| ZipFilter.KeepBandMembers | avg_med_prices.py:57-59 | a row is kept exactly when it is an in-band input row with its zip converted to str |
| ZipFilter.InsertByZip | avg_med_prices.py:61 | inserting into a zip-sorted sequence keeps it sorted and adds exactly that row |
| ZipFilter.SortByZip | avg_med_prices.py:61 | `sort_values(by="zipcode")` gives a sequence ascending by zip string that is a permutation of its input |
| ZipFilter.FilterByZipcode | avg_med_prices.py:44-63 | the result is ascending by zip string, is a permutation of the in-band rows, and is no longer than the input |
| ZipFilter.FilterByZipcodeMembers | avg_med_prices.py:55-61 | a row is in the result exactly when some input row in band became it, with its own index and prices |
| ZipFilter.FilterExample | tests/test_avg_med_prices.py:47-54 | zips "00123", "20123", "15123", "30123" leave rows 0 and 2, in that order |
| PriceStats.Mean | avg_med_prices.py:81 | `mean()` is NaN exactly when the column is empty |
| PriceStats.RowDelta | avg_med_prices.py:78 | a row's price difference added to its sale price gives its resell price |
| PriceStats.PriceDifferences | avg_med_prices.py:78 | the `price_difference` column has one entry per row, each the resell price minus the sale price of that row |
| PriceStats.Abs | avg_med_prices.py:85-86 | `.abs()` keeps the length and replaces each value by its non-negative magnitude |
| PriceStats.SortInts | avg_med_prices.py:82 | the sort behind the median is ascending and a permutation of the column |
| PriceStats.Median | avg_med_prices.py:82 | `median()` is NaN exactly when the column is empty |
| PriceStats.Middle | avg_med_prices.py:82 | the median of a sorted column is a number whose double is the sum of the two middle entries, the single middle entry counted twice for an odd count |
| PriceStats.Summary | avg_med_prices.py:89-94 | the result dictionary has exactly the four keys "Average Price Change", "Median Price Change", "Average Absolute Price Change" and "Median Absolute Price Change" |
| PriceStats.SummaryEntries | avg_med_prices.py:81-94 | every entry is a one-element list whose value is NaN exactly when there are no rows |
| PriceStats.CalculatePriceDifferences | avg_med_prices.py:67-94 | in the caller's table each row's `price_difference` becomes resell minus sale and nothing else changes; the result is the summary of that column |
| PriceStats.AscendingUnique | avg_med_prices.py:82 | two ascending arrangements of the same values are identical, so the sorted column is unique |
| PriceStats.MedianIsMiddleOfSorted | avg_med_prices.py:82 | the median is the middle value of any ascending arrangement of the column, or the mean of the two middle values for an even count |
| PriceStats.MeanPermutationInvariant | avg_med_prices.py:81 | the mean does not depend on row order |
| PriceStats.MedianPermutationInvariant | avg_med_prices.py:82 | the median does not depend on row order |
| PriceStats.SummaryPermutationInvariant | avg_med_prices.py:81-94 | none of the four results depends on row order |
| PriceStats.MeanWithinRange | avg_med_prices.py:81 | the mean of a non-empty column lies between two of its values |
| PriceStats.MedianWithinRange | avg_med_prices.py:82 | the median of a non-empty column lies between two of its values |
| PriceStats.AbsStatsNonNegative | avg_med_prices.py:85-86 | the absolute mean and absolute median are never negative |
| PriceStats.MeanBoundedByAbsMean | avg_med_prices.py:81-85 | the signed mean is at most the absolute mean in magnitude |
| PriceStats.EvenMedianExample | avg_med_prices.py:82 | an even count takes the mean of the two middle values: [10, 20, 30, 40] gives 25 |
| PriceStats.SignedExampleStats | tests/test_avg_med_prices.py:57-66 | differences [50, -20, 50] give mean 80/3 and median 50 |
| PriceStats.AbsExampleStats | tests/test_avg_med_prices.py:57-68 | their absolute values give mean 40 and median 50 |
| PriceStats.SummaryExample | tests/test_avg_med_prices.py:57-68 | the test table gives the four-key dictionary 80/3, 50, 40, 50 |
| Report.RightJustify | avg_med_prices.py:115-118 | `>13` puts spaces in front up to 13 characters and never cuts the text |
| Report.ValueLine | avg_med_prices.py:115-118 | a value line is the caption, then '$', then only spaces up to the value, which ends the line; it is the caption's width plus 1 plus max(len(value), 13) wide |
| Report.ReportLines | avg_med_prices.py:112-119 | the report has nine lines: an empty line, a 60-character '=' banner, the title, a banner, the value lines for average, median, absolute average and absolute median, in that order, and a banner |
| Report.ValueLineLayout | avg_med_prices.py:115-118 | a value line is the 20-character caption, '$', then the value flush right in 13 columns |
| Report.AverageLineExample | tests/test_avg_med_prices.py:71-86 | for the values "100.50", "-50.25", "75.75" and "60.00" the average line is exactly the one the test expects |
| Report.MedianLineExample | tests/test_avg_med_prices.py:71-87 | for the same values the median line is exactly the one the test expects |
| Report.AbsAverageLineExample | tests/test_avg_med_prices.py:71-88 | for the same values the absolute-average line is exactly the one the test expects |
| Report.AbsMedianLineExample | tests/test_avg_med_prices.py:71-89 | for the same values the absolute-median line is exactly the one the test expects |
| Analysis.AnalyzeCarSales | avg_med_prices.py:122-126 | the pipeline's result is the summary of the price differences of the padded, filtered and sorted table, under the four keys |
| Analysis.IntZipInBandIffBelow20000 | avg_med_prices.py:36-59 | an int zip below 100000 survives the padding and the band filter exactly when it is below 20000 |
| Analysis.AnalysedRowsAreBelow20000 | avg_med_prices.py:122-125 | with int zips below 100000, the analysed rows are exactly the input rows below 20000, each with its zip padded |
| Analysis.ResultsIgnoreTieOrder | avg_med_prices.py:61-94 | any order of the filtered rows, including any order among rows with equal zips, gives the same four results |

## Left out

- `import_csv`: reading the CSV file is I/O. The model starts from the loaded table.
- Standard output: `print_results` is modelled as the lines it writes, not as the act of printing them.
- Report.ReportLines: formatting a statistic with `.2f` (rounding a float to two decimals) is not modelled. The four values arrive as text, and a NaN would print as "nan".
- Prices are unbounded integers. The int64 overflow of the subtraction and the float rounding of mean and median are not modelled; the statistics are exact rationals.
- Sales.AsStr: only non-negative int and string zip cells are modelled. Negative, float and missing (NaN) zip values, which `astype(str)` writes as "-5", "123.0" or "nan", are not modelled.
- ZipFilter.SortByZip: the order of rows with equal zip codes is left open, as pandas' default sort leaves it. Only order by key and permutation are promised.
- Columns of the table other than the zip code, the two prices and `price_difference` are not modelled. The pandas index is kept as the row's `index` field.
- The other scripts of the repository are not part of this model: the Porsche filter, the sales-ratio analysis and the table-display GUI.
