# Website KPI dashboard: data pipeline model

This project models the data pipeline of the Website KPI dashboard
(`Website.js`). The pipeline has four stages.

1. **CSV parsing.** `parseCSVData` splits the trimmed text into lines and
   lexes each line with `parseCSVLine`: a `"` toggles the in-quotes state,
   and a comma outside quotes ends a field. The first line gives the
   trimmed headers. Every later line with as many fields as there are
   headers becomes an entry; the other lines are skipped. The cell under
   `Month` stays text. The cells under `Actual`, `Forecast`,
   `YTD Actual Totals` and `YTD Forecast Totals` become numbers. A cell
   holding `%` goes through `parsePercentage`; any other goes through
   `parseNumericValue`.
2. **Number coercion.** `parsePercentage` removes the first `%`, applies
   `parseFloat` and divides by 100. It gives NaN when no number is left.
   `parseNumericValue` removes every `"` and `,`, applies `parseFloat`,
   and turns NaN into 0. Both give 0 for blank text. `parseFloat` is
   modelled on decimal text: leading white space, a sign, digits, a
   fraction and an exponent; whatever follows is ignored.
3. **Structuring.** `processData` collects the distinct initiatives,
   sub-initiatives and metrics in first-seen order. It then visits every
   (initiative, sub-initiative, metric) triple that occurs in the data.
   For each triple it fills four month-keyed maps (actual, forecast,
   YTD actual, YTD forecast). A later row for the same month overwrites an
   earlier one, and a row with an empty month is skipped.
4. **Calculations.**
   - `calculateMoMChanges` sorts each triple's months in calendar order,
     stably. It gives every month after the first the percentage change
     of `actual` against the previous month. A change from 0 is 100 for
     growth and 0 otherwise.
   - `calculateYTDAchievement` gives every month `ytdActual / ytdForecast`
     as a percentage, or 0 against a zero forecast.
   - `calculateTotals` does four things for six tracked metrics:
     - it gathers every month with data, sorted in calendar order;
     - it sums the four value maps over all triples;
     - it averages `Engagement Rate` and `Avg Session Duration` over the
       number of triples that report them;
     - it computes a month-over-month change of the summed actual values,
       with 0 for the first month.

The model uses these Dafny shapes:

- **Exact reals.** Numbers are exact reals. `JsNumber` adds NaN.
- **Flat maps.** The nested `structured` object is flattened into a map
  from `Triple` to `Series`. `Series.months` records the insertion order
  of the month keys, which JavaScript's `Object.keys` returns.
- **Visiting order.** `Dataset.order` is the order in which the nested
  `forEach` loops visit the triples.
- **Methods and functions.** Each of the source's loops is a `method`
  with loop invariants. The method is proved equal to a recursive
  specification function, and the properties are lemmas about those
  functions.
- **Modules.** One module per stage:
  - `Text`: JavaScript string helpers;
  - `Numbers`: coercion;
  - `Csv`;
  - `Sequences`: `Set`-based de-duplication;
  - `Months`: the calendar sort;
  - `Structure`;
  - `MoM`, `Ytd` and `Totals`.

The model follows what the code does, including three behaviours that
are easy to miss:

- `parsePercentage` can return NaN, for example on `"abc%"`.
- The first month of the totals' `momChange` gets an explicit 0.
- No calculator signals an error for missing data. A missing value reads
  as 0 through `|| 0`, as long as the month is not the name of an
  `Object.prototype` member (see "Left out").

## Model

| member | source | states |
|---|---|---|
| Text.TrimStart | Website.js:58 | the result is a suffix of the input, all of the removed prefix is white space, and the result does not start with white space |
| Text.TrimEnd | Website.js:58 | the result is a prefix of the input, all of the removed suffix is white space, and the result does not end with white space |
| Text.TrimBlank | Website.js:121 | `trim()` gives the empty string exactly when every character is white space |
| Text.TrimInside | Website.js:80 | a character absent from the text is absent after trimming |
| Text.TrimSlice | Website.js:65 | `trim()` leaves a slice of the input with only white space before and after it, which neither starts nor ends with white space |
| Text.TrimmedAtOf | Website.js:65 | removing leading and then trailing white space leaves such a slice |
| Text.TrimmedFromUnique | Website.js:65 | at most one slice of a string has only white space around it and no white space at its ends, so that description determines `trim()` |
| Text.Remove | Website.js:133 | the result of removing a character class holds none of its characters |
| Text.RemoveSnoc | Website.js:133 | removal works character by character: an appended character survives exactly when it is not in the class |
| Text.RemoveFirstKeeps | Website.js:123 | `replace('%', '')` adds no character |
| Text.RemoveFirstSpec | Website.js:123 | `replace` with a string pattern deletes exactly the first occurrence, and leaves text without one unchanged |
| Text.Find | Website.js:123 | the index found is that of the first occurrence, or the length when there is none |
| Text.SplitJoin | Website.js:58 | joining the parts of `split('\n')` with the separator gives the text back; no part holds the separator; there is one part more than there are separators |
| Text.JoinSnoc | Website.js:58 | joining one more part appends the separator and that part |
| Text.CountAbsent | Website.js:58 | a character that does not occur is counted 0 times |
| Numbers.LeadingDigits | Website.js:123 | the longest digit prefix: all digits, a prefix of the input, and followed by a non-digit or the end |
| Numbers.ShowNat | Website.js:133 | the decimal rendering of a natural number is a non-empty string of digits |
| Numbers.DigitsValueShowNat | Website.js:133 | reading the rendering of `n` gives back `n` |
| Numbers.ParseUnsignedDigits | Website.js:133 | a digit string parses to its decimal value |
| Numbers.ParseFloatDigits | Website.js:133 | `parseFloat` of a digit string is its decimal value |
| Numbers.ParseFloatShowNat | Website.js:133 | `parseFloat` inverts the decimal rendering of a natural number |
| Numbers.ParseFloatBlank | Website.js:123 | `parseFloat` of blank text is NaN |
| Numbers.ParseUnsignedNeedsDigit | Website.js:123 | text without a digit holds no decimal literal: NaN |
| Numbers.ParseFloatNeedsDigit | Website.js:133 | `parseFloat` of text without a digit is NaN, whatever sign or spaces it has |
| Numbers.RemoveIdempotent | Website.js:133 | removing quotes and commas twice is the same as removing them once |
| Numbers.RemoveKeepsBlank | Website.js:132-133 | removing characters from blank text leaves blank text |
| Numbers.NumericIgnoresQuotesAndCommas | Website.js:131-134 | `parseNumericValue` gives the same number for a value and for the value with its quotes and commas removed |
| Numbers.NumericRoundTrip | Website.js:131-134 | `parseNumericValue` of the decimal rendering of `n` is `n` |
| Numbers.NumericDecimalRoundTrip | Website.js:131-134 | `parseNumericValue` of "digits.digits" is the integer part plus the fraction |
| Numbers.NumericNegativeDecimalRoundTrip | Website.js:131-134 | `parseNumericValue` of "-digits.digits" is the negated integer part plus fraction |
| Numbers.NumericNegativeRoundTrip | Website.js:131-134 | `parseNumericValue` of the decimal rendering of `n` after a minus sign is `-n` |
| Numbers.NumericMinus | Website.js:131-134 | a minus sign before a plain unsigned literal negates what `parseNumericValue` reads |
| Numbers.ParseFloatMinus | Website.js:133 | a minus sign before an unsigned literal negates what `parseFloat` reads |
| Numbers.PlainNumberText | Website.js:133 | text of digits, points and minus signs is unchanged by removing quotes and commas |
| Numbers.NotBlankAtStart | Website.js:132 | text that does not start with white space is not blank, so it is parsed rather than read as 0 |
| Numbers.RemoveNoOp | Website.js:133 | removal changes nothing in text without the removed characters |
| Numbers.PercentageNonBlank | Website.js:120-124 | on non-blank text, `parsePercentage` is `parseFloat` of the text without its first `%`, divided by 100 (NaN staying NaN) |
| Numbers.PercentageNeedsDigit | Website.js:120-124 | non-blank text without a digit gives NaN, not 0 |
| Numbers.PercentageDigits | Website.js:120-124 | digits followed by `%` read as their value divided by 100 |
| Numbers.PercentageRoundTrip | Website.js:120-124 | rendering `n` and appending `%` reads back as `n / 100` |
| Numbers.LeadingDigitsOf | Website.js:123 | the digit prefix of digits followed by a non-digit is exactly those digits |
| Numbers.TrimStartDigit | Website.js:123 | text starting with a digit has no leading white space to skip |
| Numbers.ParseUnsignedPoint | Website.js:123 | a literal made of digits, a point and digits, with nothing after it, has the value integer part plus fraction |
| Numbers.ParseUnsignedDecimal | Website.js:123 | `ip.fp` parses to the integer part plus the fraction |
| Numbers.ParseFloatDecimal | Website.js:123 | `parseFloat("ip.fp")` is the integer part plus the fraction |
| Numbers.RemoveFirstAppended | Website.js:123 | removing the first `%` from text that ends in its only `%` gives the text before it |
| Numbers.PercentageAppended | Website.js:120-124 | for a body that starts with a digit and holds no `%`, the percentage of `body%` is the body's `parseFloat` divided by 100 |
| Numbers.DecimalNoPercent | Website.js:123 | a decimal `ip.fp` holds no `%` |
| Numbers.PercentageOfParsed | Website.js:120-124 | a body that parses to `v`, followed by `%`, reads as `v / 100` |
| Numbers.PercentageDecimal | Website.js:117-124 | `"ip.fp%"` reads as the decimal value of `ip.fp` divided by 100 |
| Numbers.DecimalShape | Website.js:123 | the body `ip.fp` starts with a digit, holds no `%`, and parses to its value |
| NumberExamples.PercentageExample | Website.js:117-118 | `"45.2%"` is read as 0.452 |
| NumberExamples.ThousandsExample | Website.js:131-134 | `"1,234"` is read as 1234 |
| NumberExamples.NonNumericExample | Website.js:120-134 | `"abc"` and `""` read as 0 through `parseNumericValue`, and `""` reads as 0 through `parsePercentage` |
| NumberExamples.NonNumericPercentageExample | Website.js:120-124 | `"abc%"` reads as NaN through `parsePercentage` |
| Csv.Lex | Website.js:34-55 | a lexed line always has at least one field |
| Csv.ParseCsvLine | Website.js:34-55 | the character loop gives exactly the fields of the lexer's specification |
| Csv.LexQuoteParity | Website.js:42-43 | after a line, the lexer is inside quotes exactly when the line has an odd number of `"` |
| Csv.LexFieldCount | Website.js:44-53 | there is one field more than there are commas outside quotes |
| Csv.LexFieldsQuoteFree | Website.js:42-48 | no field keeps a `"` |
| Csv.LexJoin | Website.js:39-53 | the fields joined with commas are the line with every `"` removed: no other character is lost, added or reordered |
| Csv.LexWithoutQuotes | Website.js:34-55 | on a line without `"`, the lexer is `split(',')` and ends outside quotes |
| Csv.ValueOf | Website.js:90-96 | a value cell is NaN only when its text holds `%` |
| Csv.CoerceKind | Website.js:83-99 | a cell is numeric exactly under the four value columns; `Month` and every other column stay text |
| Csv.CleanQuoteFree | Website.js:80 | on a quote-free field, the cleaning is just `trim()` |
| Csv.CoerceField | Website.js:80-99 | for a quote-free field, the cell is the number read from its trimmed text under a value column, and the trimmed text otherwise |
| Csv.AssignKeys | Website.js:76-101 | the keys of an object filled header by header are the headers, and each holds the value written at some position of its header |
| Csv.AssignLastWins | Website.js:76-101 | a header holds the value written at its last position |
| Csv.BuildEntryStep | Website.js:76-101 | filling the object ends by storing the last column's coerced value under the last header |
| Csv.EntryShape | Website.js:77-101 | an entry's keys are exactly the headers, and the cell under a key is numeric exactly for the value columns |
| Csv.EntryLastWins | Website.js:77-101 | the cell under a header is the coerced value of the header's last position, so a later duplicate header overwrites an earlier one |
| Csv.EntryFromLine | Website.js:74-100 | for a lexed line of the right length, the cell under a header is the value read from its trimmed field, as a number under a value column |
| Csv.Lines | Website.js:58 | `trim().split('\n')` gives at least one line |
| Csv.TrimAll | Website.js:65 | one result per field, each the field with the white space at both ends removed and nothing else |
| Csv.HeadersTrimmed | Website.js:65 | there is one header per field of the first line, and each header is that field with the white space at both ends removed and nothing else |
| Csv.MakeEntry | Website.js:77-101 | the inner loop builds the entry of the specification |
| Csv.ParseCsvData | Website.js:57-108 | `parseCSVData` returns the entries of the specification `ParseCsv` |
| Csv.DataRows | Website.js:72-105 | the loop over lines `1..` collects the entry of each line whose field count matches, in order |
| Csv.LineRowOf | Website.js:74-104 | a line gives one entry when its field count matches the headers, and none otherwise |
| Csv.RowsShape | Website.js:72-105 | there is at most one entry per data line; every entry has exactly the headers as keys; its numeric cells are exactly those of the value columns |
| Csv.RowsKeepMatchingLines | Website.js:76-104 | when every data line has the header count of fields, there is one entry per data line |
| Csv.ParseCsvNoDataLines | Website.js:58-64 | text whose trimmed form is one line has no data rows |
| Sequences.DedupSnoc | Website.js:145-147 | adding an element to a `Set` appends it when it is new, and changes nothing otherwise |
| Sequences.DedupProperties | Website.js:145-147 | `[...new Set(xs)]` has no duplicates, has the same members as `xs`, and keeps them in first-occurrence order |
| Sequences.DedupPrecedes | Website.js:145-147 | in the de-duplicated list, every occurrence of a later element in the input is preceded by an occurrence of each earlier one |
| Sequences.FirstIndexPrefix | Website.js:145-147 | appending elements does not move an element's first occurrence |
| Sequences.DistinctConcat | Website.js:154-198 | concatenating two duplicate-free sequences with no common element gives one with no duplicates |
| Sequences.DistinctCard | Website.js:145-147 | a duplicate-free sequence has as many members as elements |
| Sequences.DistinctMultiplicity | Website.js:311 | a sequence has no duplicates exactly when every element occurs at most once in its multiset |
| Sequences.DistinctPermutation | Website.js:311 | a permutation of a duplicate-free sequence has no duplicates |
| Months.IndexOf | Website.js:223 | `indexOf` returns the first position of the element, or -1 exactly when it is absent |
| Months.MonthIndex | Website.js:223 | a month's sort key lies between -1 and 11 |
| Months.MonthIndexMeaning | Website.js:7 | the key is -1 exactly for a name outside `MONTHS`, and otherwise the position of that name in `MONTHS` |
| Months.Bucket | Website.js:223 | a bucket holds only months of its key |
| Months.BucketAppend | Website.js:223 | the bucket of a concatenation is the concatenation of the buckets |
| Months.SortFromBucket | Website.js:223 | the partial sort keeps each of its buckets unchanged and drops the buckets below its start |
| Months.SortFromKeys | Website.js:223 | the partial sort holds only months whose key is at least its start |
| Months.SortedConcat | Website.js:223 | a bucket followed by a sorted run of larger keys is sorted |
| Months.SortFromSorted | Website.js:223 | the partial sort is sorted by month key |
| Months.AboveSplit | Website.js:223 | the months with key at least `k` are the `k` bucket plus those with key at least `k + 1`, as a multiset |
| Months.SortFromMultiset | Website.js:223 | the partial sort is a permutation of the months with key at least its start |
| Months.SortByMonthProperties | Website.js:223 | the comparator sort is sorted in calendar order, is a permutation of its input, keeps months with equal keys in input order (stability), and keeps a duplicate-free list duplicate-free |
| Structure.RowOf | Website.js:145-185 | an entry has a row exactly when its `Initiative Cards`, `Sub Initiative` and `Metric` columns are text and its four value columns are numbers; the row then carries those seven columns of the entry, and its month is the entry's `Month` text, or empty when there is none |
| Structure.ToRows | Website.js:145-147 | there is a row list exactly when every entry has a row; it has one row per entry, in order, each read from its entry |
| Structure.MatchingMembers | Website.js:162-166 | `filter` keeps exactly the rows of the triple |
| Structure.MatchingNonEmpty | Website.js:162-168 | a triple has rows exactly when it occurs in the data |
| Structure.PutWellFormed | Website.js:182-185 | the four assignments keep the four maps on the same keys, and append the month to the key order exactly when it is new |
| Structure.CollectWellFormed | Website.js:176-189 | a triple's four maps share their keys, and the key order is that of first occurrence of the non-empty months |
| Structure.CollectLastWins | Website.js:176-189 | the values stored for a month are those of its last row |
| Structure.CollectKeys | Website.js:176-189 | a triple's months are exactly the non-empty months of its rows |
| Structure.MonthsOfMembers | Website.js:181 | the non-empty months of the rows, in order, are exactly the months of some row other than `""` |
| Structure.CollectNoMonths | Website.js:168-189 | a triple whose rows all have an empty month gets four empty maps |
| Structure.MetricTriplesMembers | Website.js:161-168 | the triples of a pair are exactly the pair with the metrics that have rows |
| Structure.SubTriplesMembers | Website.js:157-195 | the triples of an initiative are those of its sub-initiatives that occur with it, with the metrics that have rows |
| Structure.InitTriplesMembers | Website.js:154-198 | the visited triples are exactly those of listed initiatives, sub-initiatives and metrics whose pair occurs and whose rows exist |
| Structure.MetricTriplesDistinct | Website.js:161-168 | a pair's triples are visited once each |
| Structure.SubTriplesDistinct | Website.js:157-195 | an initiative's triples are visited once each |
| Structure.InitTriplesDistinct | Website.js:154-198 | every triple is visited at most once |
| Structure.SeriesForSnoc | Website.js:169-189 | visiting one more triple adds its maps and changes no other |
| Structure.PerTripleStep | Website.js:213-241 | visiting one more triple adds its value to a per-triple result |
| Structure.PerTripleAll | Website.js:213-241 | a result built over every visited triple covers exactly the stored triples |
| Structure.ProcessData | Website.js:141-207 | `processData` returns the dataset of the specification `Process` |
| Structure.FillInitiative | Website.js:157-197 | the sub-initiative loop appends an initiative's triples to the visiting order and stores their maps |
| Structure.FillPair | Website.js:161-195 | the metric loop appends a pair's triples and stores their maps |
| Structure.FillSeries | Website.js:176-189 | the row loop builds the triple's maps of the specification |
| Structure.ProcessLists | Website.js:145-147 | the three lists have no duplicates and hold exactly the values of their columns |
| Structure.ProcessListsOrder | Website.js:145-147 | each unique list is in order of first appearance: every row holding a later element is preceded by a row holding each earlier one |
| Structure.InitiativeColumnMembers | Website.js:145 | the initiative column holds exactly the rows' initiatives |
| Structure.SubInitiativeColumnMembers | Website.js:146 | the sub-initiative column holds exactly the rows' sub-initiatives |
| Structure.MetricColumnMembers | Website.js:147 | the metric column holds exactly the rows' metrics |
| Structure.ProcessSeries | Website.js:152-198 | the stored triples are exactly those in the data, each with the maps of its own rows; a pair has an entry exactly when `some` finds a row of it; the dataset is valid (triples once each, keys shared) |
| Structure.ProcessEmptyMonths | Website.js:168-189 | a triple whose rows all lack a month is still stored, with empty maps |
| MoM.PercentChangeInverse | Website.js:232-237 | for a non-zero previous value, applying the change to it gives the current value; from 0 the change is 100 for growth and 0 otherwise |
| MoM.PercentChangeSign | Website.js:232-237 | from a positive value, the change is positive exactly on growth, 0 exactly on no change, and -100 exactly on a fall to 0 |
| MoM.PercentChangeBoundaries | Website.js:232-237 | a fall from 100 to 0 is -100; 0 to 50 is 100; 0 to 0 is 0 |
| MoM.ChangesLoop | Website.js:225-238 | the loop from the second month gives the changes of the specification |
| MoM.ChangesKeys | Website.js:225-238 | the changes are keyed by every month but the first |
| MoM.ChangesValues | Website.js:225-238 | the change of each month after the first compares its actual value with the previous month's |
| MoM.ChangesCount | Website.js:225-238 | `n` distinct months give `n - 1` changes |
| MoM.CalculateMoMChanges | Website.js:210-244 | `calculateMoMChanges` gives each stored triple the changes along its sorted months |
| MoM.MoMOfOrder | Website.js:213-241 | visiting the triples in order covers exactly the stored triples |
| MoM.ChangesOver | Website.js:213-241 | the nested loops give each visited triple its changes |
| MoM.SeriesChangesOf | Website.js:222-238 | one triple's `Object.keys`, sort and loop give its changes |
| MoM.SortedMonthsKeys | Website.js:222-223 | the sorted months are as many as the keys, distinct, and all keys of the maps |
| MoM.SortedMonthsSame | Website.js:222-223 | sorting keeps exactly the triple's months |
| MoM.MoMProperties | Website.js:219-238 | a triple's changes are keyed by every sorted month but the first, one fewer than its months, each the change against the previous sorted month |
| Ytd.AchievementRatio | Website.js:412-417 | against a non-zero forecast, the achievement times the forecast is 100 times the actual value; against 0 it is 0 |
| Ytd.AchievementMet | Website.js:412-414 | against a positive forecast, the achievement is at least 100 exactly when the actual value reaches the forecast, and is 100 exactly when they are equal |
| Ytd.AchievementLoop | Website.js:408-418 | the `forEach` over the months gives the achievement of each month |
| Ytd.AlongStep | Website.js:408-418 | one more month adds its achievement |
| Ytd.SeriesAchievementOf | Website.js:405-418 | one triple's keys, sort and loop give its achievements |
| Ytd.CalculateYtdAchievement | Website.js:393-424 | `calculateYTDAchievement` gives each stored triple the achievement of each of its months |
| Ytd.YtdOfOrder | Website.js:396-421 | visiting the triples in order covers exactly the stored triples |
| Ytd.AchievementsOver | Website.js:396-421 | the nested loops give each visited triple its achievements |
| Ytd.SeriesAchievementKeys | Website.js:405-418 | a triple's achievements are keyed by exactly its months, each YTD actual against YTD forecast |
| Ytd.YtdProperties | Website.js:402-418 | for every stored triple and month, the achievement is that month's YTD actual against its YTD forecast, and no other month has one |
| Totals.PushMonths | Website.js:301-305 | the `includes`/`push` loop extends the first-seen month list by a triple's months |
| Totals.GatherMonths | Website.js:296-308 | the nested loops give the first-seen list of all months of the visited triples |
| Totals.MonthListsMembers | Website.js:296-308 | a month is gathered exactly when a visited triple has it |
| Totals.AllMonthsOrder | Website.js:296-311 | the gathered months are distinct and in calendar order |
| Totals.AllMonthsMembers | Website.js:296-311 | the gathered months are exactly the months of the visited triples |
| Totals.InitTotals | Website.js:315-322 | the initialisation sets the four value maps of every tracked metric to 0 on every month |
| Totals.ZeroMonth | Website.js:316-321 | one month's pass zeroes that month for every tracked metric |
| Totals.ZeroStep | Website.js:317-320 | one metric's four assignments advance the partial initialisation by that metric |
| Totals.AddSeries | Website.js:329-339 | the month loop adds one triple's four values into its metric's totals |
| Totals.Accumulate | Website.js:325-343 | the nested loops add every visited triple of a tracked metric |
| Totals.CountMetric | Website.js:348-356 | the count loop counts the visited triples with the metric |
| Totals.DivideSeries | Website.js:359-364 | the month loop divides one metric's four values by its count |
| Totals.Average | Website.js:346-367 | the two averaged metrics are divided by their counts, when positive |
| Totals.TotalChangesLoop | Website.js:371-385 | the month loop gives the changes of a total, 0 for the first month |
| Totals.TotalsMoM | Website.js:370-386 | the changes are computed for every tracked metric |
| Totals.CalculateTotals | Website.js:247-390 | `calculateTotals` returns the totals of the specification `TotalsOf` |
| Totals.AddMonthsColumn | Website.js:329-339 | adding a triple adds into each of the four columns on its own and leaves the changes alone |
| Totals.BumpMonthsValues | Website.js:335-338 | after the additions, each month holds the old total plus the triple's value (0 when missing), and other months are unchanged |
| Totals.DivideMonthsColumn | Website.js:359-364 | dividing divides each column on its own and leaves the changes alone |
| Totals.ScaleMonthsValues | Website.js:360-363 | after the division, each month holds the old total over the count, and other months are unchanged |
| Totals.AccumulateKeys | Website.js:325-343 | adding triples changes no metric key |
| Totals.AccumulateColumn | Website.js:314-343 | after the sums, each column of a tracked metric is keyed by all months and holds on each month the sum of that column over the visited triples of the metric |
| Totals.AverageKeys | Website.js:346-367 | averaging changes no metric key |
| Totals.AverageColumn | Website.js:346-367 | averaging divides an averaged metric's values by its positive count and leaves every other metric alone |
| Totals.MoMOverMetric | Website.js:370-386 | the change pass keeps the metric keys and replaces the changes of exactly the tracked metrics |
| Totals.TotalsKeys | Website.js:250-293 | the totals have exactly the six tracked metrics |
| Totals.AveragedValues | Website.js:314-367 | before the changes, each column of a tracked metric holds on every month the sum over its triples, or that sum over the count for an averaged metric |
| Totals.TotalsMetric | Website.js:369-386 | a tracked metric's final totals are its averaged values with the changes of its actual values |
| Totals.TotalsValues | Website.js:314-367 | each column of a tracked metric is keyed by all months and holds the sum, or the average, of that column over its triples |
| Totals.TotalsChanges | Website.js:369-386 | a tracked metric's changes are those of its final actual values along the sorted months |
| Totals.TotalChangesFirstZero | Website.js:371-385 | the totals' changes are the per-triple changes plus an explicit 0 for the first month |
| Totals.TotalChangesMeaning | Website.js:371-385 | the totals' changes are keyed by every month, 0 on the first, and on each later month the change against the previous month |

## Left out

- Floating point: numbers are exact reals. The model leaves out rounding, Infinity, overflow of large exponents and the IEEE results of dividing by a non-zero value.
- `parseFloat` covers decimal text only. `Infinity`, and text that is not in the form of a decimal literal, are not modelled beyond giving NaN.
- Characters are Dafny characters, not UTF-16 code units. White space is the set `trim()` removes.
- Structure.RowOf: an entry with a missing `Initiative Cards`, `Sub Initiative` or `Metric` column, or with a missing or NaN value column, gives no row, and `ToRows` then gives no row list. The source would store `undefined` or NaN in the maps. The row for a missing `Month` column reads as the empty month, which is skipped like the source's falsy month.
- JavaScript object key order puts integer-like keys first; the model keeps keys in insertion order.
- Names of `Object.prototype` members used as keys are ordinary keys in the model, so its results differ from the source's in the three cases below.
- A metric named like a prototype member (`constructor`, `toString`, ...) makes `totals[metric]` truthy (`Website.js:328`). `totals[metric].actual` is then `undefined`, so `totals[metric].actual[month] += actual` (`Website.js:335`) throws a TypeError whenever there is a month, and calculateTotals fails. The model treats only the six tracked metrics as present and skips every other metric.
- A month named `toString`, `constructor`, `valueOf` or another prototype member, read for a tracked triple that lacks it, yields the inherited function at `Website.js:330-333`. `|| 0` keeps it, and line 335 turns the total into a string. `MoM.At`, and through it `Totals.Bump`, reads such a month as 0.
- A month, initiative, sub-initiative or metric named `__proto__` is assigned through the prototype setter (`Website.js:155`, `159`, `169`, `182-185`). No own key is stored and `Object.keys` never lists it. `Structure.Put` and `Process` store it as an ordinary key.
- The nested result objects of calculateMoMChanges and calculateYTDAchievement are flattened to maps keyed by triple. The empty objects they create for initiatives and sub-initiatives with no stored triple are not modelled.
- MoM.At: a missing month reads as 0, while the source reads `undefined`. Every month the calculators read is a key of a well-formed series, or goes through `|| 0`, so the two agree apart from the prototype names above.
- Totals.CountMetric: counts the visited triples with the metric, not the (initiative, sub-initiative) pairs holding it (`Website.js:350-356`). The two numbers are equal because each triple is visited once.
- MoM.CalculateMoMChanges and Ytd.CalculateYtdAchievement require that the visited triples are exactly the stored ones. Totals.CalculateTotals requires `Valid`. `Structure.ProcessSeries` proves both of the dataset that `processData` returns.
- The console logging and the `try`/`catch` of `parseCSVData` (`Website.js:109-112`) are left out; nothing in the modelled code throws.
- `numericColumns` (`Website.js:70`) is computed but never used.
- `formatNumber` and everything after it in `Website.js`, and the files `createCharts.js`, `populateMetricCards.js` and `collapsible.js`, are not part of this model. They cover the DOM, the charts and the page set-up.
