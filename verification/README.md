# AR aging dashboard: month-over-month reconciliation, in Dafny

This project models the client-side logic of an accounts-receivable aging
dashboard. The dashboard is a React single-page application. Each receivable
record carries amounts in six buckets: `current`, `0_30`, `31_60`, `61_90`,
`90_plus` and `total`. The model covers these parts:

- **Bucket-shift comparison** (`Aging`, `MonthComparison`). A receivable ages
  one bucket per month, so each bucket is compared with the bucket it came
  from last month:

  | this month | last month |
  |---|---|
  | `current` | `current` |
  | `0_30` | `0_30` |
  | `31_60` | `0_30` |
  | `61_90` | `31_60` |
  | `90_plus` | `61_90` + `90_plus` |
  | `total` | `total` |

  A percentage against a previous value of 0 is 0. The history is sorted by
  month before comparing.
- **Description matching** (`Matcher`).
  - The history view matches on the exact description first, then on a
    normalised description, then on a normalised description with a
    correction table.
  - The forecast table has its own, weaker normaliser.
- **Client analytics** (`Analytics`): total and average growth, growth rate,
  the variance of month-to-month changes, first peak and low months,
  per-bucket averages and least-squares slopes, and the share of months
  with predictions.
- **The editable forecast table** (`ForecastTable`): cell edits, column
  totals, last month's totals under the shift rule, per-cell differences,
  row provenance and the target check.
- **The forecasting page** (`Dashboard`, `Entries`): the target-month guard,
  the mismatch-report guard, request validation and payload, and the
  additional-entry list.
- **Smaller pieces**:
  - the comparison chart data (`ComparisonChart`);
  - the CSV export (`Export`);
  - the upload dialog's elapsed-time display, file check and upload
    precondition (`Upload`);
  - client search, the year list and the axis-label density rule
    (`ClientList`).

Shared building blocks:

- `Common`: `Option`, `Result`, and sequence folds.
- `Text`: JavaScript's `trim`, whitespace collapsing, `split`/`join` and
  string `<`.
- `Numbers`: `Math.round`, `parseFloat` with NaN as `None`, and `x || 0`.

Amounts are unbounded integers. Percentages, averages and slopes are reals.
Every operation is a pure function over immutable datatypes. A React state
update is a function from the old state to the new one.

## Model

| member | source | states |
|---|---|---|
| Aging.Difference | src/components/Clients.js:450-486 | The change is the value minus the previous value. Its percentage times the previous value is 100 times the change, and it is 0 when the previous value is 0. |
| Aging.Compare | src/components/Clients.js:561-636 | Every bucket is compared with last month's bucket under the shift table: 31-60 with 0-30, 61-90 with 31-60, 90+ with 61-90 plus 90+, the others with themselves. |
| Aging.PureAgeingShowsNoChange | src/components/Clients.js:561-636 | A record that only aged one month, every amount moving one bucket on, shows no change in 31-60, 61-90 or 90+. |
| Aging.NoChangeMeansPureAgeing | src/components/Clients.js:561-636 | Conversely, no change in the three older buckets means the record is last month's record aged by one month. |
| Aging.ShiftExample | src/components/Clients.js:604-626 | A worked case: an amount that moved from 61-90 into 90+ counts as no change, and the 90+ comparison is against 61-90 plus 90+. |
| Matcher.FindPreviousIsBestMatch | src/components/Clients.js:504-558 | The matcher finds no record exactly when no record matches at any stage. Otherwise it returns the first record of the best stage: exact before normalised before corrected. |
| Matcher.Normalize | src/components/Clients.js:511-517 | A normalised description has no `.` or `,`, no upper-case letter, and no whitespace at either end. |
| Matcher.NormalizeContent | src/components/Clients.js:511-517 | Normalising keeps the non-space characters of the lower-cased description, minus every `.` and `,`, in their order. Any whitespace it leaves is a plain space. |
| Matcher.NormalizeCharacters | src/components/Clients.js:511-517 | A normalised description holds only spaces and characters of the lower-cased description other than `.` and `,`. Every such non-space character of the lower-cased description survives. |
| Matcher.NormalizeCorrectedShape | src/components/Clients.js:527-536 | The corrected normaliser's result has the same shape as the plain one: no `.` or `,`, no upper-case letter, only plain spaces, none at either end. Its characters come from the stripped description or from the words `solutions` and `transport`. |
| Matcher.CorrectionsOnlyTouchTheirWords | src/components/Clients.js:527-536 | When the stripped description contains neither `sloutions`, nor `solution`, nor `transportation`, the corrected normaliser agrees with the plain one. |
| Matcher.LogisticsCorrectionIsIdentity | src/components/Clients.js:534 | The `logistics` entry of the correction table rewrites nothing. |
| Matcher.ExactStage | src/components/Clients.js:504-507 | When an exact match exists, it is what the matcher returns. |
| Matcher.NormalizedStage | src/components/Clients.js:509-522 | Without an exact match, the first normalised match is the best match. |
| Matcher.CorrectedStage | src/components/Clients.js:525-558 | Without exact or normalised matches, the first corrected match is returned, or none at all. |
| Matcher.FindLastMonthRecord | src/components/PredictionsTable.js:94-117 | The table finds nothing without last month's data or without any exact or normalised match. Otherwise it returns the first exact match, else the first normalised one. |
| Matcher.TableNormalizerOnlyFixesSloutions | src/components/PredictionsTable.js:103-115 | The table's normaliser is the history view's one plus the `sloutions` correction. Where that misspelling does not occur, the two agree. |
| MonthComparison.BucketTotalsAreColumnSums | src/components/Clients.js:424-444 | A month's bucket total is the sum of that bucket over the month's records. |
| MonthComparison.BucketTotalsAppend | src/components/Clients.js:424-444 | Bucket totals add up over concatenated record lists. |
| MonthComparison.SortByMonth | src/components/Clients.js:415-418 | The sorted history is in chronological order and is a permutation of the input. |
| MonthComparison.SortByMonthStable | src/components/Clients.js:415-418 | The sort is stable: the snapshots of any one month keep their input order. |
| MonthComparison.AdjacentMonthsTakesFirstOfMonth | src/components/Clients.js:415-422 | When a month has several snapshots, the comparison uses the first of them in input order. |
| MonthComparison.AdjacentMonthsTakesLastOfPrevious | src/components/Clients.js:415-422 | The predecessor is the last snapshot of its month in input order. |
| MonthComparison.InsertByMonthSorted | src/components/Clients.js:415 | Inserting a month into a sorted history keeps it sorted. |
| MonthComparison.AdjacentMonthsSpec | src/components/Clients.js:415-422 | After sorting, a month finds its predecessor exactly when it is present and some month precedes it. The predecessor is the latest month before it. |
| MonthComparison.MonthComparisonSpec | src/components/Clients.js:411-489 | The month comparison is null without history, for a missing month, or for the first month. Otherwise it compares the month's bucket totals with those of the latest earlier month under the shift rule. |
| MonthComparison.RecordComparisonSpec | src/components/Clients.js:492-640 | The record comparison is null in the same cases, and also when no record of the previous month matches. Otherwise it compares the record with its match under the shift rule. |
| Analytics.CalculateAnalytics | src/components/Clients.js:298-408 | A missing or empty history gives the all-zero result. Otherwise growth is last minus first, and the growth rate is a percentage of the first total when that is positive and 0 otherwise. The peak and low months are those of the highest and lowest totals, the first such month on ties. The variance is that of the month-to-month changes and is non-negative. The trends are the per-bucket trends of all records and cover the five buckets. The accuracy is that of the predicted months and lies in [0, 100]. |
| Analytics.ChangesTelescope | src/components/Clients.js:323-334 | The month-to-month changes add up to the total growth. |
| Analytics.AnalyticsAverageGrowth | src/components/Clients.js:323-327 | The average monthly growth is the mean of the month-to-month changes. |
| Analytics.AvgMonthlyGrowthIsMeanChange | src/components/Clients.js:327 | Growth divided by months minus one equals the mean change. |
| Analytics.Variance | src/components/Clients.js:335-337 | The variance of the changes is never negative. |
| Analytics.VarianceZeroIffSteady | src/components/Clients.js:331-337 | The variance is 0 exactly when all changes are equal, including when there are fewer than two months. |
| Analytics.VarianceZeroWhenSteady | src/components/Clients.js:331-337 | Equal changes give variance 0. |
| Analytics.VariancePositiveWhenUneven | src/components/Clients.js:331-337 | Two different changes give a positive variance. |
| Analytics.SquaredDeviationIsSquare | src/components/Clients.js:337 | Each term of the variance is the square of a change's distance from the mean change. |
| Analytics.PeakIsFirstMaximum | src/components/Clients.js:340-341 | The peak index holds a maximal total, and every earlier total is strictly smaller: ties go to the earliest month. |
| Analytics.LowIsFirstMinimum | src/components/Clients.js:340-341 | The low index holds a minimal total, and every earlier total is strictly larger. |
| Analytics.AnalyticsPeak | src/components/Clients.js:340-344 | The peak month is the month of the first largest total. |
| Analytics.AnalyticsLow | src/components/Clients.js:340-344 | The low month is the month of the first smallest total. |
| Analytics.BucketValuesLength | src/components/Clients.js:355-364 | A bucket's values have one entry per record of every month, and each month's records form a block in history order. |
| Analytics.BucketTrends | src/components/Clients.js:346-385 | Trends exist for exactly the five aged buckets, and each bucket's values are that bucket's column. |
| Analytics.BucketTrend | src/components/Clients.js:367-383 | The average times the count is the sum, and the slope is 0 for fewer than two values. |
| Analytics.ClosedFormsAreSums | src/components/Clients.js:376-379 | The closed forms n(n-1)/2 and n(n-1)(2n-1)/6 are the sums of the indices and of their squares. |
| Analytics.SlopeDenominatorPositive | src/components/Clients.js:381 | From two values on, the slope's denominator is n²(n²-1)/12 and strictly positive. |
| Analytics.LinearTrend | src/components/Clients.js:374-382 | For values on a straight line a + b·i, the computed slope is exactly b. |
| Analytics.PredictionAccuracy | src/components/Clients.js:388-393 | Prediction coverage lies between 0 and 100. |
| Analytics.PredictionAccuracyExtremes | src/components/Clients.js:388-393 | Coverage is 100 exactly when every month has predictions, and 0 exactly when none has. |
| Analytics.MonthlyStats | src/components/Clients.js:313-319 | One summary per month, in order, carrying the month and its total. |
| ForecastTable.HandleCellChange | src/components/PredictionsTable.js:11-43 | Edits to `total`, and to `current` on a user-supplied row, are ignored. Any other edit changes only the edited row, sets the edited bucket to the rounded value, and leaves the other aged buckets alone. A `current` edit sets 0-30. Afterwards the total is the sum of the aged buckets and `current` equals the total. |
| ForecastTable.EditAmounts | src/components/PredictionsTable.js:24-39 | After an accepted edit the row's total is the sum of its aged buckets and `current` equals the total. The edited bucket, or 0-30 for a `current` edit, holds the new value, and the other aged buckets keep theirs. |
| ForecastTable.CellChangeIdempotent | src/components/PredictionsTable.js:11-43 | Repeating an accepted edit changes nothing further. |
| ForecastTable.CellValueOfNumeral | src/components/PredictionsTable.js:13 | Typing a whole number shown in a cell reads back as that number. |
| ForecastTable.GrandTotalAfterEdit | src/components/PredictionsTable.js:45-49 | An edit moves the total column's sum by exactly the change in the edited row's total. |
| ForecastTable.GrandTotalOfConsistentRows | src/components/PredictionsTable.js:31-49 | When every row has been edited into shape, the grand total is the sum of the four aged column totals. |
| ForecastTable.LastMonthValue | src/components/PredictionsTable.js:51-71 | A previous-month figure follows the shift table, with `current` falling back to 0-30 when it is 0. |
| ForecastTable.LastMonthValueIsShifted | src/components/PredictionsTable.js:54-67 | A record's previous-month figure is the history view's shift rule applied to the record read with `current` falling back to 0-30 when it is 0. |
| ForecastTable.LastMonthColumnTotalIsShifted | src/components/PredictionsTable.js:51-71 | Last month's column totals are the shift rule applied to the history view's bucket totals of last month's records, each read with `current` falling back to 0-30 when it is 0. |
| ForecastTable.AsShownWithoutFallback | src/components/PredictionsTable.js:57 | When no record of last month has `current` equal to 0, the table reads last month's records as they are. |
| ForecastTable.ShowDifference | src/components/PredictionsTable.js:119-123 | A shown difference is the value minus the previous value. It is positive when the value is at least the previous one, and "no change" exactly when the two are equal. |
| ForecastTable.DifferenceDisplay | src/components/PredictionsTable.js:176-214 | Nothing is shown without last month's data, or for a line item without a matching record. Otherwise the shown difference is that of the value against a previous figure. The footer's previous figure is the shift rule applied to last month's bucket totals. A line item's is the shift rule applied to its matching record. Both read `current` as falling back to 0-30 when it is 0. |
| ForecastTable.DifferenceDisplayAgreesWithCompare | src/components/PredictionsTable.js:317-413 | With the values the line-item cells pass (for `current`, `current` or 0-30 when it is 0), the table shows the same change as the history view's bucket comparison of the row against its matched record, both read with that fallback. |
| ForecastTable.FooterDifferenceAgreesWithCompare | src/components/PredictionsTable.js:429-482 | With last month's data present, the footer shows the same change as the history view's comparison of the table's column totals against last month's bucket totals. |
| ForecastTable.GetRowType | src/components/PredictionsTable.js:125-144 | The four row types are the four combinations of "user supplied" and "has a match last month". |
| ForecastTable.TypeCountsCoverRows | src/components/PredictionsTable.js:250-255 | The per-type counts add up to the number of rows. |
| ForecastTable.TargetMatchedIffEqual | src/components/PredictionsTable.js:73-74 | For a whole-number target, being within a cent means being equal. |
| Dashboard.TargetMonthChange | src/components/Dashboard.js:208-217 | A month before the set minimum is ignored. Any other month is taken and frees the automatic month. A chosen month that respects the minimum keeps respecting it. |
| Dashboard.ReportMismatch | src/components/Dashboard.js:298-310 | After a report the banner shows the reported state, keeping the previous state only when it already agrees to within a cent. |
| Dashboard.ReportMismatchIdempotent | src/components/Dashboard.js:298-310 | A repeated report is recognised as redundant and changes nothing. |
| Dashboard.NaNTargetNeverRedundant | src/components/Dashboard.js:298-310 | With a NaN target no report is redundant, so each one replaces the state. |
| Dashboard.Generate | src/components/Dashboard.js:219-263 | A request is refused without a client or month, and refused when the column targets sum to zero or less. Otherwise the payload carries the client, the month, the threshold, the valid entries, and the targets' sum as its total. |
| Dashboard.EmptyTargetsRefused | src/components/Dashboard.js:226-234 | With every column target empty, no request is made. |
| Dashboard.ValidEntries | src/components/Dashboard.js:240-246 | Every sent entry has a description and a positive amount, and there are no more of them than entries with content. |
| Dashboard.ValidEntriesSinglePass | src/components/Dashboard.js:240-246 | The sent entries are exactly the usable entries, in their order, trimmed and parsed. |
| Dashboard.TargetValue | src/components/Dashboard.js:226-229 | A target is parsed as typed, except that an empty target is parsed as the numeral `0` and so counts as 0. |
| Dashboard.ValuesTotal | src/components/Dashboard.js:226-229 | The targets' sum is a number exactly when all four targets are numbers. |
| Dashboard.IsTargetMatched | src/components/Dashboard.js:338-343 | The forecast meets the targets when its grand total is within a cent of their sum. A NaN target is never met. |
| Dashboard.TargetMatchedIffWholeSum | src/components/Dashboard.js:338-343 | For whole-number targets, the forecast meets them exactly when its grand total equals their sum. |
| Dashboard.BannerReflectsMatch | src/components/Dashboard.js:298-310 | After the table's report, the banner shows exactly when the targets are missed, and quotes the current grand total. |
| ComparisonChart.LastWith | src/components/MonthComparisonChart.js:6-12 | The record a description map keeps is the last one with that description, and none exists exactly when no record has it. |
| ComparisonChart.DescriptionMap | src/components/MonthComparisonChart.js:6-12 | The map's keys are exactly the descriptions present, each with the last such record's value. |
| ComparisonChart.Distinct | src/components/MonthComparisonChart.js:39 | The set of descriptions holds every input description once, in first-seen order. |
| ComparisonChart.PreviousKey | src/components/MonthComparisonChart.js:28-33 | For every bucket but 90+, the previous month's key is the one the shift table names. |
| ComparisonChart.PreviousValueIsShifted | src/components/MonthComparisonChart.js:34-76 | A point's previous value is the shift rule applied to last month's record with that description, or 0 when there is none. |
| ComparisonChart.CreateChartData | src/components/MonthComparisonChart.js:24-82 | The chart data is sorted by current value, largest first, and is a permutation of the points of all descriptions. |
| ComparisonChart.ChartPointValues | src/components/MonthComparisonChart.js:42-53 | Each point carries its description's current value and its shifted previous value. |
| ComparisonChart.ChartCoversDescriptions | src/components/MonthComparisonChart.js:38-76 | A description appears in the chart exactly when it appears in either month. |
| ComparisonChart.ChartNamesDistinct | src/components/MonthComparisonChart.js:38-76 | No description appears twice. |
| ComparisonChart.NoPreviousMonth | src/components/MonthComparisonChart.js:35-36 | Without last month's data, every previous value is 0. |
| ComparisonChart.SortByCurrent | src/components/MonthComparisonChart.js:56 | The sort orders by current value, largest first, and is a permutation. |
| Entries.EntryChange | src/components/ClientSelector.js:6-13 | An edit changes only the chosen field of the chosen entry. |
| Entries.AddEntry | src/components/ClientSelector.js:15-21 | Adding appends one empty entry and keeps the others. |
| Entries.RemoveEntry | src/components/ClientSelector.js:23-31 | Removing deletes exactly the chosen entry and keeps the order, unless it is the only entry. |
| Entries.EntriesNeverEmpty | src/components/ClientSelector.js:4-31 | No operation empties the entry list. |
| Entries.ValidCount | src/components/ClientSelector.js:43-47 | The count of entries with content is at most the number of entries. It is 0 exactly when no entry has content, and the number of entries exactly when every entry has content. |
| Entries.TotalEntries | src/components/ClientSelector.js:119 | The total shown lies between last month's count and that count plus the number of entries. |
| Entries.InitialEntriesCountNothing | src/components/ClientSelector.js:4 | The initial list of one empty entry counts no entries. |
| Entries.AddEntryKeepsCount | src/components/ClientSelector.js:15-21 | Adding an empty entry leaves the count of entries with content unchanged. |
| Export.ExportedRow | src/components/DownloadButton.js:12-20 | An exported row shows `current`, or 0-30 when `current` is 0, and every other column unchanged. |
| Export.ExportTotalsAreColumnTotals | src/components/DownloadButton.js:23-37 | The totals row is the column sum of the exported rows, with the same fallback for `current`. |
| Export.ExportTotalsMatchTable | src/components/DownloadButton.js:23-37 | The exported totals equal the table's column totals. |
| Export.DownloadCsv | src/components/DownloadButton.js:6-7 | No CSV is produced exactly when there are no predictions. |
| Export.CsvLines | src/components/DownloadButton.js:50-54 | The CSV splits into the header, one line per prediction in order, and the totals line: two more lines than predictions. |
| Export.RowLineReadsBack | src/components/DownloadButton.js:12-20 | A data line has seven fields. The first is the quoted description, and each other field parses back to its column's amount in header order. |
| Export.RowFields | src/components/DownloadButton.js:9-20 | A data row has as many fields as the header. |
| Upload.FormatElapsedTime | src/components/UploadModal.js:30-38 | Under a minute the time shows as seconds. From a minute on it shows minutes and a remainder under 60 that together make up the seconds. |
| Upload.ElapsedTimeReadsBack | src/components/UploadModal.js:30-38 | The shown time reads back as the original number of seconds. |
| Upload.ExtensionDecides | src/components/UploadModal.js:40-51 | A file is accepted exactly when its extension after the last dot, lower-cased, is `xlsx` or `xls`. |
| Upload.NameWithoutDot | src/components/UploadModal.js:40-51 | A name without a dot is judged as a whole, so a file named just `xlsx` is accepted. |
| Upload.FileChange | src/components/UploadModal.js:40-51 | A chosen Excel file replaces the selection. Anything else keeps the previous one, so the selection is always empty or an Excel file. |
| Upload.PrepareUpload | src/components/UploadModal.js:53-65 | An upload is refused exactly when there is no file or the trimmed client name is empty. Client name and description are sent trimmed. |
| Upload.PrepareUploadStable | src/components/UploadModal.js:53-65 | Preparing an already prepared upload again gives the same form. |
| ClientList.FilterClients | src/components/Clients.js:910-912 | The search keeps exactly the clients whose lower-cased name contains the lower-cased term, and no list gives no clients. Every kept client comes from the list, and the kept clients keep their list order. |
| ClientList.EmptySearchKeepsAll | src/components/Clients.js:910-912 | An empty search keeps the whole list. |
| ClientList.AvailableYears | src/components/Clients.js:671-674 | Each year of the history appears once, most recent first. |
| ClientList.LabelsCoverAxis | src/components/Clients.js:744-756 | The first and last points are labelled, and no gap between labels exceeds the stride. |
| ClientList.ShortAxisFullyLabelled | src/components/Clients.js:744-746 | Up to twelve points, every point is labelled. |
| Numbers.ParseFloatOfInt | src/components/PredictionsTable.js:13 | `parseFloat` reads a whole number's numeral back as that number. |
| Numbers.Round | src/components/PredictionsTable.js:13 | Rounding gives the integer nearest the value, rounding halves up. |
| Numbers.Percent | src/components/PredictionsTable.js:119-123 | A percentage against a base of 0 is 0. Otherwise it is the part scaled so that the base counts as 100. |

## Left out

- Amounts are whole numbers here; the source holds JavaScript doubles, and
  uploaded figures may carry cents. `calculateColumnTotal`,
  `calculateLastMonthColumnTotal` and `grandTotal`
  (`PredictionsTable.js:45-49`, `51-70`, `72`) apply `Math.round` to sums of
  doubles, which on whole numbers is the identity. The dashboard's own
  `grandTotal` (`Dashboard.js:338-343`) sums the same rows without rounding,
  so with fractional amounts the two grand totals can differ by up to half a
  unit. Neither that difference nor floating-point error inside the sums is
  modelled.
- Text.IntToString: writes every integer in plain digits. JavaScript writes
  numbers of magnitude 1e21 and above in exponent notation, so the CSV of
  such an amount would differ.
- Rendering: JSX, CSS, the charts' SVG geometry, tooltips and popovers.
- I/O and browser plumbing: `fetch` and the API hooks, authentication,
  `localStorage`, Blob downloads and the file name they get.
- Timing: the generation and upload timers, and the order in which React
  effects run.
- The volatility figure is `Math.sqrt` of the variance. Only the variance is
  modelled, because Dafny has no square root on reals.
- Month arithmetic through `Date` (`Dashboard.js:114-122` and `127-205`: the
  default and minimum target month, the last-month count). It depends on the
  host time zone.
- The client sort (`Clients.js:914-928`). Its comparator never returns 0 and
  compares keys of mixed types, so it is not a consistent order.
- `downloadMonthCSV` (`Clients.js:231-285`) is a per-month export of the
  history view and is not part of this model.
- The Excel export's HTML table. Its totals reduce (`DownloadButton.js:72-86`)
  is the same expression as the CSV one, so `Export.ExportTotals` stands for
  both.
- Aliasing: `handleEntryChange` and `handleCellChange` write into row objects
  shared with the previous state. The model treats every update as producing
  a new value.
- Descriptions are written into the CSV between quotes without escaping, so
  a description containing `"` yields a malformed field. This is modelled as
  written.
- Export.CsvLines: holds only for descriptions without a line break, since
  the source does not escape them.
- Export.RowLineReadsBack: holds only for descriptions without a comma, for
  the same reason.
- Export.ExportTotalsMatchTable: for `current`, requires that no row has
  `current` equal to 0. The export falls back to 0-30 per row, but the
  table's column total (`PredictionsTable.js:45-49`) does not.
- Analytics.CalculateAnalytics: for an empty history the model also sets
  `totalMonths` and `avgMonthlyTotal` to 0; the source leaves them out of
  that result.
- ClientList.AvailableYears: years are integers. The source extracts them as
  four-character strings and sorts them with numeric subtraction, which
  gives the same order for four-digit years.
- Numbers.ParseFloat: `Infinity` is not recognised. Every other input is
  read as JavaScript reads the longest decimal-literal prefix.
- Text.ToLower: lower-cases ASCII letters only. JavaScript's `toLowerCase`
  also maps other Unicode letters.
- Dashboard.TargetTotal: a NaN target sum is modelled as `None`. The inputs
  are number fields, so a NaN may not be reachable in the page.
- The row-type summary's display, which lists only the types present, is not
  modelled. Only the counts are (`ForecastTable.TypeCount`).
