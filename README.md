# Salary comparison page (reclass.js) in Dafny

reclass.js is the script of a page that compares the salary schedules of school
districts. It loads a flat table of positions (district, position, Range label and
the pay for years of service 1..35). It lets the user pick (district, position)
pairs and draws each picked pay series as one line of a chart. This project models
the page's state and the handlers that change it:

- **DATA**, the nested map district → position → {Range, Pay} that `reFormatData`
  builds from the rows (module `Reshaper`).
- **SELECTED_JOBS**, the ordered, duplicate-free list of (district, position, colour)
  entries (module `Selection`). `jobSelectParse` appends to it and `removeBadge`
  slices or pops it.
- **COLOR_INDEX** over the 14-colour palette **COLORS** (module `Palette`).
- **MAX_DISPLAY_SALARY / MIN_DISPLAY_SALARY**, the chart window: what the trim
  button computes, the defaults `resetChart` restores, and the tick step derived
  from them (module `Windowing`).
- **CHART_DATA**, the labels and datasets `prepareLineChartData` builds (module
  `ChartSeries`).
- The menu id of each district, `'jobSelect-' + district.replace(' ','_')`, and how
  `jobSelectParse` decodes it (module `MenuIds`).
- The globals themselves are the fields of the class `Reclass.Page`. Its methods are
  the handlers. Each handler's `ensures` gives the whole new state in terms of the
  specification functions above, and the lemmas in those modules state what those
  functions promise.

Modelling choices:

- Pay figures are integer cents. The window stays in whole dollars, as in the
  source. Trim's `Math.ceil(max / 5000) * 5000` is therefore `ceil(cents / 500000) * 5000`,
  and `Math.floor` is treated the same way.
- Where the source indexes `DATA[district][position]` for a pair that DATA lacks, it
  throws a TypeError. The model states what has happened by then. Trim leaves the
  window untouched. `prepareLineChartData` has already pushed the datasets that come
  before the missing entry. `reFormatData` throws on a row that lacks a year column;
  the model returns `Failure(MissingYear(row, year))` for the first such row.
- Edge cases the model states as the script behaves:
  - `removeBadge` with an index at or past the last slot pops the last entry and
    raises no error.
  - Trimming an empty selection sets the window to max 0 and min 1000000.
  - Lookup failures and malformed rows make the script throw; the model records
    where, and does not name the errors any further.

## Model

| member | source | states |
|---|---|---|
| MenuIds.ReplaceLeading | reclass.js:295 | `replace` with a string pattern that starts the string replaces exactly that leading occurrence |
| MenuIds.StripPrefix | reclass.js:295 | dropping `'jobSelect-'` from a menu id gives back exactly the encoded district |
| MenuIds.SpaceUnderscoreRoundTrip | reclass.js:295 | replacing the first space by `_` and then the first `_` by a space gives the name back if and only if every `_` in it has a space before it |
| MenuIds.DistrictRoundTrip | reclass.js:441-445 | jobSelectParse recovers the district from the menu id if and only if no `_` in the district name comes before its first space |
| Reshaper.MissingYearFrom | reclass.js:487-488 | the first year column from `y` on that a row lacks (where `toFixed` throws on the absent column), or none when the row has every column up to 35 |
| Reshaper.PayOf | reclass.js:484-489 | a row's pay series has 35 figures, and figure k is the pay of year k + 1 |
| Reshaper.Insert | reclass.js:476-483 | storing a row adds its district if new and sets its position to the row's Range and Pay; other districts and the district's other positions are untouched |
| Reshaper.InsertInTwoSteps | reclass.js:476-483 | the source's two statements (create the district map when absent, then store the position) amount to Insert |
| Reshaper.ReadPay | reclass.js:484-489 | the inner loop yields the row's 35 pay figures in year order, or fails at the first missing year |
| Reshaper.ReFormatData | reclass.js:465-493 | the nested loops compute exactly Reshaped(rows): rows processed in order, later duplicates overwriting, first malformed row failing |
| Reshaper.FailureStays | reclass.js:473-490 | once a row fails, no later row changes the outcome |
| Reshaper.ReshapedSucceeds | reclass.js:473-490 | reshaping succeeds if and only if every row has all 35 year columns |
| Reshaper.ReshapedFailure | reclass.js:473-490 | a failure names a row before which every row is complete, and that row's first missing year |
| Reshaper.ReshapedDistricts | reclass.js:476-479 | every district of the input, and no other, becomes a key, and each has at least one position |
| Reshaper.ReshapedWellFormed | reclass.js:484-489 | every stored pay series has one figure per year of service |
| Reshaper.ReshapedHasPair | reclass.js:482 | a (District, Position) pair is stored if and only if some row carries it |
| Reshaper.ReshapedLastWins | reclass.js:482-489 | the entry stored for a pair holds the Range and Pay of the last row with that pair |
| Palette.PaletteDistinct | reclass.js:73-88 | the palette has 14 pairwise distinct colours |
| Palette.WrapCursor | reclass.js:289-291 | after the wrap check the cursor is always a palette index, and a cursor already in range is kept |
| Palette.CursorAfterClosedForm | reclass.js:289-295 | after n >= 1 selects COLOR_INDEX is ((n - 1) mod 14) + 1, and 0 before any select |
| Palette.ColorOfCall | reclass.js:289-295 | the n-th select (from 0), duplicate or not, reads COLORS[n mod 14] |
| Selection.AddedKeepsDistinct | reclass.js:297-305 | a select keeps pairs distinct, keeps earlier entries in place, appends exactly one entry when the pair is new and none otherwise, and the pair is present afterwards |
| Selection.FindPair | reclass.js:297-302 | the duplicate scan finds a match exactly when the (district, position) pair is already selected |
| Selection.RemovedShape | reclass.js:344-350 | on a non-empty list, removal takes out exactly the entry at `index` (or the last one when `index + 1 >= length`), keeping the others in order; on an empty list nothing changes |
| Selection.RemovedKeepsDistinct | reclass.js:342-350 | removal keeps pairs distinct |
| Windowing.TickStep | reclass.js:265 | the tick step is 2500 or 5000, and 2500 exactly when the window spans less than 15000 |
| Windowing.RoundUpToStep | reclass.js:137 | the result is the smallest multiple of 5000 dollars covering the amount |
| Windowing.RoundDownToStep | reclass.js:138 | the result is the largest multiple of 5000 dollars not above the amount |
| Windowing.MaxOfBounds | reclass.js:131-134 | the running `Math.max` is at least the seed and every figure, and equals one of them |
| Windowing.MinOfBounds | reclass.js:131-134 | the running `Math.min` is at most the seed and every figure, and equals one of them |
| Windowing.ColumnAt | reclass.js:131-134 | for a fully listed selection the scanned column has one figure per selected job, in order |
| Windowing.ScanExtremes | reclass.js:126-134 | the scan finishes exactly when every selected job is in DATA, and then holds the running maximum of final-year pay and minimum of first-year pay from the seeds 0 and 1000000 |
| Windowing.TrimmedMaxFits | reclass.js:127-137 | the trimmed maximum is the smallest non-negative multiple of 5000 that is at least every selected final-year pay |
| Windowing.TrimmedMinFits | reclass.js:127-138 | the trimmed minimum is the largest multiple of 5000, at most 1000000, that is at most every selected first-year pay |
| Windowing.TrimmedEmpty | reclass.js:127-138 | trimming an empty selection gives max 0 and min 1000000 |
| ChartSeries.DecimalRoundTrip | reclass.js:188 | `String(n)` is a non-empty digit string without a leading zero that reads back as n |
| ChartSeries.LabelsAt | reclass.js:186-189 | there are n labels and label i is `String(i + 1)` |
| ChartSeries.LabelsReadBack | reclass.js:186-189 | label i reads back as the year of service i + 1 |
| ChartSeries.BuildLabels | reclass.js:186-189 | the label loop pushes exactly Labels(n) |
| ChartSeries.BuildDatasets | reclass.js:197-215 | the dataset loop pushes exactly DatasetsOf(selection), and runs to the end exactly when every selected job is in DATA |
| ChartSeries.DatasetsAt | reclass.js:198-215 | with every selected job in DATA there is one dataset per job, in selection order, labelled `district - position`, coloured `'#' + colour`, carrying the job's Pay |
| ChartSeries.DatasetsStop | reclass.js:207-212 | with a selected job missing from DATA the datasets end just before the first such job |
| Reclass.Page.constructor | reclass.js:57-120 | the initial globals (empty DATA and selection, cursor 0, window 20000..90000, 35 years) and the first chart preparation |
| Reclass.Page.Load | reclass.js:107-110 | DATA becomes the reshaped rows when reshaping succeeds and is unchanged when it throws; nothing else changes |
| Reclass.Page.ResetChart | reclass.js:163-180 | the window becomes exactly 20000 / 90000 / 35 whatever it was, so a second reset changes nothing; the chart is rebuilt only when `draw` is set |
| Reclass.Page.PrepareLineChartData | reclass.js:183-216 | CHART_DATA becomes the labels and the datasets of the selection, and the run completes exactly when every selected job is in DATA |
| Reclass.Page.NextColor | reclass.js:289-295 | the n-th colour step (from 0) yields COLORS[n mod 14] and leaves the cursor one past the wrapped slot |
| Reclass.Page.JobSelectParse | reclass.js:283-312 | the window is reset and the cursor advances even for a duplicate; the list becomes Added(old list, entry with the decoded district and COLORS[n mod 14]); the chart is rebuilt only when the entry was appended |
| Reclass.Page.RemoveBadge | reclass.js:342-357 | the list becomes Removed(old list, index) and the chart is rebuilt; nothing else changes |
| Reclass.Page.TrimClick | reclass.js:124-148 | when every selected job is in DATA the window becomes (TrimmedMax, TrimmedMin) and the chart is rebuilt; otherwise the window and chart are untouched |

## Left out

- DOM work is not modelled. This covers printMenu, printBadges, the trim and reset
  button `toggle`/`is(":visible")` juggling, and the `onclick`/`onchange` handler
  strings. The value of the menu that `jobSelectParse` reads with `$('#' + id).val()`
  is the `position` parameter.
- Chart.js is not modelled: the `Chart.Line` construction, `window.myLine.destroy`,
  `CANVAS_IS_EMPTY` and the font defaults. A redraw (`updateChart`) is modelled only
  by the data preparation it starts. The window and `TickStep` are the values its
  options read.
- The reset button handler is `resetChart()` with `draw` true, which is
  `Reclass.Page.ResetChart(true)`. It has no separate member.
- The data download (`$.ajax`) and `JSON.parse` are network I/O and a foreign parser.
  The rows are given as values, and `Reclass.Page.Load` models only the success
  callback.
- `toFixed(2)` formatting and JavaScript's string-to-number coercion inside
  `Math.max`/`Math.min` are not modelled. Pay figures are integer cents throughout.
  Trim's divisions and the tick-step division are exact rather than floating point.
- JavaScript object semantics are not modelled:
  - `in` on a plain object also sees inherited properties, so a district named
    `constructor` would misbehave.
  - The key order of `Object.keys` is not modelled.
  - `reFormatData` leaks its collector into the global `ret`.
- Input rows that lack the District, Position or Range field are not modelled.
- A district whose menu id still contains a space (a name with two spaces) does not
  select properly in jQuery. That is a DOM effect, so it is not modelled.
- `removeBadge` receives only indices of existing badges, so the model takes a
  natural-number index. Negative indices, which `slice` would treat differently, are
  not modelled.
- Reshaper.MissingYearFrom: a row's year values are numbers in the model. In the
  script a present column whose value is not a number (`null`, a string such as an
  empty cell, a boolean) also makes `toFixed` throw. The model cannot represent such
  a value, so `MissingYearFrom`, `ReadPay` and `ReshapedSucceeds` speak only of
  absent columns.
