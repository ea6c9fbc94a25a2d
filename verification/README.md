# Prefecture population chart: a verified model

A single-page application that lets a user tick Japanese prefectures in a
checklist. For each ticked prefecture it fetches the total-population series and
draws all selected series as one line chart. Two pieces of `src/App.js` carry
logic, and this project models both in Dafny:

- **The series pivot** (module `Aggregator`, `aggregator.dfy`). `LineChartPopulationItems` folds `populationItems`
  into an array indexed by year. For every point it creates the row `{year}`
  when the slot is a hole, then sets the column named after the prefecture to
  the point's value. `filter(Boolean)` then drops the holes. The array is
  modelled as `seq<Option<Row>>` (`None` is a hole). A write past the end grows
  the array and leaves holes in between. The specification function is
  `ChartRows(items) = Compact(Replay(Traversal(items)))`:
  - `Traversal` lists the writes in visiting order;
  - `Replay` folds them into the array;
  - `Compact` is `filter(Boolean)`.

  The imperative `AggregateRows` (a reduce loop over items, an inner loop over
  points, then a loop that drops the holes) is proved equal to it.
- **The population list and the toggle state** (modules `PopulationList`,
  `population.dfy`, and `App`, `app.dfy`). The label lookup, append and delete
  are pure functions. The component's hook state (`checkedNames`,
  `checkedValues`, `isChecked`, `populationItems`) is the class
  `App.AppState`. Its methods are the checkbox handler, the fetch-and-append,
  the delete and the two effects that follow a toggle.

Types shared by both are in `types.dfy` (module `Types`): `Point`, `Item`
(with an optional `prefCode`, the field the delete filter reads), `Row` (a year
and a map of columns) and `Option`.

Behaviours of the code that a reader might not expect:

- Rows come out in ascending year order, because years are array indices. They
  do not come out in the order in which each year first occurs.
- Unchecking does not remove anything. The delete filter compares each item's
  `prefCode` with the code, but appended items have no `prefCode`, so every
  item is kept (see Findings).
- Nothing keeps the list to one entry per prefecture. Checking the same
  prefecture twice appends twice (`CheckTwiceTwoEntries`), and checking then
  unchecking does not restore the list (`UncheckAfterCheckKeepsEntry`).
- The series is selected by the exact label `総人口` ("total population").

The aggregator is a function of the list alone, so computing it twice on the
same list gives the same rows. In Dafny this holds by construction.

## Model

| member | source | states |
|---|---|---|
| Aggregator.StoreAt | src/App.js:67-68 | Assigning index `y` makes it hold the row and leaves every other index as it was; a write past the end leaves holes in between |
| Aggregator.WriteAt | src/App.js:67-70 | Placing one point changes only the slot of its year: a hole becomes the row `{year}` with the point's column, an existing row gets that column set |
| Aggregator.ReplaySnoc | src/App.js:65-72 | Replaying one more write is that write applied to the array built so far |
| Aggregator.ReplayRow | src/App.js:65-72 | After the writes, index `y` holds a row iff some write hit year `y`, and that row's `year` is `y` |
| Aggregator.ReplayColumn | src/App.js:67-70 | The row at year `y` has column `n` iff some write set `n` in year `y` |
| Aggregator.ReplayValue | src/App.js:65-70 | Each column of the row at year `y` holds the value of the last write to that column in that year |
| Aggregator.ReplayKeyed | src/App.js:67-70 | Every row in the accumulator sits at the index equal to its own `year` |
| Aggregator.CompactRows | src/App.js:102 | Dropping the holes of a keyed array keeps every row, in strictly ascending year order, and each kept row is the one stored at its year |
| Aggregator.CompactHoles | src/App.js:102 | Trailing holes contribute no rows |
| Aggregator.TraversalPrefix | src/App.js:65-66 | Item `i`'s writes follow all writes of the items before it, in the order of its points |
| Aggregator.TraversalSources | src/App.js:65-66 | Every write of the traversal comes from some item's point |
| Aggregator.TraversalPosition | src/App.js:65-66 | Item `i`'s point `j` is written at position `|Traversal(items[..i])| + j` |
| Aggregator.TraversalYears | src/App.js:65-70 | A year (a column `n`) is written iff some item (some item named `n`) has a point in that year |
| Aggregator.ChartRowsAscending | src/App.js:64-74 | Chart rows are in strictly ascending year order, so no year has two rows |
| Aggregator.ChartRowsYears | src/App.js:64-74 | There is a row for year `y` iff some item has a point in year `y` |
| Aggregator.ChartRowsColumns | src/App.js:67-70 | A row has column `n` iff some item named `n` has a point in that row's year |
| Aggregator.ChartRowsValues | src/App.js:65-70 | Column `n` of a row holds the value of the last point of that year among items named `n`: items in list order, points in sequence order |
| Aggregator.AscendingReplay | src/App.js:65-72 | When the writes visit strictly ascending years, the chart has one single-column row per write, in the same order |
| Aggregator.AscendingStep | src/App.js:65-72 | A write to a year past every earlier one appends its single-column row to the chart |
| Aggregator.AscendingLength | src/App.js:67-68 | With strictly ascending years the array ends at the last year written |
| Aggregator.WritePastEnd | src/App.js:67-70 | A write past the end pads with holes and opens a row holding only its own column |
| Aggregator.CompactPastEnd | src/App.js:102 | Holes followed by one row past the end add just that row |
| Aggregator.SingleSeriesRows | src/App.js:64-74 | One item with strictly ascending years gives one row per point, holding only that item's column |
| Aggregator.OneSeriesExample | src/App.js:64-74 | Tokyo with 1980 and 1990 gives the rows `{1980, Tokyo: 100}` and `{1990, Tokyo: 110}` |
| Aggregator.TwoPointRows | src/App.js:64-74 | Two one-point prefectures, the first earlier, give two rows, each with only its own column |
| Aggregator.TwoSeriesExample | src/App.js:64-74 | Tokyo in 1980 and Osaka in 1990 give two rows, each with only its own column |
| Aggregator.PlacePoint | src/App.js:66-71 | One step of the inner loop equals the write of that point: create the row on a hole, then set the column |
| Aggregator.PlaceItem | src/App.js:65-72 | The inner loop over one item's points produces the array that replaying those writes after the earlier ones gives |
| Aggregator.ReduceItems | src/App.js:64-74 | The reduce loop produces the array that replaying the whole traversal gives |
| Aggregator.DropHoles | src/App.js:102 | The filter loop produces exactly the rows of the array in index order |
| Aggregator.AggregateRows | src/App.js:64-74 | The reduce followed by the filter at line 102 yields `ChartRows(items)`, so all the properties above hold of it; no items give no rows. Requires no prefecture named `"year"` or `"__proto__"` and every year a valid array index |
| PopulationList.SelectTotal | src/App.js:41-43 | There is a series iff some entry is labelled `総人口`, and it is the data of the first such entry |
| PopulationList.AppendKeepsPrior | src/App.js:44-47 | Append keeps every earlier item in place and adds the new item last, with the given name and series and no code |
| PopulationList.AppendCounts | src/App.js:44-47 | Append raises the count of entries with the appended name by one and leaves other counts unchanged: there is no de-duplication |
| PopulationList.CheckTwiceTwoEntries | src/App.js:44-47 | Appending the same prefecture twice yields two more entries for it |
| PopulationList.Deleted | src/App.js:53-59 | Delete keeps exactly the items whose `prefCode` is not the given code, and never lengthens the list |
| PopulationList.DeletedConcat | src/App.js:55-58 | Delete preserves order: deleting from `a + b` gives the deletion from `a` followed by the deletion from `b` |
| PopulationList.DeletedUnchanged | src/App.js:55-58 | Delete returns the list unchanged iff no item carries the given code |
| PopulationList.DeleteNeverRemoves | src/App.js:46-58 | On a list built by append, delete returns the list unchanged |
| PopulationList.UncheckAfterCheckKeepsEntry | src/App.js:44-59 | Deleting right after appending leaves the appended entry, so the list differs from the one before the append |
| PopulationList.RemovalExampleAsWritten | src/App.js:44-59 | Unchecking Tokyo from Tokyo and Osaka leaves both chart rows |
| PopulationList.UncheckUndoesCheck | src/App.js:44-59 | With the code recorded on append, deleting by that code right after the append restores the list |
| PopulationList.RemovalExampleCorrected | src/App.js:44-59 | With codes recorded, unchecking Tokyo leaves only Osaka's row |
| App.LineKeys | src/App.js:90-96 | One line per list item, in list order, whose `dataKey` is that item's `prefName` |
| App.ColumnsHaveLines | src/App.js:90-102 | Every column of every chart row is the `dataKey` of some line |
| App.LinesHaveColumns | src/App.js:90-102 | The line of an item with at least one point has data in some chart row |
| App.AppState.constructor | src/App.js:16-20 | Starts with empty code and name, unchecked, and an empty list |
| App.AppState.OnChange | src/App.js:117-121 | Records the box's `name` as the code, its `value` as the name and its checked state; the list is untouched |
| App.AppState.GetPopulationsData | src/App.js:33-48 | With a `総人口` series, appends it under the given name. Without one the operation fails and the list is unchanged |
| App.AppState.DeletePopulationsData | src/App.js:53-62 | Sets the list to its deletion by the code. On the list as built, the list is unchanged |
| App.AppState.RunEffects | src/App.js:80-88 | Checked: fetch-and-append for the recorded code and name. Unchecked: delete by the recorded code, with the list unchanged |
| App.AppState.Toggle | src/App.js:80-121 | One toggle run to completion. It records the event, then appends the series when checked and the response has one; otherwise the list stays as it was |

## Left out

- Network I/O. The prefecture catalog fetch (src/App.js:21-31, 76-78), the population fetch URL, the headers and the API key (src/App.js:35-39) are not modelled. The decoded population response is a parameter (`response`) of `GetPopulationsData`, `RunEffects` and `Toggle`, and `prefCode` only names the request. A transport failure is not modelled.
- Response shape errors other than a missing `総人口` label (for example an absent `result.data`). The model only has the label lookup.
- React scheduling. Hook setters, effect dependency re-runs, memo identity and the asynchronous order of concurrent responses are not modelled. Each toggle runs as one atomic step: the handler, then the effects, with the response already present. The effects' run on mount is not modelled; with the empty initial list it deletes nothing.
- Rendering. The JSX, recharts, line colours, React `key`s and `console.log` are left out. Only the lines' `dataKey`s (`LineKeys`) and the chart data (`ChartRows`) are modelled.
- JavaScript numbers. Values are `int` and years are `nat`. The model treats every year as an array index. In the source, a negative or fractional year, or one at or above 4294967295 (2^32 - 1, past the largest array index), becomes an ordinary property that `filter(Boolean)` at src/App.js:102 skips, so that year gets no chart row. `AggregateRows` requires every year to be below that bound (`IndexYears`).
- ChartRowsYears, ChartRowsColumns, ChartRowsValues: describe the source's chart only when every year is below 4294967295. Above that bound the model still gives the year a row, while the source gives it none.
- AggregateRows: requires that no prefecture is named `"year"` or `"__proto__"` (`PlainColumnNames`). In the source a `"year"` column would overwrite the row's `year` field, and assigning to `"__proto__"` at src/App.js:70 goes to the prototype setter, which ignores a number and creates no column. The model gives both names an ordinary column, so it agrees with the source only under this condition.
- ChartRowsColumns, ChartRowsValues, LinesHaveColumns: describe the source's chart only for prefecture names other than `"year"` and `"__proto__"`, for the reason given in the line above. It also requires every year to be below 4294967295 (`IndexYears`), for the reason given in the line above.

## Findings

| source | as written | input that shows it | evidently intended | confidence | as-written member | corrected member |
|---|---|---|---|---|---|---|
| src/App.js:44-59 | Appended items carry no `prefCode`, so the delete filter keeps every item and unchecking removes nothing | Check Tokyo (code 13), check Osaka, uncheck Tokyo: both entries and both chart rows stay | Append records the prefecture code, so that unchecking removes that prefecture's entry | not executed | PopulationList.UncheckAfterCheckKeepsEntry | PopulationList.UncheckUndoesCheck |

`App.AppState` keeps the behaviour as written. The corrected append is
`PopulationList.AppendedWithCode`. Its round trip (`UncheckUndoesCheck`) and the
chart after a removal (`RemovalExampleCorrected`) are proved beside it.
