# Fuel page data pipeline: a Dafny model

This project models the data logic of the fuel-management page of a Streamlit
dashboard (`page_fuel` in `app_fuel11.py`). The logic has five parts:

- **Load and prepare** (`Prepare`).
  - The column types `read_csv` infers for the dipping log: a column whose every cell reads as a number becomes a float column.
  - Header cleaning.
  - Coercion of the dipping log's numeric columns.
  - The three derived equipment columns `__fuel_issued__`, `__comment__` and `__fleet__`, each with its fallback.
  - The date sort of both logs.
- **Column resolver** (`Columns`). It picks the first header whose lower-cased text passes a substring test.
- **KPI block** (`Kpi`).
  - The latest balance.
  - The latest daily usage, with its fallback re-read.
  - The average and peak usage.
  - The forecast of days until the balance reaches 5000 litres.
  - The tank percentage against the fixed 60000-litre capacity.
- **Weekly consumption** (`Periods`). A month's rows are bucketed by week of the month and summed per week.
- **Rankings** (`Ranking`). These are the top five fleets by fuel issued, and the activity breakdown: the five largest activities plus one "Other Works" slice.

Tables are values in this model:

- A `Table` holds a header list and rows.
- Each row holds its parsed `Date` and one `Cell` per header.
- A `Cell` is `Text`, `Num` (an exact real) or `NaN`.
- A missing value is `Option<real>`.

The pandas operations the code uses are written out as small functions:

- `df[name]` is `Tables.Lookup`.
- `df[name] = col` is `Tables.SetColumn`.
- `pd.to_numeric(..., errors='coerce')` after comma removal and `strip()` is `Tables.ToNumeric`.
- `groupby(...).sum()` is `Groups.GroupSum`.
- `sort_values` is `Sorting.SortBy`.

`pd.to_numeric` and `float()` are replaced by a small decimal grammar: an optional `-`, digits, and an optional `.` followed by digits (`Numbers.ParseDecimal`).

Where a step changes a table in place, the model uses a method that reassigns the table:

- the loop over the numeric columns;
- the three column writes;
- the list appends of the activity breakdown.

Each such method is proved against the function that specifies it.

Modules, in dependency order:

| module | contents |
|---|---|
| `Wrappers` | `Option`, `Result` |
| `Strings` | `strip`, `replace(',', '')`, `lower`, `in`, first match |
| `Numbers` | the decimal grammar and comma/whitespace normalisation |
| `Columns` | the resolver tests and the first-match resolver |
| `Tables` | tables, cells, lookups, column writes, coercion |
| `Sorting` | insertion sort by key, date order |
| `Aggregate` | sums, mean, max and min over present values |
| `Groups` | group-by-sum |
| `Prepare` | `load_and_prepare` |
| `Kpi` | the KPI block and the tank gauge |
| `Periods` | week-of-month bucketing |
| `Ranking` | top consumers and the activity breakdown |

## Model

| member | source | states |
|---|---|---|
| Columns.Resolve | app_fuel11.py:457-459 | The chosen header passes the test and no earlier header does; None exactly when no header passes. |
| Columns.Matches | app_fuel11.py:457-513 | The substring tests of the resolver on the lower-cased header: fuel issued (457-458), comment or remark (467), fleet (475), diesel with issued or used (505-506, 512-513). |
| Columns.FuelTestIsContainsFuel | app_fuel11.py:457-458 | The fuel-issued test holds exactly when the lower-cased header contains "fuel", because "fuel" contains "l". |
| Strings.FirstIndex | app_fuel11.py:467-468 | The `[0]`-of-a-comprehension pattern: the first index satisfying the test, no earlier one does, None iff none does. |
| Strings.StripAscii | app_fuel11.py:509 | The re-read's blank skipping: no ASCII blank (space, tab, line feed, vertical tab, form feed, carriage return) at either end, empty iff the text is all such blanks, clean text unchanged. |
| Strings.StripAsciiPadded | app_fuel11.py:509 | ASCII blanks around a text never change what the number parser sees. |
| Strings.Strip | app_fuel11.py:433 | `strip()` leaves no whitespace at either end, is empty iff the text is all whitespace, and leaves clean text unchanged. |
| Strings.StripPadded | app_fuel11.py:433 | Surrounding whitespace never changes what `strip()` returns. |
| Strings.StripIdempotent | app_fuel11.py:433 | Stripping twice is stripping once. |
| Strings.RemoveCommas | app_fuel11.py:449 | `replace(',', '')` leaves no comma, and text without a comma is returned unchanged. |
| Strings.RemoveCommasContents | app_fuel11.py:449 | `replace(',', '')` keeps every other character as often as it occurred. |
| Strings.RemoveCommasAppend | app_fuel11.py:449 | Comma removal distributes over concatenation. |
| Strings.Contains | app_fuel11.py:457-458 | Python's `t in s`: true exactly when `t` occurs in `s` at some position. |
| Prepare.CleanColumns | app_fuel11.py:432-434 | One header per header, each the `strip()` of its original; the rows are untouched, so a well-formed table stays well formed. |
| Prepare.CleanColumnsIdempotent | app_fuel11.py:432-437 | Cleaning already-clean headers changes nothing. |
| Numbers.ParseDecimal | app_fuel11.py:449 | The stand-in for `to_numeric` on one string: a value is produced only from numeral-shaped text, and the empty string gives missing. |
| Numbers.ParseDecimalSound | app_fuel11.py:449 | Every string the parser accepts is a numeral of the grammar, and the value read is the one that numeral denotes. |
| Numbers.ParseDecimalExact | app_fuel11.py:449 | The parser reads `v` from `s` if and only if `s` is a numeral denoting `v`; every other string is NaN. |
| Numbers.NonNumeralsAreNaN | app_fuel11.py:449 | "1.2.3", "-", "." and "5." are not numerals of the grammar and give NaN (pandas itself reads "5." as 5.0). |
| Numbers.ParseNumeral | app_fuel11.py:449 | Every numeral of the grammar (optional sign, digits, optional fraction) parses back to the value it denotes. |
| Numbers.ParseNatText | app_fuel11.py:449 | The decimal text of a natural number parses back to that number. |
| Numbers.NormalisePadded | app_fuel11.py:449 | Whitespace around a cell does not change its normalised value. |
| Numbers.NormaliseIgnoresComma | app_fuel11.py:449 | Deleting one comma anywhere does not change the normalised value. |
| Numbers.NormaliseThousands | app_fuel11.py:449 | "1,234.50" normalises to the value of "1234.50". |
| Numbers.NormaliseText | app_fuel11.py:449 | After comma removal and `strip()`, a value needs numeral-shaped text, and all-whitespace text gives missing (NaN, not 0). |
| Numbers.NormaliseTextExact | app_fuel11.py:449 | A cell normalises to `v` if and only if, without its commas and surrounding whitespace, it is a numeral denoting `v`; every other cell becomes NaN. |
| Tables.Lookup | app_fuel11.py:461-480 | `df[name]` gives a column exactly when the header exists, with one cell per row; cell `i` is row `i`'s cell under the first header of that name. |
| Tables.InferTypes | app_fuel11.py:428 | `read_csv`'s inference keeps headers, rows and dates; in a column whose every cell reads as a number each cell becomes that number, and every other column is kept as read. |
| Tables.InferTypesInferred | app_fuel11.py:428 | After inference no column that reads as numbers holds text, and a column that did not read as numbers still does not. |
| Tables.SetColumn | app_fuel11.py:461-480 | `df[name] = col` keeps the table well formed, the rows and their dates; an existing header stays in place and a new one is appended. |
| Tables.Texts | app_fuel11.py:470-480 | `astype(str)` gives one text cell per cell: the text itself, or "nan" for a blank. |
| Tables.ToNumeric | app_fuel11.py:449 | Text becomes a number iff it normalises, else NaN; it never gives text; numbers and NaN are kept. |
| Tables.Coerce | app_fuel11.py:449 | One output cell per input cell, each the coercion of its own cell; no cell aborts the column. |
| Tables.LookupSetColumnOther | app_fuel11.py:461-480 | Writing one column leaves every other column as it was. |
| Tables.LookupSetColumnSame | app_fuel11.py:461-480 | After a write, the column holds exactly the written cells. |
| Prepare.CoerceColumns | app_fuel11.py:445-449 | The loop's effect keeps the headers, the row count and every row's date. |
| Prepare.CoerceColumnsLookup | app_fuel11.py:445-449 | After coercing a list of names, a listed column that exists is the coercion of the original, and every other column is unchanged. |
| Prepare.NormaliseNumericColumns | app_fuel11.py:445-449 | After the loop, the four listed columns that exist are coerced, every other column is unchanged, headers and row count are kept, and no listed column holds text. |
| Prepare.FuelIssuedCells | app_fuel11.py:457-464 | `__fuel_issued__` has one numeric-or-NaN cell per row: the coercion of the resolved column, or NaN throughout when there is none. |
| Prepare.CommentCells | app_fuel11.py:466-472 | `__comment__` has one text cell per row: the resolved column as text, or "Unknown" throughout. |
| Prepare.FleetCells | app_fuel11.py:474-480 | `__fleet__` is the resolved column as text, else `Equipment Name` as text; it fails with a missing `Equipment Name` exactly when neither exists. |
| Prepare.DeriveEquipment | app_fuel11.py:457-480 | On success the table stays well formed with the same number of rows and every row's date, the original headers stay in place as a prefix, and all three derived headers are present. |
| Prepare.AddDerivedColumns | app_fuel11.py:457-480 | The three column writes, done one after another, give the derivation's result. |
| Prepare.DeriveEquipmentColumns | app_fuel11.py:457-480 | Each derived column equals its rule applied to the original headers; every other column is unchanged; the only failure is a table with neither a fleet column nor `Equipment Name`. |
| Prepare.LoadAndPrepare | app_fuel11.py:427-486 | A missing file is an error. Otherwise both logs are date-sorted permutations of the prepared tables: the dipping log is type-inferred, cleaned and coerced, and keeps no text in a column that reads as numbers; the equipment log carries its derived columns. It fails exactly when the fleet fallback does. |
| Prepare.CleanTypesInferred | app_fuel11.py:432-436 | Renaming the headers keeps the inferred column types. |
| Prepare.CoerceColumnsTypes | app_fuel11.py:445-449 | The coercion loop keeps the inferred column types. |
| Prepare.SortedTypesInferred | app_fuel11.py:483 | Sorting by date keeps the inferred column types. |
| Sorting.SortBy | app_fuel11.py:483-484 | The output is ordered by the key and is a permutation of the input. |
| Sorting.SortByDate | app_fuel11.py:483-484 | Same headers, rows ordered by date, and a permutation of the original rows. |
| Sorting.SortedIsChronological | app_fuel11.py:483-484 | Rows sorted by the date key are in calendar order. |
| Prepare.SortedNumericReady | app_fuel11.py:483 | Sorting keeps the dipping log's numeric columns free of text. |
| Prepare.SortedEquipmentReady | app_fuel11.py:484 | Sorting keeps the derived columns typed as derived. |
| Kpi.LastValue | app_fuel11.py:500-502 | A last-row value is present iff the coerced column exists and its last cell is a number, and then it is that number. |
| Kpi.LatestUsage | app_fuel11.py:502-509 | The fixed usage column's last value when present. Otherwise the re-read of the first diesel column's last cell, or missing. |
| Kpi.Reread | app_fuel11.py:509 | A number reads back as itself and NaN as missing; text is parsed after comma removal, skipping only the ASCII blanks around it. |
| Kpi.RereadText | app_fuel11.py:509 | A text cell re-reads as `v` if and only if, without its commas and surrounding ASCII blanks, it is a numeral denoting `v`; otherwise it is missing. |
| Kpi.RereadPadded | app_fuel11.py:509 | ASCII blanks around a text cell do not change its re-read value. |
| Kpi.FallbackRereadsSameCell | app_fuel11.py:502-509 | When the first diesel column is the fixed column itself, the fallback recovers nothing. |
| Kpi.AsFloats | app_fuel11.py:515 | The cast succeeds iff every cell is castable, and then each value is its own cell's cast. Otherwise it fails at the first cell that is not castable. |
| Aggregate.SumPresent | app_fuel11.py:610 | `Series.sum()` skips missing values: a column with no value sums to 0. |
| Aggregate.Mean | app_fuel11.py:515 | The mean exists iff some value is present, and then times the count of present values it gives their sum. |
| Aggregate.Max | app_fuel11.py:520 | The max exists iff some value is present; it is one of them, and no present value exceeds it. |
| Aggregate.MeanWithinRange | app_fuel11.py:515-521 | With a value present, min ≤ mean ≤ max. |
| Kpi.FixedUsage | app_fuel11.py:517 | `get` of the fixed usage column: its values when it exists, otherwise an empty series. |
| Kpi.FixedPeak | app_fuel11.py:520-521 | Indexing the fixed usage column: `KeyError` when it is absent, otherwise the max of its values. |
| Kpi.AverageUsage | app_fuel11.py:512-517 | With a diesel column: its cast's mean, or the cast's error. Without one: missing, since the fixed column cannot exist then. |
| Kpi.PeakUsage | app_fuel11.py:519-521 | With a diesel column: the max of its values, or an error if it holds text. Without one: the `KeyError` of indexing the fixed name. |
| Kpi.Forecast | app_fuel11.py:523-528 | Defined iff the balance is known and the latest usage is present and positive. Then it is never negative; above the low mark, balance − days·latest = 5000; at or below it, 0. |
| Kpi.TankPercent | app_fuel11.py:776 | Capacity 0 gives 0. Otherwise the value is defined iff the balance is, and percent·capacity = balance·100. |
| Kpi.TankPercentInRange | app_fuel11.py:776 | A balance between empty and full reads between 0 and 100. |
| Kpi.Kpis | app_fuel11.py:495-528 | An empty log stops with an error. Otherwise the figures succeed iff the average and peak do, and each figure is the one its rule gives. |
| Kpi.PlainNumberKpis | app_fuel11.py:512-521 | When the first diesel column holds plain numbers, which `read_csv` reads as floats, the average, the peak and the whole KPI block succeed. |
| Kpi.ThreeDayUsage | app_fuel11.py:515-520 | Usages 1500, 2000 and 2000 give the average 5500/3 (about 1833.33) and the peak 2000. |
| Kpi.HalfDayForecast | app_fuel11.py:523-528 | A balance of 6000 at 2000 a day gives half a day until the low mark. |
| Kpi.TenPercentTank | app_fuel11.py:776 | A balance of 6000 reads 10% of the 60000-litre tank. |
| Kpi.KpisWithoutDieselColumn | app_fuel11.py:520-521 | A log without a diesel column fails where the peak indexes the fixed column. |
| Kpi.AverageWithinPeak | app_fuel11.py:512-521 | When the KPIs exist and an average is present, a peak is present and min ≤ average ≤ peak over the same column. |
| Kpi.NoUsageNoFigures | app_fuel11.py:502-528 | A usage column that is all NaN gives no average, peak, latest usage or forecast. |
| Periods.WeekOfMonth | app_fuel11.py:607 | For a day ≥ 1, week w satisfies 7(w−1) < day ≤ 7w. |
| Periods.WeekOfMonthRange | app_fuel11.py:607 | Days 1-31 fall in weeks 1-5: days 1-7 give 1, 8-14 give 2, 29-31 give 5. |
| Periods.MonthRows | app_fuel11.py:603 | A row is kept exactly when it is a row of the selected month. |
| Periods.MonthRowsCount | app_fuel11.py:603 | No row of the month is lost or duplicated: each is kept as often as it occurs, and rows of other months are dropped. |
| Periods.WeeklyUsage | app_fuel11.py:603-613 | No bars without a diesel column; otherwise it fails iff the month's usage holds text, and there are no bars iff the month has no rows. |
| Periods.PlainNumberWeeks | app_fuel11.py:603-613 | When the first diesel column holds plain numbers, every month's weekly bars succeed. |
| Periods.WeeklyUsageSpec | app_fuel11.py:603-613 | With a diesel column free of text, the weekly bars are in ascending week order, each week is in 1-5, and they add up to the month's total usage. |
| Periods.WeeklyBarIsItsWeek | app_fuel11.py:607-610 | Each weekly bar is the sum of the usage in its own week's rows. |
| Groups.AddTo | app_fuel11.py:713 | Adding one row's value updates only its key's group (or opens one), keeps keys distinct, and raises the total by the value. |
| Groups.GroupSum | app_fuel11.py:713 | One group per distinct key, every row's key has a group, and every group's key comes from a row. |
| Groups.GroupSumTotal | app_fuel11.py:713 | The group totals add up to the sum of all present values. |
| Groups.GroupSumTotals | app_fuel11.py:713 | Each group's total is the sum of the values present in its key's rows. |
| Groups.TotalPermutation | app_fuel11.py:713 | Reordering groups keeps their total. |
| Ranking.Ranked | app_fuel11.py:713 | The groups in non-increasing order of total, with distinct keys; they are a permutation of the groups, and each total is its key's sum. |
| Ranking.Fleets | app_fuel11.py:713 | The fleets' fuel totals in non-increasing order, each total the fuel issued to that fleet. |
| Ranking.TopConsumers | app_fuel11.py:713 | At most five fleets, the leading ones of the ranking, in non-increasing order. No fleet left out has more; each total is its fleet's fuel. |
| Ranking.Activity | app_fuel11.py:724 | The activities' fuel totals in non-increasing order, adding up to all the fuel issued. |
| Ranking.TopPlusOther | app_fuel11.py:726-734 | The first five groups' keys and totals, then `other` with the rest's total iff that rest is positive. The total of all groups when the rest is not negative. |
| Ranking.ActivityBreakdown | app_fuel11.py:724-734 | The five largest activity totals in descending order, then "Other Works" iff the remainder is positive. When the remainder is not negative, the slices add up to all the fuel issued. |

## Left out

- Streamlit and Plotly rendering are not modelled: CSS, KPI cards, charts, selectboxes and table styling. This is layout with no invariants.
- The demo data generators and the other pages are not modelled. They use random numbers and static layout.
- `pd.read_csv`'s parsing is not modelled: each row arrives with its date parsed and every other cell as text or NaN (`Prepare.Raw`). Its dtype inference is modelled for the dipping log only (`Tables.InferTypes`): a column becomes numeric when every cell, without its surrounding ASCII blanks, is a numeral of the grammar. Integer columns are not told apart from float columns.
- The `@st.cache_data` cache is not modelled.
- The `FileNotFoundError`/`st.stop` flow is modelled only as the `MissingInputFile` and `EmptyDataset` results.
- `isocalendar().week` and the never-used `unique_weeks` are not modelled. `month_name()` is replaced by the month number, which selects the same rows, since the name ignores the year.
- The daily trend chart, the recent-records table and the personnel chart are not modelled. The unguarded `diesel_col_candidates[0]` at line 700 belongs to that table.
- Floating point is not modelled: values are exact reals, NaN is `None`, and `:,.0f` formatting is left out.
- Numbers.ParseDecimal: `pd.to_numeric` and `float()` also accept exponents, a leading `+`, `inf`, `nan`, and a bare trailing or leading point ("5.", ".5"); `float()` also accepts underscores between digits. The grammar accepts only an optional `-`, digits, and an optional `.` with digits. Blanks around the number are handled outside the grammar: the ASCII ones `to_numeric`'s parser skips by `Strings.StripAscii`, and Python's whitespace that `strip()` and `float()` remove by `Strings.Strip`.
- Numbers.NonNumeralsAreNaN: "5." is NaN only under the grammar; `to_numeric` and `float()` read it as 5.0, and ".5" as 0.5, so such cells are missing in the model where pandas has a number.
- Strings.Lower: folds ASCII letters only; `str.lower()` also folds other scripts.
- Kpi.PeakUsage: a diesel column that `read_csv` keeps as strings (some cell is not a plain number, such as "1,500") would get a lexicographic maximum in pandas. The model returns `TextInNumericColumn` instead. Plain-number columns succeed (`Kpi.PlainNumberKpis`).
- Periods.WeeklyUsage: pandas would concatenate the strings of a column kept as strings. The model returns `TextInNumericColumn` instead. Plain-number columns succeed (`Periods.PlainNumberWeeks`).
- Ranking.Ranked: no order is promised among equal totals, because the library sort is not stable. The model breaks ties by first appearance; none of its contracts depend on that.
- Groups.GroupSum: groups come in first-appearance order, not in pandas' sorted-key order. Only the week chart shows key order, and `Periods.SortedWeekGroups` sorts by week there.
- Ranking.ActivityBreakdown: a real activity named "Other Works" would share the label of the remainder slice; it is not treated specially.
- Tables.Lookup: duplicate header names resolve to the first one; pandas would return several columns.
- `astype(str)` of a number is not modelled. On the dipping log it feeds `to_numeric`, which reads a number's text back as the same number, so `Tables.ToNumeric` keeps numbers as they are. The equipment log is not type-inferred: its columns stay as read (`Prepare.RawExcept`), so `__comment__` and `__fleet__` copy a numeric column's text as written, where pandas would print the float (a fleet number 12 with a blank elsewhere in the column becomes "12.0").

In these places the code behaves in a way a reader might not expect, and the model follows the code:

- A zero tank capacity gives 0% instead of an unavailable reading (line 776).
- Without a diesel column the peak indexes the fixed name and fails (lines 520-521).
- The forecast is also missing when the balance is missing, since `max(nan, 0)` is nan (line 526).
