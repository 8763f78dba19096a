# Data loading and monthly alignment, modelled in Dafny

`utils/data_loader.py` is the ingestion layer of a portfolio study on a
frontier-market stock exchange. `DataLoader` reads three spreadsheets:

- the daily closing prices of the listed equities;
- the consumer price index (CPI);
- an optional annual GDP sheet.

For each sheet it works out which column holds the dates (or years) and
which holds the values, from a fixed alias list per role with a positional
fallback. It then turns each sheet into a clean date-indexed frame or
series, coerced to numbers and sorted by date. The price and CPI loaders
also drop duplicate dates, keeping the first. The GDP loader drops rows
without a value and keys each year by 31 December; it does not
de-duplicate.

Three static helpers then build the monthly panel:

- `to_monthly_last` keeps the last price of each calendar month;
- `compute_returns` turns prices into simple returns;
- `align_monthly` copies the returns frame and attaches CPI inflation
  (`inflation_m`) and, when GDP is present, the forward-filled GDP (`gdp`),
  both aligned by date onto the returns rows.

## Modules

| file | module | contents |
|---|---|---|
| `wrappers.dfy` | `Wrappers` | `Option`, `Result` |
| `dates.dfy` | `Dates` | calendar dates, month numbers, month ends, year ends |
| `text.dfy` | `Text` | `str.strip()`, ASCII `str.lower()`, substring test |
| `tables.dfy` | `Tables` | sheet cells, raw tables, row records, frames, series |
| `columns.dfy` | `Columns`, `ColumnExamples` | the column-role resolver (a `for` loop with `break`) and a worked example |
| `ordering.dfy` | `Ordering` | `sort_index` and keep-first de-duplication (a loop over a `seen` set) |
| `loaders.dfy` | `Loaders` | `load_luse_prices`, `load_cpi`, `load_gdp_annual` |
| `frequency.dfy` | `Frequency` | `resample("M").last()` and `pct_change()` |
| `alignment.dfy` | `Alignment` | label alignment, `resample("M").ffill()`, the `Panel` class, `align_monthly` |

A sheet is a `Table` as `pd.read_excel` returns it: the headers plus rows of
cells. A cell is a number, a text, a blank or an already-parsed timestamp.
Frames are column-wise, `Frame(index, names, cols)`. A missing value is
`None`. Numbers are Dafny `real`s.

The loaders are methods. Each one calls `Resolve` once per role. The
resulting column is returned as a ghost out-parameter, so the contract can
name it. Each method's result is tied to a specification function
(`PriceFrame`, `CpiSeries`, `GdpSeries`), and lemmas prove what the source
promises about that function. `align_monthly` fills a `Panel` object in
place, one `Assign` per `out[name] = series`, and its method is tied to
the function `Aligned`.

Several functions are plain definitions. `Text.Contains` (Python's
`sub in s`), `Columns.Matches` (the alias rules) and `Tables.ToNumeric`
have no contract. `Text.Lower`, `Tables.DatesOf`, `Tables.ToFrame`, `Loaders.ColumnCells`,
`Loaders.Coerce`, `Loaders.CpiRecords`, `Loaders.ToSeries` and
`Loaders.Pairs` have contracts that restate their bodies. What they mean
is proved in the lemmas about them: `LowerFacts`, `ContainsIffOccurs`, `CpiValueRule`,
`GdpValueRule`, `MatchIgnoresCase`, `CoerceMissing`, `CoerceRoundTrip`,
`PriceFrameRow`, `CpiSeriesFacts` and `GdpSeriesEntry`.

## Model

| member | source | states |
|---|---|---|
| Dates.MonthEnd | utils/data_loader.py:117 | the month-end label of month k lies in month k and is its last day (leap years included) |
| Dates.YearEnd | utils/data_loader.py:110 | `f"{y}-12-31"` is the month end of December of year y |
| Dates.DaysInMonth | utils/data_loader.py:117 | months have 28 to 31 days, and 29 exactly for February of a leap year |
| Dates.AtOrBeforeLaterMonthEnd | utils/data_loader.py:117 | a date is at or before the end of its own month and of every later month |
| Dates.MonthEndMonotone | utils/data_loader.py:117 | month-end labels never go backwards as the month number grows |
| Text.LowerFacts | utils/data_loader.py:34 | after `lower()` no capital letter is left, every other character is unchanged, and each capital becomes a small letter |
| Text.ContainsIffOccurs | utils/data_loader.py:66 | `sub in s` holds exactly when `sub` occurs in `s` at some position |
| Text.ContainsOccurs | utils/data_loader.py:66 | when `sub in s` holds, `sub` occurs at some position of `s` |
| Text.OccursContains | utils/data_loader.py:66 | an occurrence of `sub` at any position makes `sub in s` hold |
| Text.TrimStart | utils/data_loader.py:34 | the stripped label is a suffix of the label, all dropped characters are whitespace, and it does not start with whitespace |
| Text.TrimEnd | utils/data_loader.py:34 | the stripped label is a prefix of the label, all dropped characters are whitespace, and it does not end with whitespace |
| Tables.Without | utils/data_loader.py:42 | `set_index(date_col)` removes exactly column k and keeps the order of the rest |
| Tables.WithoutKeepsDistinct | utils/data_loader.py:42 | the remaining ticker labels stay distinct |
| Tables.IndexOf | utils/data_loader.py:139 | `out[name]` addresses the first column with that label |
| Tables.FindFirst | utils/data_loader.py:33-36 | the scan result is the first position satisfying the test, or none when no position does |
| Columns.Fallback | utils/data_loader.py:37-39 | the positional default is always in range; the body picks n-1 for value roles and 0 otherwise |
| Columns.ScanHeaders | utils/data_loader.py:33-36 | the loop with `break` stops at the first accepted header, or reports that none is accepted |
| Columns.CpiValueRule | utils/data_loader.py:66 | a label is a CPI value column iff "cpi" or "index" occurs in its lower-cased form |
| Columns.GdpValueRule | utils/data_loader.py:97-98 | a label is a GDP value column iff "gdp" occurs in its lower-cased form together with "constant", "current" or "value" |
| Columns.Resolve | utils/data_loader.py:32-39 | on any non-empty header list: the first header the role's rule accepts, else the positional default; it never fails |
| Columns.ResolutionIsUnique | utils/data_loader.py:55-70 | the resolution of a role is deterministic: at most one column satisfies it |
| Columns.MatchIgnoresCase | utils/data_loader.py:66 | lower-casing a label never changes any role's verdict on it |
| Columns.ExactMatchIgnoresPadding | utils/data_loader.py:89 | for the date and year roles, only the stripped lower-cased label decides |
| Columns.NormalIdempotent | utils/data_loader.py:34 | stripping and lower-casing twice is the same as once |
| Columns.NormalOfLower | utils/data_loader.py:57 | normalising an already lower-cased label gives the label's own normal form |
| ColumnExamples.TradingDateHeader | utils/data_loader.py:32-39 | the headers `["Trading Date","ZCCM","CEC"]` take their dates from column 0 |
| ColumnExamples.YearMonthCpiHeader | utils/data_loader.py:55-61 | the CPI headers `["Year","Month","CPI"]` take their dates from column 1, "Month" |
| Ordering.Insert | utils/data_loader.py:42 | inserting one row adds exactly that row to the multiset |
| Ordering.SortByDate | utils/data_loader.py:42 | `sort_index` is a permutation of the rows |
| Ordering.SortByDateSorted | utils/data_loader.py:42 | `sort_index` leaves the dates non-decreasing |
| Ordering.InsertSorted | utils/data_loader.py:42 | inserting into sorted rows keeps them sorted |
| Ordering.SortedRowsAreInput | utils/data_loader.py:42 | a row is in the sorted frame exactly when it is in the input |
| Ordering.SortByDateKeepsDates | utils/data_loader.py:42 | `sort_index` keeps exactly the set of dates |
| Ordering.SameRowsSameDates | utils/data_loader.py:42 | two row sequences with the same rows carry the same dates |
| Ordering.KeepFirst | utils/data_loader.py:46 | every kept row is an input row |
| Ordering.KeepFirstKeepsDates | utils/data_loader.py:46 | de-duplication keeps exactly the set of dates present |
| Ordering.KeepFirstDistinct | utils/data_loader.py:46 | after de-duplication no date occurs twice |
| Ordering.KeepFirstKeepsFirst | utils/data_loader.py:46 | the first row of every date survives |
| Ordering.FirstOfDateSurvives | utils/data_loader.py:46 | the first row with a given date is kept by `keep="first"` |
| Ordering.KeptRowIsFirst | utils/data_loader.py:76 | the row kept for a date is that date's first row (keep="first") |
| Ordering.KeepFirstIncreasing | utils/data_loader.py:42-46 | sorting followed by de-duplication gives a strictly increasing index |
| Ordering.DropDuplicateDates | utils/data_loader.py:46 | the loop over a `seen` set computes exactly `KeepFirst` |
| Loaders.ParseDates | utils/data_loader.py:41 | `to_datetime` succeeds iff every cell is a timestamp, and then returns those timestamps; otherwise it fails at the first row that is not one |
| Loaders.CoerceMissing | utils/data_loader.py:45 | `to_numeric(errors="coerce")` never raises: a cell becomes missing iff it is not a number, and a number is kept |
| Loaders.CoerceRoundTrip | utils/data_loader.py:45 | coercing a column written from possibly missing numbers gives those values back |
| Loaders.PriceRecords | utils/data_loader.py:41-45 | one record per sheet row, holding every column except the date column |
| Loaders.SortedLoadFacts | utils/data_loader.py:42-46 | records keyed by a parsed date column, sorted and de-duplicated, have a strictly increasing index holding exactly the column's dates |
| Loaders.KeptAreInput | utils/data_loader.py:42-46 | every row left after sorting and de-duplication is an input record |
| Loaders.KeptDates | utils/data_loader.py:42-46 | a date survives sorting and de-duplication iff some cell of the date column holds it |
| Loaders.SheetDates | utils/data_loader.py:41-46 | rows keyed by the parsed date column of a sheet keep, after sorting and keep-first de-duplication, a strictly increasing index holding exactly that column's dates |
| Loaders.PriceFrameDates | utils/data_loader.py:41-46 | the price index is strictly increasing and holds exactly the dates of the sheet's date column |
| Loaders.PriceFrameRow | utils/data_loader.py:41-46 | each price row is the coerced ticker cells of a sheet row with that date |
| Loaders.PriceFrameFacts | utils/data_loader.py:41-46 | the price frame: ticker columns in sheet order, distinct; a strictly increasing index holding exactly the sheet's dates; each row the coerced cells of a sheet row with that date |
| Loaders.LoadPrices | utils/data_loader.py:27-48 | the date column is the resolved one; the load fails iff a date cell is not a date, reporting the first such row; otherwise it returns `PriceFrame` |
| Loaders.CpiSeriesFacts | utils/data_loader.py:72-77 | the CPI series is named "cpi", has a strictly increasing index holding exactly the sheet's dates, and each value is the coerced value of a sheet row with that date |
| Loaders.CpiSeriesEntry | utils/data_loader.py:72-77 | each CPI entry is the coerced value of a sheet row with that date |
| Loaders.LoadCpi | utils/data_loader.py:50-77 | both columns are the resolved ones; the load fails iff a date cell is not a date, reporting the first such row; otherwise it returns `CpiSeries` |
| Loaders.GdpRecords | utils/data_loader.py:107-110 | after `dropna`, each record holds one value |
| Loaders.GdpRecordsFromRows | utils/data_loader.py:108-110 | every GDP record is (31 December of the year, value) of a row that has a value |
| Loaders.GdpRecordsCoverRows | utils/data_loader.py:108-110 | every row with a value gives a GDP record |
| Loaders.GdpRecordsCount | utils/data_loader.py:107-110 | `dropna` keeps exactly as many records as there are rows with a value |
| Loaders.GdpRecordsLast | utils/data_loader.py:107-110 | `dropna` keeps file order: the records of a sheet are those of all but its last row, then the last row's record if it has a value |
| Loaders.GdpSeriesShape | utils/data_loader.py:104-112 | the GDP series is named "gdp", sorted ascending, has no missing value, and each entry comes from a row with a value, keyed by 31 December of its year |
| Loaders.GdpSeriesEntry | utils/data_loader.py:107-112 | each GDP entry is present and is the (31 December of the year, value) pair of a row with a value |
| Loaders.GdpSeriesCoversRows | utils/data_loader.py:108-112 | every row with a value is in the GDP series, keyed by 31 December of its year |
| Loaders.LoadGdp | utils/data_loader.py:79-112 | an absent file gives `None`; otherwise the columns are the resolved ones; the load fails iff a year is fractional or a row with a value has no year, reporting the first such row (fractional years are checked first); otherwise it returns `GdpSeries` |
| Frequency.MonthRange | utils/data_loader.py:117 | the bins are the month ends of months lo..hi, one per month |
| Frequency.MonthRangeIncreasing | utils/data_loader.py:117 | the bins are strictly increasing |
| Frequency.MonthlyIndexFacts | utils/data_loader.py:117 | the resampled index is strictly increasing, lists month ends of consecutive months, and holds every observed month exactly once |
| Frequency.MonthPosition | utils/data_loader.py:117 | an observation of a sorted index falls in the bin of its month, keyed by that month's end |
| Frequency.MonthlyIndexAt | utils/data_loader.py:117 | month k has a bin iff it lies between the first and the last observation's months, and that bin is keyed by the end of month k |
| Frequency.GridWithin | utils/data_loader.py:117 | every bin lies between the first observation and the end of the last observation's month |
| Frequency.LastPresentNone | utils/data_loader.py:117 | a month resamples to missing iff it has no present value |
| Frequency.LastPresentIsLast | utils/data_loader.py:117 | a month resamples to its last present value |
| Frequency.LastPresentWitness | utils/data_loader.py:117 | a month that resamples to a value takes it from a row of that month that is its last present value |
| Frequency.MonthlyLast | utils/data_loader.py:117 | one resampled value per bin |
| Frequency.ToMonthlyLast | utils/data_loader.py:115-117 | the resampled frame is well formed |
| Frequency.SeriesMonthlyLast | utils/data_loader.py:136 | the resampled CPI series is well formed |
| Frequency.MonthlyLastAt | utils/data_loader.py:115-117 | the row of an observed month is keyed by that month's end and holds the month's last present value; when the month's last observation is present, it holds that observation |
| Frequency.EmptyMonthIsMissing | utils/data_loader.py:117 | a month between observations that has none appears with every column missing |
| Frequency.PctChange | utils/data_loader.py:122 | `pct_change` keeps the length of the column |
| Frequency.ComputeReturns | utils/data_loader.py:120-122 | the returns frame is well formed |
| Frequency.ReturnsFacts | utils/data_loader.py:120-122 | returns keep the dates and columns; row 0 is missing; a later row with both prices present and a non-zero earlier price is (p[t]-p[t-1])/p[t-1] |
| Frequency.ReturnInverts | utils/data_loader.py:122 | a return recovers the later price from the earlier one: p[t] = p[t-1]·(1+r) |
| Frequency.ReturnsCompound | utils/data_loader.py:122 | with every price up to row t present and non-zero, the returns of rows 1..t are present, and price 0 compounded by them is price t |
| Frequency.ReturnStep | utils/data_loader.py:122 | the return of row t turns price t-1 into price t |
| Frequency.StepsCompound | utils/data_loader.py:122 | a price path whose every step is price times one plus the return equals the compounded product of the returns |
| Alignment.LookupFacts | utils/data_loader.py:139 | label alignment gives the value of the entry with the row's date, and missing when the series has no such date |
| Alignment.Reindex | utils/data_loader.py:139 | the aligned column has one value per row of the frame |
| Alignment.Inflation | utils/data_loader.py:136-137 | inflation is named "inflation_m" |
| Alignment.InflationMonth | utils/data_loader.py:136-137 | for month m of the CPI range, the entry is keyed by m's month end and is the return from month m-1's last reading to month m's; it is present exactly when both months have a reading and the earlier one is non-zero, and missing in the first month |
| Alignment.InflationExample | utils/data_loader.py:136-137 | CPI 100, 102, 105 in three consecutive months gives inflation [missing, 0.02, 3/102] |
| Alignment.ThreeMonthsResample | utils/data_loader.py:136 | one present reading in each of three consecutive months resamples to the same series |
| Alignment.FFillMonthly | utils/data_loader.py:143 | the forward-filled series keeps its name and is indexed by the month ends from the first entry's month to the last entry's |
| Alignment.FFillAtIs | utils/data_loader.py:143 | forward filling carries an entry's value from its date until the day before the next entry |
| Alignment.AfterMonthEnd | utils/data_loader.py:143 | a date after the end of month k lies in a later month |
| Alignment.FFillMonthlyAt | utils/data_loader.py:143 | month m of the filled series carries the value of the last entry in month m or earlier |
| Alignment.FillMonthBounds | utils/data_loader.py:143 | a month covered by an entry lies in the filled range, and its end lies between that entry and the next |
| Alignment.YearEndForwardFill | utils/data_loader.py:143 | for consecutive year-end entries Y1 < Y2, December Y1 through November Y2 carry Y1's value and December Y2 carries Y2's |
| Alignment.Assigned | utils/data_loader.py:139 | the frame after `out[name] = s` is well formed |
| Alignment.AssignedFacts | utils/data_loader.py:139-144 | assignment keeps the rows and every other column, keeps names distinct, appends the name iff it is new, and puts the aligned series under it |
| Alignment.IndexOfPrefix | utils/data_loader.py:139 | appending a column does not move an existing one |
| Alignment.Aligned | utils/data_loader.py:125-146 | the panel is well formed |
| Alignment.AlignedFacts | utils/data_loader.py:138-146 | the panel has the returns' rows; every other return column is unchanged; `inflation_m` is the aligned CPI inflation; `gdp` is present iff GDP was given (or the returns already had that column), and is then the aligned forward-filled GDP |
| Alignment.InflationAt | utils/data_loader.py:136-139 | `inflation_m` on a row is the CPI inflation at that row's date if there is one, else missing |
| Alignment.GdpAt | utils/data_loader.py:142-144 | a panel row at a month end between two year-end GDP entries gets the earlier year's figure through November and the later year's in December |
| Alignment.GdpNotExtrapolated | utils/data_loader.py:143-144 | a panel row before the first GDP entry, or after the end of the last entry's month, has no GDP figure |
| Alignment.PanelOfPrices | utils/data_loader.py:115-146 | a panel built from a sorted price frame has strictly increasing, consecutive month-end rows, and every return column starts missing |
| Alignment.Panel.Copy | utils/data_loader.py:138 | `rets_m.copy()` holds exactly the returns frame |
| Alignment.Panel.Assign | utils/data_loader.py:139-144 | `out[name] = s` changes the panel into `Assigned(old panel, s)` |
| Alignment.AlignMonthly | utils/data_loader.py:124-146 | fails iff GDP is given with a repeated date; otherwise returns `Aligned` |
| Alignment.Unique | utils/data_loader.py:143 | a sorted index has no repeated label iff it is strictly increasing |
| Alignment.AdjacentDistinctIncreasing | utils/data_loader.py:143 | a sorted index whose neighbours differ is strictly increasing |

## Left out

- Reading the files (`pd.read_excel` and the existence check, `utils/data_loader.py:29`, `:52`, `:81`, `:84`) is I/O. A loader receives the sheet as a `Table`, and GDP receives `Option<Table>` for "file absent".
- `pd.to_datetime` parsing of free-form date text is not modelled. A date cell is either an already-parsed timestamp or makes the load fail. pandas would also turn a blank into `NaT`; the model treats a blank date cell as a failure too.
- Text that `pd.to_numeric` would parse as a number is taken to be `Number` already. A `Text` cell is always non-numeric.
- Loaders.Coerce: a timestamp cell coerces to missing. In pandas, `to_numeric` turns a datetime64 column into int64 nanoseconds since the epoch. This matters for a price sheet with a second column the reader parsed entirely as dates (`utils/data_loader.py:45`): pandas gives nanosecond counts there, the model gives missing.
- Loaders.CpiRecords: when the date and the value role resolve to the same column, `utils/data_loader.py:72` has already replaced that column with parsed datetimes, so `:73` gives int64 nanoseconds since the epoch. The headers `["CPI Month", "CPI"]` are such a case: the date role falls back to column 0 and the value rule matches "cpi month" first. The model gives a missing value on every row instead.
- Text.Lower: lower-cases ASCII letters only, unlike Python's full Unicode `str.lower()`.
- Ordering.SortByDate: a stable insertion sort. pandas' default `sort_index` is not guaranteed stable, so which duplicate comes first (and so which one `keep="first"` keeps) may differ. The model only promises "sorted and a permutation" plus the tie-break on the sorted order.
- Loaders.ParseDates, Loaders.LoadPrices and Loaders.LoadCpi: a number in the date column fails with `BadDate`. `pd.to_datetime` at `utils/data_loader.py:41` and `:72` reads an integer or float as nanoseconds since 1970, so such a sheet loads in pandas (for example, a CPI sheet with headers `["Year", "Month", "CPI"]`, whose date column, "Month", holds the month numbers 1–12; `ColumnExamples.YearMonthCpiHeader`) but fails in the model.
- Loaders.LoadGdp: `Int64` overflow of huge years and the `Timestamp` year range (`to_datetime` rejects years outside 1677–2261) are not modelled.
- Frequency.PctChange: IEEE results are not modelled. A zero previous price yields missing here, where pandas gives `inf` or `NaN`. The pad fill method that older pandas applies to missing prices before the division is not modelled either; a missing neighbour gives missing.
- Frequency.ToMonthlyLast: the month grid is taken from the first and last index entries. The lemmas assume a sorted index, which is what the loaders produce. An unsorted daily index is not modelled.
- Alignment.AlignMonthly: a GDP index with a repeated date makes pandas raise, because it cannot reindex a non-unique index with a fill method. The model reports `DuplicateGdpDate` instead of giving the exception's text.
- Ordering.KeepFirst: a `Date` is a calendar day with no time of day. Two rows on the same day at different times share one date, and only the first survives. `index.duplicated` at `utils/data_loader.py:46` and `:76` compares full timestamps and keeps both.
- Alignment.Inflation and Alignment.FFillMonthly: `resample` (`utils/data_loader.py:136`, `:143`) sorts its input first. The model bins from the first to the last entry in the order given, so it is right only for a sorted index. `Alignment.AlignMonthly` requires a sorted GDP index. The loaders produce sorted CPI and GDP series (`Loaders.CpiSeriesFacts`, `Loaders.GdpSeriesShape`). Unsorted CPI or GDP input is not modelled.
- Alignment.Assigned: replaces only the first column with the series' name. pandas' `out[name] = s` replaces every column with that name. `Alignment.AlignMonthly` therefore requires distinct return column names, as the price loader produces (`Loaders.PriceFrameFacts`).
- `df.columns[0]` raises `IndexError` on an empty header list, so the loaders require at least one header. They also require distinct headers, as `read_excel` produces.
- Only the return columns start with a missing row (`Alignment.PanelOfPrices`). `inflation_m` on the first row is the CPI inflation at that date (`Alignment.InflationAt`). It is present only when CPI has a reading in that month and in the month before, and the earlier reading is non-zero (`Alignment.InflationMonth`).
- `utils/reporting.py` (file writes) and `utils/config.py` (paths and default parameters) are not part of this model.
- Concurrency and atomic writes are not modelled; nothing in the core is concurrent.
