/** DataLoader's three source loaders: the equity price sheet, the CPI sheet
    and the optional annual GDP sheet, each turned into a clean date-indexed
    frame or series. Reading the file is not modelled: a loader receives the
    sheet as read. */
module Loaders {
  import opened Wrappers
  import opened Dates
  import opened Tables
  import opened Columns
  import opened Ordering

  /** What the loaders raise. Malformed numbers never do: they become missing. */
  datatype LoadError =
    | BadDate(row: nat)          // pd.to_datetime cannot read the date cell of this row
    | NonIntegerYear(row: nat)   // astype("Int64") refuses a fractional year
    | MissingYear(row: nat)      // astype(int) meets a missing year on a row that has a value

  /** Column `k` of the sheet. */
  function ColumnCells(t: Table, k: nat): (col: seq<Cell>)
    requires IsTable(t) && k < |t.headers|
    ensures |col| == |t.rows| && forall i :: 0 <= i < |t.rows| ==> col[i] == t.rows[i][k]
  {
    seq(|t.rows|, i requires 0 <= i < |t.rows| => t.rows[i][k])
  }

  predicate NotDate(c: Cell) {
    !c.When?
  }

  /** pd.to_datetime on a column: every cell must be a timestamp; the first one
      that is not makes it raise. */
  function ParseDates(col: seq<Cell>): (r: Result<seq<Date>, nat>)
    ensures r.Success? <==> forall i :: 0 <= i < |col| ==> col[i].When?
    ensures r.Success? ==> |r.value| == |col| && forall i :: 0 <= i < |col| ==> col[i] == When(r.value[i])
    ensures r.Failure? ==> r.error < |col| && !col[r.error].When?
                           && forall i :: 0 <= i < r.error ==> col[i].When?
  {
    match FindFirst(col, NotDate)
    case Some(i) => Failure(i)
    case None => Success(seq(|col|, i requires 0 <= i < |col| => col[i].d))
  }

  /** to_numeric(errors="coerce") on every cell of a row. */
  function Coerce(cells: seq<Cell>): (r: seq<Option<real>>)
    ensures |r| == |cells| && forall j :: 0 <= j < |cells| ==> r[j] == ToNumeric(cells[j])
  {
    seq(|cells|, j requires 0 <= j < |cells| => ToNumeric(cells[j]))
  }

  /** `to_numeric(errors="coerce")` never fails: a cell becomes missing
      exactly when it is not a number, and a number is kept as it is. */
  lemma CoerceMissing(cells: seq<Cell>, j: nat)
    requires j < |cells|
    ensures Coerce(cells)[j].None? <==> !cells[j].Number?
    ensures cells[j].Number? ==> Coerce(cells)[j] == Some(cells[j].x)
  {
  }

  /** The cells a column of possibly missing numbers is written as: a number,
      or a blank for a missing value. */
  function AsCells(vals: seq<Option<real>>): (cells: seq<Cell>)
    ensures |cells| == |vals|
  {
    seq(|vals|, j requires 0 <= j < |vals| => if vals[j].Some? then Number(vals[j].value) else Blank)
  }

  /** Coercion reads back exactly the values such a column was written from. */
  lemma CoerceRoundTrip(vals: seq<Option<real>>)
    ensures Coerce(AsCells(vals)) == vals
  {
    var r := Coerce(AsCells(vals));
    forall j | 0 <= j < |vals| ensures r[j] == vals[j] {
      assert AsCells(vals)[j] == if vals[j].Some? then Number(vals[j].value) else Blank;
    }
  }

  /** The price sheet after set_index(date column) and coercion, in file order. */
  function PriceRecords(t: Table, k: nat, dates: seq<Date>): (rows: seq<Row>)
    requires IsTable(t) && k < |t.headers| && |dates| == |t.rows|
    ensures |rows| == |t.rows|
    ensures forall i :: 0 <= i < |rows| ==> |rows[i].cells| == |t.headers| - 1
  {
    seq(|t.rows|, i requires 0 <= i < |t.rows| => Row(dates[i], Coerce(Without(t.rows[i], k))))
  }

  /** What load_luse_prices returns once the date column `k` parsed to `dates`:
      the records sorted by date, duplicate dates dropped keeping the first. */
  function PriceFrame(t: Table, k: nat, dates: seq<Date>): (f: Frame)
    requires IsTable(t) && k < |t.headers| && |dates| == |t.rows|
  {
    var kept := KeepFirst(SortByDate(PriceRecords(t, k, dates)));
    assert forall x :: x in kept ==> |x.cells| == |t.headers| - 1 by {
      SortedRowsAreInput(PriceRecords(t, k, dates));
    }
    ToFrame(Without(t.headers, k), kept)
  }

  /** Sorting records keyed by a parsed date column and keeping the first row
      of each date leaves strictly increasing dates, exactly the dates of the
      column. */
  lemma {:induction false} SortedLoadFacts(rows: seq<Row>, col: seq<Cell>)
    requires |rows| == |col| && forall i :: 0 <= i < |rows| ==> col[i] == When(rows[i].date)
    ensures var kept := KeepFirst(SortByDate(rows));
      && StrictlyIncreasing(DatesOf(kept))
      && (forall d :: d in DatesOf(kept) <==> exists i :: 0 <= i < |col| && col[i] == When(d))
  {
    var sorted := SortByDate(rows);
    var kept := KeepFirst(sorted);
    SortByDateSorted(rows);
    KeepFirstIncreasing(sorted);
    KeptDates(rows, col);
  }

  /** Every row kept after sorting and de-duplication is an input row. */
  lemma {:induction false} KeptAreInput(rows: seq<Row>)
    ensures forall x :: x in KeepFirst(SortByDate(rows)) ==> x in rows
  {
    SortedRowsAreInput(rows);
  }

  lemma {:induction false} KeptDates(rows: seq<Row>, col: seq<Cell>)
    requires |rows| == |col| && forall i :: 0 <= i < |rows| ==> col[i] == When(rows[i].date)
    ensures forall d :: d in DatesOf(KeepFirst(SortByDate(rows))) <==> exists i :: 0 <= i < |col| && col[i] == When(d)
  {
    KeepFirstKeepsDates(SortByDate(rows));
    SortByDateKeepsDates(rows);
    forall d ensures d in DatesOf(rows) <==> exists i :: 0 <= i < |col| && col[i] == When(d) {
      if d in DatesOf(rows) {
        var i :| 0 <= i < |rows| && DatesOf(rows)[i] == d;
        assert col[i] == When(d);
      }
    }
  }

  /** The loaded price frame: the ticker columns in sheet order, a strictly
      increasing date index holding every date of the sheet, and each row the
      coerced cells of a sheet row with that date. */
  lemma PriceFrameFacts(t: Table, k: nat, dates: seq<Date>)
    requires IsTable(t) && k < |t.headers|
    requires ParseDates(ColumnCells(t, k)) == Success(dates)
    ensures var f := PriceFrame(t, k, dates);
      && IsFrame(f)
      && f.names == Without(t.headers, k) && Distinct(f.names)
      && StrictlyIncreasing(f.index)
      && (forall d :: d in f.index <==> exists i :: 0 <= i < |t.rows| && t.rows[i][k] == When(d))
      && forall n :: 0 <= n < |f.index| ==>
           exists i :: 0 <= i < |t.rows| && t.rows[i][k] == When(f.index[n])
                       && forall c :: 0 <= c < |f.names| ==> f.cols[c][n] == ToNumeric(Without(t.rows[i], k)[c])
  {
    PriceFrameDates(t, k, dates);
    WithoutKeepsDistinct(t.headers, k);
    var f := PriceFrame(t, k, dates);
    forall n | 0 <= n < |f.index|
      ensures exists i :: 0 <= i < |t.rows| && t.rows[i][k] == When(f.index[n])
                          && forall c :: 0 <= c < |f.names| ==> f.cols[c][n] == ToNumeric(Without(t.rows[i], k)[c])
    {
      PriceFrameRow(t, k, dates, n);
    }
  }

  /** The price index is strictly increasing and holds exactly the dates of
      the sheet's date column. */
  lemma PriceFrameDates(t: Table, k: nat, dates: seq<Date>)
    requires IsTable(t) && k < |t.headers|
    requires ParseDates(ColumnCells(t, k)) == Success(dates)
    ensures var f := PriceFrame(t, k, dates);
      && StrictlyIncreasing(f.index)
      && forall d :: d in f.index <==> exists i :: 0 <= i < |t.rows| && t.rows[i][k] == When(d)
  {
    var records := PriceRecords(t, k, dates);
    SheetDates(t, k, dates, records);
    assert PriceFrame(t, k, dates).index == DatesOf(KeepFirst(SortByDate(records)));
  }

  /** Records keyed by the parsed dates of column k keep, after sorting and
      de-duplication, a strictly increasing index holding exactly the dates
      of that column. */
  lemma SheetDates(t: Table, k: nat, dates: seq<Date>, rows: seq<Row>)
    requires IsTable(t) && k < |t.headers|
    requires ParseDates(ColumnCells(t, k)) == Success(dates)
    requires DatesOf(rows) == dates
    ensures var kept := KeepFirst(SortByDate(rows));
      && StrictlyIncreasing(DatesOf(kept))
      && forall d :: d in DatesOf(kept) <==> exists i :: 0 <= i < |t.rows| && t.rows[i][k] == When(d)
  {
    var col := ColumnCells(t, k);
    SortedLoadFacts(rows, col);
    assert forall i :: 0 <= i < |t.rows| ==> col[i] == t.rows[i][k];
  }

  /** Row n of the price frame is the coerced ticker cells of a sheet row with
      its date. */
  lemma PriceFrameRow(t: Table, k: nat, dates: seq<Date>, n: nat)
    requires IsTable(t) && k < |t.headers|
    requires ParseDates(ColumnCells(t, k)) == Success(dates)
    requires n < |PriceFrame(t, k, dates).index|
    ensures var f := PriceFrame(t, k, dates);
      exists i :: 0 <= i < |t.rows| && t.rows[i][k] == When(f.index[n])
                  && forall c :: 0 <= c < |f.names| ==> f.cols[c][n] == ToNumeric(Without(t.rows[i], k)[c])
  {
    var records := PriceRecords(t, k, dates);
    var kept := KeepFirst(SortByDate(records));
    var f := PriceFrame(t, k, dates);
    KeptAreInput(records);
    assert kept[n] in kept;
    var i :| 0 <= i < |records| && records[i] == kept[n];
    assert t.rows[i][k] == ColumnCells(t, k)[i] == When(f.index[n]);
    assert kept[n].cells == Coerce(Without(t.rows[i], k));
    forall c | 0 <= c < |f.names| ensures f.cols[c][n] == ToNumeric(Without(t.rows[i], k)[c]) {
      assert f.cols[c][n] == kept[n].cells[c];
    }
  }

  /** load_luse_prices: resolve the date column, parse it, make it the index,
      sort, coerce the ticker cells and drop repeated dates keeping the first. */
  method LoadPrices(t: Table) returns (r: Result<Frame, LoadError>, ghost k: nat)
    requires IsTable(t)
    ensures IsResolution(PriceDate, t.headers, k)
    // the only failure: a date cell that is not a date, reported at the first such row
    ensures r.Failure? <==> exists i :: 0 <= i < |t.rows| && !t.rows[i][k].When?
    ensures r.Failure? ==> r.error.BadDate? && r.error.row < |t.rows| && !t.rows[r.error.row][k].When?
                           && forall i :: 0 <= i < r.error.row ==> t.rows[i][k].When?
    ensures r.Success? ==> exists ds :: ParseDates(ColumnCells(t, k)) == Success(ds) && r.value == PriceFrame(t, k, ds)
  {
    var dateCol := Resolve(PriceDate, t.headers);
    k := dateCol;
    var parsed := ParseDates(ColumnCells(t, dateCol));
    if parsed.Failure? {
      return Failure(BadDate(parsed.error)), k;
    }
    var records := PriceRecords(t, dateCol, parsed.value);
    var sorted := SortByDate(records);
    var kept := DropDuplicateDates(sorted);
    SortedRowsAreInput(records);
    forall i | 0 <= i < |kept| ensures |kept[i].cells| == |t.headers| - 1 {
      assert kept[i] in sorted;
    }
    r := Success(ToFrame(Without(t.headers, dateCol), kept));
    assert r.value == PriceFrame(t, k, parsed.value);
  }

  /** The CPI sheet as (date, value) rows in file order. */
  function CpiRecords(t: Table, dk: nat, vk: nat, dates: seq<Date>): (rows: seq<Row>)
    requires IsTable(t) && dk < |t.headers| && vk < |t.headers| && |dates| == |t.rows|
    ensures |rows| == |t.rows|
    ensures forall i :: 0 <= i < |rows| ==> rows[i] == Row(dates[i], [ToNumeric(t.rows[i][vk])])
  {
    seq(|t.rows|, i requires 0 <= i < |t.rows| => Row(dates[i], [ToNumeric(t.rows[i][vk])]))
  }

  /** The series whose entries are the one-cell rows `rows`. */
  function ToSeries(name: string, rows: seq<Row>): (s: Series)
    requires forall i :: 0 <= i < |rows| ==> |rows[i].cells| == 1
    ensures IsSeries(s) && s.name == name && s.index == DatesOf(rows)
    ensures forall i :: 0 <= i < |rows| ==> s.values[i] == rows[i].cells[0]
  {
    Series(name, DatesOf(rows), seq(|rows|, i requires 0 <= i < |rows| => rows[i].cells[0]))
  }

  /** What load_cpi returns once the date column `dk` parsed to `dates`. */
  function CpiSeries(t: Table, dk: nat, vk: nat, dates: seq<Date>): (s: Series)
    requires IsTable(t) && dk < |t.headers| && vk < |t.headers| && |dates| == |t.rows|
  {
    var kept := KeepFirst(SortByDate(CpiRecords(t, dk, vk, dates)));
    assert forall x :: x in kept ==> |x.cells| == 1 by {
      SortedRowsAreInput(CpiRecords(t, dk, vk, dates));
    }
    ToSeries("cpi", kept)
  }

  /** The loaded CPI series: named "cpi", a strictly increasing index holding
      every date of the sheet, each value the coerced value cell of a sheet row
      with that date. */
  lemma CpiSeriesFacts(t: Table, dk: nat, vk: nat, dates: seq<Date>)
    requires IsTable(t) && dk < |t.headers| && vk < |t.headers|
    requires ParseDates(ColumnCells(t, dk)) == Success(dates)
    ensures var s := CpiSeries(t, dk, vk, dates);
      && IsSeries(s) && s.name == "cpi"
      && StrictlyIncreasing(s.index)
      && (forall d :: d in s.index <==> exists i :: 0 <= i < |t.rows| && t.rows[i][dk] == When(d))
      && forall n :: 0 <= n < |s.index| ==>
           exists i :: 0 <= i < |t.rows| && t.rows[i][dk] == When(s.index[n]) && s.values[n] == ToNumeric(t.rows[i][vk])
  {
    var records := CpiRecords(t, dk, vk, dates);
    SheetDates(t, dk, dates, records);
    var s := CpiSeries(t, dk, vk, dates);
    assert s.index == DatesOf(KeepFirst(SortByDate(records)));
    forall n | 0 <= n < |s.index|
      ensures exists i :: 0 <= i < |t.rows| && t.rows[i][dk] == When(s.index[n]) && s.values[n] == ToNumeric(t.rows[i][vk])
    {
      CpiSeriesEntry(t, dk, vk, dates, n);
    }
  }

  /** Entry n of the CPI series is the coerced value of a sheet row with its
      date. */
  lemma CpiSeriesEntry(t: Table, dk: nat, vk: nat, dates: seq<Date>, n: nat)
    requires IsTable(t) && dk < |t.headers| && vk < |t.headers|
    requires ParseDates(ColumnCells(t, dk)) == Success(dates)
    requires n < |CpiSeries(t, dk, vk, dates).index|
    ensures var s := CpiSeries(t, dk, vk, dates);
      exists i :: 0 <= i < |t.rows| && t.rows[i][dk] == When(s.index[n]) && s.values[n] == ToNumeric(t.rows[i][vk])
  {
    var records := CpiRecords(t, dk, vk, dates);
    var kept := KeepFirst(SortByDate(records));
    KeptAreInput(records);
    assert kept[n] in kept;
    var i :| 0 <= i < |records| && records[i] == kept[n];
    assert t.rows[i][dk] == ColumnCells(t, dk)[i];
  }

  /** load_cpi: resolve the date and value columns, parse the dates, coerce
      the values, sort, drop repeated dates keeping the first, name it "cpi". */
  method LoadCpi(t: Table) returns (r: Result<Series, LoadError>, ghost dk: nat, ghost vk: nat)
    requires IsTable(t)
    ensures IsResolution(CpiDate, t.headers, dk) && IsResolution(CpiValue, t.headers, vk)
    ensures r.Failure? <==> exists i :: 0 <= i < |t.rows| && !t.rows[i][dk].When?
    ensures r.Failure? ==> r.error.BadDate? && r.error.row < |t.rows| && !t.rows[r.error.row][dk].When?
                           && forall i :: 0 <= i < r.error.row ==> t.rows[i][dk].When?
    ensures r.Success? ==> exists ds :: ParseDates(ColumnCells(t, dk)) == Success(ds) && r.value == CpiSeries(t, dk, vk, ds)
  {
    var dateCol := Resolve(CpiDate, t.headers);
    var valueCol := Resolve(CpiValue, t.headers);
    dk, vk := dateCol, valueCol;
    var parsed := ParseDates(ColumnCells(t, dateCol));
    if parsed.Failure? {
      return Failure(BadDate(parsed.error)), dk, vk;
    }
    var records := CpiRecords(t, dateCol, valueCol, parsed.value);
    var sorted := SortByDate(records);
    var kept := DropDuplicateDates(sorted);
    SortedRowsAreInput(records);
    forall i | 0 <= i < |kept| ensures |kept[i].cells| == 1 {
      assert kept[i] in sorted;
    }
    r := Success(ToSeries("cpi", kept));
    assert r.value == CpiSeries(t, dk, vk, parsed.value);
  }

  /** A year cell that astype("Int64") refuses: a number with a fraction. */
  predicate NonIntegral(y: Option<real>) {
    y.Some? && y.value.Floor as real != y.value
  }

  /** A row that keeps its value after dropna but has no year: astype(int)
      raises on it. */
  predicate ValueWithoutYear(p: (Option<real>, Option<real>)) {
    p.1.Some? && p.0.None?
  }

  function Pairs(years: seq<Option<real>>, vals: seq<Option<real>>): (ps: seq<(Option<real>, Option<real>)>)
    requires |years| == |vals|
    ensures |ps| == |years| && forall i :: 0 <= i < |ps| ==> ps[i] == (years[i], vals[i])
  {
    seq(|years|, i requires 0 <= i < |years| => (years[i], vals[i]))
  }

  /** The GDP rows after dropna, each keyed by December 31 of its year, in
      file order. */
  function GdpRecords(years: seq<Option<real>>, vals: seq<Option<real>>): (rows: seq<Row>)
    requires |years| == |vals|
    requires forall i :: 0 <= i < |vals| ==> vals[i].Some? ==> years[i].Some?
    ensures forall x :: x in rows ==> |x.cells| == 1
    decreases |vals|
  {
    if vals == [] then []
    else
      var rest := GdpRecords(years[1..], vals[1..]);
      if vals[0].Some? then [Row(YearEnd(years[0].value.Floor), [vals[0]])] + rest else rest
  }

  /** Each GDP record comes from a row with a value. */
  lemma {:induction false} GdpRecordsFromRows(years: seq<Option<real>>, vals: seq<Option<real>>)
    requires |years| == |vals|
    requires forall i :: 0 <= i < |vals| ==> vals[i].Some? ==> years[i].Some?
    ensures forall x :: x in GdpRecords(years, vals) ==>
              exists i :: 0 <= i < |vals| && vals[i].Some? && x == Row(YearEnd(years[i].value.Floor), [vals[i]])
    decreases |vals|
  {
    if vals != [] {
      GdpRecordsFromRows(years[1..], vals[1..]);
      var rest := GdpRecords(years[1..], vals[1..]);
      forall x | x in rest
        ensures exists i :: 0 <= i < |vals| && vals[i].Some? && x == Row(YearEnd(years[i].value.Floor), [vals[i]])
      {
        var i :| 0 <= i < |vals| - 1 && vals[1..][i].Some? && x == Row(YearEnd(years[1..][i].value.Floor), [vals[1..][i]]);
        assert vals[i + 1] == vals[1..][i] && years[i + 1] == years[1..][i];
      }
    }
  }

  /** Each row with a value gives a GDP record. */
  lemma {:induction false} GdpRecordsCoverRows(years: seq<Option<real>>, vals: seq<Option<real>>, i: nat)
    requires |years| == |vals|
    requires forall i :: 0 <= i < |vals| ==> vals[i].Some? ==> years[i].Some?
    requires i < |vals| && vals[i].Some?
    ensures Row(YearEnd(years[i].value.Floor), [vals[i]]) in GdpRecords(years, vals)
    decreases |vals|
  {
    if i > 0 {
      GdpRecordsCoverRows(years[1..], vals[1..], i - 1);
      assert vals[1..][i - 1] == vals[i] && years[1..][i - 1] == years[i];
    }
  }

  /** dropna keeps one GDP record per row with a value. */
  lemma {:induction false} GdpRecordsCount(years: seq<Option<real>>, vals: seq<Option<real>>)
    requires |years| == |vals|
    requires forall i :: 0 <= i < |vals| ==> vals[i].Some? ==> years[i].Some?
    ensures |GdpRecords(years, vals)| == |(set i | 0 <= i < |vals| && vals[i].Some?)|
    decreases |vals|
  {
    var all := set i | 0 <= i < |vals| && vals[i].Some?;
    if vals == [] {
      assert all == {};
    } else {
      var l := |vals| - 1;
      GdpRecordsLast(years, vals);
      GdpRecordsCount(years[..l], vals[..l]);
      PresentLast(vals);
    }
  }

  /** The rows with a value are those of all but the last row, plus the last
      row when it has one. */
  lemma PresentLast(vals: seq<Option<real>>)
    requires vals != []
    ensures var l := |vals| - 1;
      var front := set i | 0 <= i < l && vals[..l][i].Some?;
      && l !in front
      && (set i | 0 <= i < |vals| && vals[i].Some?) == front + (if vals[l].Some? then {l} else {})
  {
    var l := |vals| - 1;
    var all := set i | 0 <= i < |vals| && vals[i].Some?;
    var front := set i | 0 <= i < l && vals[..l][i].Some?;
    forall i ensures i in all <==> i in front + (if vals[l].Some? then {l} else {}) {
      if 0 <= i < l {
        assert vals[..l][i] == vals[i];
      }
    }
  }

  /** The records of a sheet are those of all but its last row, followed by
      the last row's record when it has a value. */
  lemma {:induction false} GdpRecordsLast(years: seq<Option<real>>, vals: seq<Option<real>>)
    requires |years| == |vals| && vals != []
    requires forall i :: 0 <= i < |vals| ==> vals[i].Some? ==> years[i].Some?
    ensures var l := |vals| - 1;
      GdpRecords(years, vals) == GdpRecords(years[..l], vals[..l])
        + (if vals[l].Some? then [Row(YearEnd(years[l].value.Floor), [vals[l]])] else [])
    decreases |vals|
  {
    var l := |vals| - 1;
    if l > 0 {
      GdpRecordsLast(years[1..], vals[1..]);
      assert years[1..][..l - 1] == years[..l][1..];
      assert vals[1..][..l - 1] == vals[..l][1..];
      assert years[1..][l - 1] == years[l] && vals[1..][l - 1] == vals[l];
    }
  }

  /** What load_gdp_annual returns when no row makes it raise. */
  function GdpSeries(years: seq<Option<real>>, vals: seq<Option<real>>): (s: Series)
    requires |years| == |vals|
    requires forall i :: 0 <= i < |vals| ==> vals[i].Some? ==> years[i].Some?
  {
    var sorted := SortByDate(GdpRecords(years, vals));
    assert forall x :: x in sorted ==> |x.cells| == 1 by {
      SortedRowsAreInput(GdpRecords(years, vals));
    }
    ToSeries("gdp", sorted)
  }

  /** The entry (d, v) comes from a GDP row with a value: d is December 31 of
      the row's year and v its value. */
  predicate FromGdpRow(years: seq<Option<real>>, vals: seq<Option<real>>, d: Date, v: Option<real>) {
    exists i :: 0 <= i < |vals| && i < |years| && vals[i].Some? && years[i].Some?
                && d == YearEnd(years[i].value.Floor) && v == vals[i]
  }

  /** The loaded GDP series: named "gdp", sorted by date, without missing
      values, and each entry the (December 31 of the year, value) pair of a
      row that has a value. */
  lemma GdpSeriesShape(years: seq<Option<real>>, vals: seq<Option<real>>)
    requires |years| == |vals|
    requires forall i :: 0 <= i < |vals| ==> vals[i].Some? ==> years[i].Some?
    ensures var s := GdpSeries(years, vals);
      && IsSeries(s) && s.name == "gdp"
      && NonDecreasing(s.index)
      && (forall n :: 0 <= n < |s.values| ==> s.values[n].Some?)
      && (forall n :: 0 <= n < |s.index| ==> FromGdpRow(years, vals, s.index[n], s.values[n]))
  {
    var records := GdpRecords(years, vals);
    SortByDateSorted(records);
    var s := GdpSeries(years, vals);
    assert IsSeries(s) && s.index == DatesOf(SortByDate(records));
    forall n | 0 <= n < |s.values|
      ensures s.values[n].Some? && FromGdpRow(years, vals, s.index[n], s.values[n])
    {
      GdpSeriesEntry(years, vals, n);
    }
  }

  /** Entry n of the GDP series is the (year end, value) pair of a row with a
      value. */
  lemma GdpSeriesEntry(years: seq<Option<real>>, vals: seq<Option<real>>, n: nat)
    requires |years| == |vals|
    requires forall i :: 0 <= i < |vals| ==> vals[i].Some? ==> years[i].Some?
    requires n < |GdpSeries(years, vals).index|
    ensures var s := GdpSeries(years, vals);
      s.values[n].Some? && FromGdpRow(years, vals, s.index[n], s.values[n])
  {
    var records := GdpRecords(years, vals);
    var sorted := SortByDate(records);
    var s := GdpSeries(years, vals);
    SortedRowsAreInput(records);
    GdpRecordsFromRows(years, vals);
    var x := sorted[n];
    assert x in records;
    var i :| 0 <= i < |vals| && vals[i].Some? && x == Row(YearEnd(years[i].value.Floor), [vals[i]]);
    assert s.index[n] == x.date && s.values[n] == x.cells[0];
  }

  /** Every row with a value appears in the loaded GDP series, keyed by
      December 31 of its year. */
  lemma GdpSeriesCoversRows(years: seq<Option<real>>, vals: seq<Option<real>>, i: nat)
    requires |years| == |vals|
    requires forall i :: 0 <= i < |vals| ==> vals[i].Some? ==> years[i].Some?
    requires i < |vals| && vals[i].Some?
    ensures var s := GdpSeries(years, vals);
      exists n :: 0 <= n < |s.index| && s.index[n] == YearEnd(years[i].value.Floor) && s.values[n] == vals[i]
  {
    var records := GdpRecords(years, vals);
    var sorted := SortByDate(records);
    var s := GdpSeries(years, vals);
    SortedRowsAreInput(records);
    GdpRecordsCoverRows(years, vals, i);
    var x := Row(YearEnd(years[i].value.Floor), [vals[i]]);
    assert x in sorted;
    var n :| 0 <= n < |sorted| && sorted[n] == x;
    assert s.index[n] == x.date && s.values[n] == vals[i];
  }

  /** load_gdp_annual. An absent file is not an error: it yields no series.
      Otherwise resolve the year and value columns, coerce both, make the
      years integers, drop rows without a value, key each row by December 31
      of its year and sort. */
  method LoadGdp(file: Option<Table>) returns (r: Result<Option<Series>, LoadError>, ghost yk: nat, ghost vk: nat)
    requires file.Some? ==> IsTable(file.value)
    ensures file.None? ==> r == Success(None)
    ensures file.Some? ==> IsResolution(GdpYear, file.value.headers, yk) && IsResolution(GdpValue, file.value.headers, vk)
    ensures file.Some? ==>
      var t := file.value;
      var years := Coerce(ColumnCells(t, yk));
      var vals := Coerce(ColumnCells(t, vk));
      && (r.Failure? <==> (exists i :: 0 <= i < |t.rows| && NonIntegral(years[i]))
                          || (exists i :: 0 <= i < |t.rows| && vals[i].Some? && years[i].None?))
      && (r.Failure? ==> r.error.NonIntegerYear? || r.error.MissingYear?)
      && (r.Failure? && r.error.NonIntegerYear? ==>
            r.error.row < |t.rows| && NonIntegral(years[r.error.row])
            && forall i :: 0 <= i < r.error.row ==> !NonIntegral(years[i]))
      && (r.Failure? && r.error.MissingYear? ==>
            (forall i :: 0 <= i < |t.rows| ==> !NonIntegral(years[i]))
            && r.error.row < |t.rows| && vals[r.error.row].Some? && years[r.error.row].None?
            && forall i :: 0 <= i < r.error.row ==> !(vals[i].Some? && years[i].None?))
      && (r.Success? ==> forall i :: 0 <= i < |t.rows| ==> vals[i].Some? ==> years[i].Some?)
      && (r.Success? ==> r.value == Some(GdpSeries(years, vals)))
  {
    if file.None? {
      return Success(None), 0, 0;
    }
    var t := file.value;
    var yearCol := Resolve(GdpYear, t.headers);
    var valueCol := Resolve(GdpValue, t.headers);
    yk, vk := yearCol, valueCol;
    var years := Coerce(ColumnCells(t, yearCol));
    var vals := Coerce(ColumnCells(t, valueCol));
    var fractional := FindFirst(years, NonIntegral);
    if fractional.Some? {
      return Failure(NonIntegerYear(fractional.value)), yk, vk;
    }
    var pairs := Pairs(years, vals);
    var missing := FindFirst(pairs, ValueWithoutYear);
    if missing.Some? {
      return Failure(MissingYear(missing.value)), yk, vk;
    }
    assert forall i :: 0 <= i < |vals| ==> !ValueWithoutYear(pairs[i]);
    r := Success(Some(GdpSeries(years, vals)));
  }
}
