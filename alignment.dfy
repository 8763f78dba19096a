/** align_monthly: one monthly panel of returns, CPI inflation and GDP, built by
    attaching columns to a copy of the returns frame. */
module Alignment {
  import opened Wrappers
  import opened Dates
  import opened Tables
  import opened Frequency

  /** The value a series has at date `d`, as label alignment looks it up:
      missing when `d` is not among the series' dates. */
  function Lookup(idx: seq<Date>, vals: seq<Option<real>>, d: Date): Option<real>
    requires |idx| == |vals|
    decreases |idx|
  {
    if idx == [] then None
    else if idx[0] == d then vals[0]
    else Lookup(idx[1..], vals[1..], d)
  }

  /** Label alignment finds the value of the one entry keyed `d`, and only
      that entry's; a date the series lacks is missing. */
  lemma {:induction false} LookupFacts(idx: seq<Date>, vals: seq<Option<real>>, d: Date)
    requires |idx| == |vals| && StrictlyIncreasing(idx)
    ensures forall j :: 0 <= j < |idx| && idx[j] == d ==> Lookup(idx, vals, d) == vals[j]
    ensures (forall j :: 0 <= j < |idx| ==> idx[j] != d) ==> Lookup(idx, vals, d).None?
    decreases |idx|
  {
    if idx != [] {
      assert StrictlyIncreasing(idx[1..]) by {
        forall i, j | 0 <= i < j < |idx| - 1 ensures Before(idx[1..][i], idx[1..][j]) {
          assert Before(idx[i + 1], idx[j + 1]);
        }
      }
      LookupFacts(idx[1..], vals[1..], d);
      forall j | 0 < j < |idx| && idx[j] == d ensures idx[0] != d {
        assert Before(idx[0], idx[j]);
        BeforeIsStrictTotalOrder(idx[0], idx[0], idx[0]);
      }
      forall j | 0 < j < |idx| ensures idx[1..][j - 1] == idx[j] && vals[1..][j - 1] == vals[j] {
      }
    }
  }

  /** A series reindexed onto `target`, as `out[name] = series` aligns it. */
  function Reindex(target: seq<Date>, s: Series): (col: seq<Option<real>>)
    requires IsSeries(s)
    ensures |col| == |target|
  {
    seq(|target|, i requires 0 <= i < |target| => Lookup(s.index, s.values, target[i]))
  }

  /** cpi_m.resample("M").last().pct_change().rename("inflation_m"). */
  function Inflation(cpi: Series): (s: Series)
    requires IsSeries(cpi)
    ensures IsSeries(s) && s.name == "inflation_m"
  {
    var m := SeriesMonthlyLast(cpi);
    Series("inflation_m", m.index, PctChange(m.values))
  }

  /** Inflation in month m of the CPI range is the return between the last
      readings of month m - 1 and of month m, so it is present exactly when
      both months have a reading and the earlier one is not zero; the first
      month of the range has none. */
  lemma InflationMonth(cpi: Series, m: int)
    requires IsSeries(cpi) && cpi.index != []
    requires MonthOf(cpi.index[0]) <= m <= MonthOf(cpi.index[|cpi.index| - 1])
    ensures var lo := MonthOf(cpi.index[0]);
      var infl := Inflation(cpi);
      var prev := LastPresent(cpi.index, cpi.values, m - 1);
      var cur := LastPresent(cpi.index, cpi.values, m);
      && 0 <= m - lo < |infl.index| && infl.index[m - lo] == MonthEnd(m)
      && infl.values[m - lo] == (if m == lo then None else Return(prev, cur))
      && (infl.values[m - lo].Some? <==> lo < m && prev.Some? && cur.Some? && prev.value != 0.0)
  {
    MonthlyIndexAt(cpi.index, m);
  }

  /** Three readings in three consecutive months resample to themselves. */
  lemma ThreeMonthsResample(k: int, vals: seq<Option<real>>)
    requires |vals| == 3 && vals[0].Some? && vals[1].Some? && vals[2].Some?
    ensures var idx := [MonthEnd(k), MonthEnd(k + 1), MonthEnd(k + 2)];
      SeriesMonthlyLast(Series("cpi", idx, vals)) == Series("cpi", idx, vals)
  {
    var idx := [MonthEnd(k), MonthEnd(k + 1), MonthEnd(k + 2)];
    var m := SeriesMonthlyLast(Series("cpi", idx, vals));
    assert MonthOf(idx[0]) == k && MonthOf(idx[1]) == k + 1 && MonthOf(idx[2]) == k + 2;
    assert m.index == idx by {
      assert MonthRange(k, k) == [MonthEnd(k)];
      assert MonthRange(k, k + 1) == [MonthEnd(k), MonthEnd(k + 1)];
    }
    assert IsLastPresent(idx, vals, k, 0);
    assert IsLastPresent(idx, vals, k + 1, 1);
    assert IsLastPresent(idx, vals, k + 2, 2);
    LastPresentIsLast(idx, vals, k, 0);
    LastPresentIsLast(idx, vals, k + 1, 1);
    LastPresentIsLast(idx, vals, k + 2, 2);
    assert m.values == vals by {
      assert m.values[0] == LastPresent(idx, vals, k);
      assert m.values[1] == LastPresent(idx, vals, k + 1);
      assert m.values[2] == LastPresent(idx, vals, k + 2);
    }
  }

  /** With a reading in each of three consecutive months, CPI 100, 102, 105
      gives inflation [missing, 0.02, 3/102]. */
  lemma InflationExample(k: int)
    ensures var cpi := Series("cpi", [MonthEnd(k), MonthEnd(k + 1), MonthEnd(k + 2)],
                                     [Some(100.0), Some(102.0), Some(105.0)]);
      Inflation(cpi) == Series("inflation_m", [MonthEnd(k), MonthEnd(k + 1), MonthEnd(k + 2)],
                                              [None, Some(0.02), Some(3.0 / 102.0)])
  {
    var vals := [Some(100.0), Some(102.0), Some(105.0)];
    ThreeMonthsResample(k, vals);
    var r := PctChange(vals);
    assert r[1] == Return(vals[0], vals[1]) == Some(0.02);
    assert r[2] == Return(vals[1], vals[2]) == Some(3.0 / 102.0);
    assert r == [None, Some(0.02), Some(3.0 / 102.0)];
  }

  /** The value in force at `e` after forward filling: that of the last entry
      dated at or before `e`. */
  function FFillAt(idx: seq<Date>, vals: seq<Option<real>>, e: Date): Option<real>
    requires |idx| == |vals|
    decreases |idx|
  {
    if idx == [] then None
    else
      var l := |idx| - 1;
      if NotAfter(idx[l], e) then vals[l] else FFillAt(idx[..l], vals[..l], e)
  }

  /** Forward filling carries entry j's value from its date up to the day
      before the next entry. */
  lemma {:induction false} FFillAtIs(idx: seq<Date>, vals: seq<Option<real>>, e: Date, j: int)
    requires |idx| == |vals| && StrictlyIncreasing(idx)
    requires 0 <= j < |idx| && NotAfter(idx[j], e)
    requires j + 1 < |idx| ==> Before(e, idx[j + 1])
    ensures FFillAt(idx, vals, e) == vals[j]
    decreases |idx|
  {
    var l := |idx| - 1;
    if j < l {
      if j + 1 < l {
        BeforeIsStrictTotalOrder(e, idx[j + 1], idx[l]);
      }
      BeforeIsStrictTotalOrder(e, idx[l], e);
      assert !NotAfter(idx[l], e);
      assert StrictlyIncreasing(idx[..l]) by {
        forall a, b | 0 <= a < b < l ensures Before(idx[..l][a], idx[..l][b]) {
          assert Before(idx[a], idx[b]);
        }
      }
      FFillAtIs(idx[..l], vals[..l], e, j);
    }
  }

  /** gdp_a.resample("M").ffill(): the month ends from the first entry's month
      to the last entry's, each carrying the value in force at that month end. */
  function FFillMonthly(s: Series): (m: Series)
    requires IsSeries(s)
    ensures IsSeries(m) && m.name == s.name && m.index == MonthlyIndex(s.index)
  {
    var g := MonthlyIndex(s.index);
    Series(s.name, g, seq(|g|, n requires 0 <= n < |g| => FFillAt(s.index, s.values, g[n])))
  }

  /** A date after the end of month `k` lies in a later month. */
  lemma AfterMonthEnd(k: int, d: Date)
    requires Before(MonthEnd(k), d)
    ensures k < MonthOf(d)
  {
    if MonthOf(d) <= k {
      AtOrBeforeMonthEnd(d);
      if MonthOf(d) < k {
        MonthEndStrictlyIncreasing(MonthOf(d), k);
      }
      BeforeIsStrictTotalOrder(d, MonthEnd(MonthOf(d)), MonthEnd(k));
      BeforeIsStrictTotalOrder(MonthEnd(k), d, MonthEnd(k));
      BeforeIsStrictTotalOrder(d, MonthEnd(k), d);
    }
  }

  /** The forward-filled month m carries the value of the last entry in
      month m or earlier. */
  lemma FFillMonthlyAt(s: Series, j: int, m: int)
    requires IsSeries(s) && StrictlyIncreasing(s.index) && 0 <= j < |s.index|
    requires MonthOf(s.index[j]) <= m
    requires if j + 1 < |s.index| then m < MonthOf(s.index[j + 1]) else m == MonthOf(s.index[j])
    ensures var f := FFillMonthly(s);
      var n := m - MonthOf(s.index[0]);
      0 <= n < |f.index| && f.index[n] == MonthEnd(m) && f.values[n] == s.values[j]
  {
    var idx := s.index;
    var lo := MonthOf(idx[0]);
    FillMonthBounds(idx, j, m);
    MonthlyIndexAt(idx, m);
    FFillMonthlyValue(s, m - lo);
    FFillAtIs(idx, s.values, MonthEnd(m), j);
  }

  /** The month m that entry j covers lies within the resampled range, and
      its end lies between entry j and the next entry. */
  lemma FillMonthBounds(idx: seq<Date>, j: int, m: int)
    requires StrictlyIncreasing(idx) && 0 <= j < |idx|
    requires MonthOf(idx[j]) <= m
    requires if j + 1 < |idx| then m < MonthOf(idx[j + 1]) else m == MonthOf(idx[j])
    ensures MonthOf(idx[0]) <= m <= MonthOf(idx[|idx| - 1])
    ensures NotAfter(idx[j], MonthEnd(m))
    ensures j + 1 < |idx| ==> Before(MonthEnd(m), idx[j + 1])
  {
    var last := |idx| - 1;
    if j > 0 {
      MonthOfMonotone(idx[0], idx[j]);
    }
    if j + 1 < |idx| {
      if j + 1 < last {
        MonthOfMonotone(idx[j + 1], idx[last]);
      }
      EarlierMonthIsBefore(MonthEnd(m), idx[j + 1]);
    }
    AtOrBeforeLaterMonthEnd(idx[j], m);
  }

  /** Bin n of the forward-filled series holds the value in force at its
      month end. */
  lemma FFillMonthlyValue(s: Series, n: int)
    requires IsSeries(s) && 0 <= n < |MonthlyIndex(s.index)|
    ensures FFillMonthly(s).values[n] == FFillAt(s.index, s.values, MonthlyIndex(s.index)[n])
  {
  }

  /** Annual figures keyed by year end: between consecutive observations for
      years y1 < y2, every month end from December y1 through November y2
      carries y1's figure, and December y2 carries y2's. */
  lemma YearEndForwardFill(s: Series, j: int, y1: int, y2: int, m: int)
    requires IsSeries(s) && StrictlyIncreasing(s.index) && 0 <= j && j + 1 < |s.index|
    requires s.index[j] == YearEnd(y1) && s.index[j + 1] == YearEnd(y2)
    requires 12 * y1 + 11 <= m <= 12 * y2 + 11
    ensures var f := FFillMonthly(s);
      var n := m - MonthOf(s.index[0]);
      && 0 <= n < |f.index| && f.index[n] == MonthEnd(m)
      && f.values[n] == if m < 12 * y2 + 11 then s.values[j] else s.values[j + 1]
  {
    if m < 12 * y2 + 11 {
      FFillMonthlyAt(s, j, m);
    } else {
      if j + 2 < |s.index| {
        AfterMonthEnd(12 * y2 + 11, s.index[j + 2]);
      }
      FFillMonthlyAt(s, j + 1, m);
    }
  }

  /** `out[name] = s`: the series aligned onto the frame's index replaces the
      column called `name`, or is appended as a new last column. */
  function Assigned(f: Frame, s: Series): (r: Frame)
    requires IsFrame(f) && IsSeries(s)
    ensures IsFrame(r)
  {
    var col := Reindex(f.index, s);
    if s.name in f.names then Frame(f.index, f.names, f.cols[IndexOf(f.names, s.name) := col])
    else Frame(f.index, f.names + [s.name], f.cols + [col])
  }

  /** Assignment keeps the rows, keeps every other column as it was, adds the
      name at the end exactly when it is new, keeps names distinct, and the
      column under the name is the aligned series. */
  lemma AssignedFacts(f: Frame, s: Series)
    requires IsFrame(f) && IsSeries(s) && Distinct(f.names)
    ensures var r := Assigned(f, s);
      && r.index == f.index && Distinct(r.names)
      && r.names == (if s.name in f.names then f.names else f.names + [s.name])
      && Column(r, s.name) == Reindex(f.index, s)
      && forall n :: n in f.names && n != s.name ==> Column(r, n) == Column(f, n)
  {
    var r := Assigned(f, s);
    if s.name !in f.names {
      assert r.names[|f.names|] == s.name;
      forall n | n in f.names ensures IndexOf(r.names, n) == IndexOf(f.names, n) {
        IndexOfPrefix(f.names, [s.name], n);
      }
    }
  }

  /** Appending names does not move the first occurrence of an existing one. */
  lemma {:induction false} IndexOfPrefix(a: seq<string>, b: seq<string>, n: string)
    requires n in a
    ensures IndexOf(a + b, n) == IndexOf(a, n)
  {
    if a[0] != n {
      assert (a + b)[1..] == a[1..] + b;
      IndexOfPrefix(a[1..], b, n);
    }
  }

  datatype AlignError = DuplicateGdpDate

  /** The panel align_monthly returns, when it returns one. */
  function Aligned(rets: Frame, cpi: Series, gdp: Option<Series>): (out: Frame)
    requires IsFrame(rets) && IsSeries(cpi)
    requires gdp.Some? ==> IsSeries(gdp.value)
    ensures IsFrame(out)
  {
    var out := Assigned(rets, Inflation(cpi));
    if gdp.None? then out
    else Assigned(out, Series("gdp", FFillMonthly(gdp.value).index, FFillMonthly(gdp.value).values))
  }

  /** The panel has the returns' rows; the return columns other than the two
      it attaches are unchanged; `inflation_m` is the CPI inflation aligned by
      date; `gdp` is there exactly when GDP was given (or the returns had
      one), and is the forward-filled GDP aligned by date. */
  lemma AlignedFacts(rets: Frame, cpi: Series, gdp: Option<Series>)
    requires IsFrame(rets) && IsSeries(cpi) && Distinct(rets.names)
    requires gdp.Some? ==> IsSeries(gdp.value)
    ensures var out := Aligned(rets, cpi, gdp);
      && out.index == rets.index && Distinct(out.names)
      && (forall n :: n in rets.names ==> n in out.names)
      && (forall n :: n in out.names ==> n in rets.names || n == "inflation_m" || (gdp.Some? && n == "gdp"))
      && "inflation_m" in out.names
      && Column(out, "inflation_m") == Reindex(rets.index, Inflation(cpi))
      && ("gdp" in out.names <==> gdp.Some? || "gdp" in rets.names)
      && (gdp.Some? ==> Column(out, "gdp") == Reindex(rets.index, FFillMonthly(gdp.value)))
      && forall n :: n in rets.names && n != "inflation_m" && (gdp.Some? ==> n != "gdp") ==>
           Column(out, n) == Column(rets, n)
  {
    var infl := Inflation(cpi);
    var mid := Assigned(rets, infl);
    AssignedFacts(rets, infl);
    if gdp.Some? {
      var g := Series("gdp", FFillMonthly(gdp.value).index, FFillMonthly(gdp.value).values);
      AssignedFacts(mid, g);
      assert Reindex(rets.index, g) == Reindex(rets.index, FFillMonthly(gdp.value));
    }
  }

  /** A returns row whose date is the month end of a month with CPI readings
      in it and the month before gets the inflation between those months'
      last readings; a row dated where inflation is undefined gets none. */
  lemma InflationAt(rets: Frame, cpi: Series, gdp: Option<Series>, i: int)
    requires IsFrame(rets) && IsSeries(cpi) && Distinct(rets.names)
    requires gdp.Some? ==> IsSeries(gdp.value)
    requires 0 <= i < |rets.index|
    ensures var out := Aligned(rets, cpi, gdp);
      var infl := Inflation(cpi);
      && "inflation_m" in out.names
      && (forall n :: 0 <= n < |infl.index| && infl.index[n] == rets.index[i] ==>
            Column(out, "inflation_m")[i] == infl.values[n])
      && ((forall n :: 0 <= n < |infl.index| ==> infl.index[n] != rets.index[i]) ==>
            Column(out, "inflation_m")[i].None?)
  {
    AlignedFacts(rets, cpi, gdp);
    var infl := Inflation(cpi);
    LookupFacts(infl.index, infl.values, rets.index[i]);
  }

  /** A returns row dated at the end of a month between two annual GDP
      observations gets the earlier year's figure through November and the
      later year's in December. */
  lemma GdpAt(rets: Frame, cpi: Series, gdp: Series, i: int, j: int, y1: int, y2: int)
    requires IsFrame(rets) && IsSeries(cpi) && Distinct(rets.names)
    requires IsSeries(gdp) && StrictlyIncreasing(gdp.index) && 0 <= j && j + 1 < |gdp.index|
    requires gdp.index[j] == YearEnd(y1) && gdp.index[j + 1] == YearEnd(y2)
    requires 0 <= i < |rets.index|
    requires 12 * y1 + 11 <= MonthOf(rets.index[i]) <= 12 * y2 + 11
    requires rets.index[i] == MonthEnd(MonthOf(rets.index[i]))
    ensures var out := Aligned(rets, cpi, Some(gdp));
      && "gdp" in out.names
      && Column(out, "gdp")[i] ==
         if MonthOf(rets.index[i]) < 12 * y2 + 11 then gdp.values[j] else gdp.values[j + 1]
  {
    AlignedFacts(rets, cpi, Some(gdp));
    var m := MonthOf(rets.index[i]);
    YearEndForwardFill(gdp, j, y1, y2, m);
    var f := FFillMonthly(gdp);
    MonthlyIndexFacts(gdp.index);
    LookupFacts(f.index, f.values, rets.index[i]);
  }

  /** Forward filling never extrapolates: a returns row dated before the
      first GDP observation, or after the end of the last one's month, gets
      no GDP figure. */
  lemma GdpNotExtrapolated(rets: Frame, cpi: Series, gdp: Series, i: int)
    requires IsFrame(rets) && IsSeries(cpi) && Distinct(rets.names)
    requires IsSeries(gdp) && StrictlyIncreasing(gdp.index) && 0 <= i < |rets.index|
    requires gdp.index == [] || Before(rets.index[i], gdp.index[0])
             || Before(MonthEnd(MonthOf(gdp.index[|gdp.index| - 1])), rets.index[i])
    ensures var out := Aligned(rets, cpi, Some(gdp));
      "gdp" in out.names && Column(out, "gdp")[i].None?
  {
    AlignedFacts(rets, cpi, Some(gdp));
    var f := FFillMonthly(gdp);
    MonthlyIndexFacts(gdp.index);
    var d := rets.index[i];
    forall n | 0 <= n < |f.index| ensures f.index[n] != d {
      GridWithin(gdp.index, n);
      var e := f.index[n];
      var hi := MonthEnd(MonthOf(gdp.index[|gdp.index| - 1]));
      BeforeIsStrictTotalOrder(d, gdp.index[0], e);
      BeforeIsStrictTotalOrder(e, hi, d);
    }
    LookupFacts(f.index, f.values, d);
  }

  /** The panel built from month-end returns of a sorted price frame has one
      row per month end, consecutive and strictly increasing, and every
      return column starts with a missing row. */
  lemma PanelOfPrices(prices: Frame, cpi: Series, gdp: Option<Series>)
    requires IsFrame(prices) && NonDecreasing(prices.index) && Distinct(prices.names)
    requires IsSeries(cpi) && (gdp.Some? ==> IsSeries(gdp.value))
    ensures var out := Aligned(ComputeReturns(ToMonthlyLast(prices)), cpi, gdp);
      && StrictlyIncreasing(out.index)
      && (forall n :: 0 <= n < |out.index| ==> out.index[n] == MonthEnd(MonthOf(prices.index[0]) + n))
      && forall name :: (name in prices.names && name != "inflation_m" && (gdp.Some? ==> name != "gdp")
                          && out.index != []) ==> Column(out, name)[0].None?
  {
    var rets := ComputeReturns(ToMonthlyLast(prices));
    MonthlyIndexFacts(prices.index);
    AlignedFacts(rets, cpi, gdp);
    forall name | name in prices.names ensures |Column(rets, name)| == |rets.index| && (rets.index != [] ==> Column(rets, name)[0].None?) {
      var c := IndexOf(rets.names, name);
      if rets.index != [] {
        ReturnsFacts(ToMonthlyLast(prices), 0, c);
      }
    }
  }

  /** The output frame of align_monthly, filled in place. */
  class Panel {
    var index: seq<Date>
    var names: seq<string>
    var cols: seq<seq<Option<real>>>

    function Snapshot(): Frame
      reads this
    {
      Frame(index, names, cols)
    }

    predicate Valid()
      reads this
    {
      IsFrame(Snapshot())
    }

    /** rets_m.copy(). */
    constructor Copy(f: Frame)
      requires IsFrame(f)
      ensures Valid() && Snapshot() == f
    {
      index, names, cols := f.index, f.names, f.cols;
    }

    /** out[s.name] = s. */
    method Assign(s: Series)
      requires Valid() && IsSeries(s)
      modifies this
      ensures Valid() && Snapshot() == Assigned(old(Snapshot()), s)
    {
      var col := Reindex(index, s);
      if s.name in names {
        cols := cols[IndexOf(names, s.name) := col];
      } else {
        names := names + [s.name];
        cols := cols + [col];
      }
    }
  }

  /** align_monthly. Attaching a forward-filled GDP fails when two GDP entries
      share a date (pandas cannot reindex a non-unique index with a fill
      method); otherwise the result is the aligned panel. */
  method AlignMonthly(rets: Frame, cpi: Series, gdp: Option<Series>) returns (r: Result<Frame, AlignError>)
    requires IsFrame(rets) && IsSeries(cpi) && Distinct(rets.names)
    requires gdp.Some? ==> IsSeries(gdp.value) && NonDecreasing(gdp.value.index)
    ensures r.Failure? <==> gdp.Some? && !StrictlyIncreasing(gdp.value.index)
    ensures r.Success? ==> r.value == Aligned(rets, cpi, gdp)
  {
    var out := new Panel.Copy(rets);
    out.Assign(Inflation(cpi));
    if gdp.Some? {
      if !Unique(gdp.value.index) {
        return Failure(DuplicateGdpDate);
      }
      var g := FFillMonthly(gdp.value);
      out.Assign(Series("gdp", g.index, g.values));
    }
    r := Success(out.Snapshot());
  }

  /** Whether adjacent entries of a sorted index differ, that is, whether the
      index is unique. */
  function Unique(idx: seq<Date>): (b: bool)
    requires NonDecreasing(idx)
    ensures b <==> StrictlyIncreasing(idx)
  {
    if forall i :: 0 < i < |idx| ==> idx[i - 1] != idx[i] then
      AdjacentDistinctIncreasing(idx);
      true
    else false
  }

  /** A sorted index whose neighbours differ is strictly increasing. */
  lemma AdjacentDistinctIncreasing(idx: seq<Date>)
    requires NonDecreasing(idx)
    requires forall i :: 0 < i < |idx| ==> idx[i - 1] != idx[i]
    ensures StrictlyIncreasing(idx)
  {
    forall i, j | 0 <= i < j < |idx| ensures Before(idx[i], idx[j]) {
      assert NotAfter(idx[i], idx[i + 1]) && idx[i] != idx[i + 1];
      if i + 1 < j {
        assert NotAfter(idx[i + 1], idx[j]);
        BeforeIsStrictTotalOrder(idx[i], idx[i + 1], idx[j]);
      }
    }
  }
}
