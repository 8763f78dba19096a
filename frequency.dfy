/** Frequency conversion: resample("M").last() to month-end observations and
    pct_change() to simple period returns. */
module Frequency {
  import opened Wrappers
  import opened Dates
  import opened Tables

  /** The month ends of months lo..hi, one per month: the bins resample("M")
      labels. */
  function MonthRange(lo: int, hi: int): (g: seq<Date>)
    ensures |g| == if lo <= hi then hi - lo + 1 else 0
    ensures forall n :: 0 <= n < |g| ==> g[n] == MonthEnd(lo + n)
    decreases hi - lo
  {
    if lo > hi then [] else MonthRange(lo, hi - 1) + [MonthEnd(hi)]
  }

  /** The bins run in strictly increasing date order. */
  lemma MonthRangeIncreasing(lo: int, hi: int)
    ensures StrictlyIncreasing(MonthRange(lo, hi))
  {
    var g := MonthRange(lo, hi);
    forall i, j | 0 <= i < j < |g| ensures Before(g[i], g[j]) {
      MonthEndStrictlyIncreasing(lo + i, lo + j);
    }
  }

  /** The resampled index: every month from the first observation's to the
      last observation's, including months without observations. */
  function MonthlyIndex(idx: seq<Date>): seq<Date> {
    if idx == [] then [] else MonthRange(MonthOf(idx[0]), MonthOf(idx[|idx| - 1]))
  }

  /** The last non-missing value observed in month `m`, if any (GroupBy.last
      skips missing cells). */
  function LastPresent(idx: seq<Date>, vals: seq<Option<real>>, m: int): Option<real>
    requires |idx| == |vals|
    decreases |idx|
  {
    if idx == [] then None
    else
      var l := |idx| - 1;
      if MonthOf(idx[l]) == m && vals[l].Some? then vals[l]
      else LastPresent(idx[..l], vals[..l], m)
  }

  /** Row `i` holds the value `LastPresent` must return for month `m`: it is in
      that month, has a value, and no later row of the month has one. */
  predicate IsLastPresent(idx: seq<Date>, vals: seq<Option<real>>, m: int, i: int)
    requires |idx| == |vals|
  {
    0 <= i < |idx| && MonthOf(idx[i]) == m && vals[i].Some?
    && forall j :: i < j < |idx| && MonthOf(idx[j]) == m ==> vals[j].None?
  }

  /** A month without any value resamples to missing, and only such a month. */
  lemma {:induction false} LastPresentNone(idx: seq<Date>, vals: seq<Option<real>>, m: int)
    requires |idx| == |vals|
    ensures LastPresent(idx, vals, m).None? <==>
            forall i :: 0 <= i < |idx| && MonthOf(idx[i]) == m ==> vals[i].None?
    decreases |idx|
  {
    if idx != [] {
      var l := |idx| - 1;
      LastPresentNone(idx[..l], vals[..l], m);
      if !(MonthOf(idx[l]) == m && vals[l].Some?) {
        forall i | 0 <= i < l ensures idx[..l][i] == idx[i] && vals[..l][i] == vals[i] {
        }
      }
    }
  }

  /** The value a month resamples to is the last value observed in it. */
  lemma {:induction false} LastPresentIsLast(idx: seq<Date>, vals: seq<Option<real>>, m: int, i: int)
    requires |idx| == |vals|
    requires IsLastPresent(idx, vals, m, i)
    ensures LastPresent(idx, vals, m) == vals[i]
    decreases |idx|
  {
    var l := |idx| - 1;
    if i < l {
      assert !(MonthOf(idx[l]) == m && vals[l].Some?);
      assert IsLastPresent(idx[..l], vals[..l], m, i);
      LastPresentIsLast(idx[..l], vals[..l], m, i);
    }
  }

  /** A month that resamples to a value has a row that is its last value. */
  lemma {:induction false} LastPresentWitness(idx: seq<Date>, vals: seq<Option<real>>, m: int)
    requires |idx| == |vals|
    requires LastPresent(idx, vals, m).Some?
    ensures exists i :: IsLastPresent(idx, vals, m, i) && LastPresent(idx, vals, m) == vals[i]
    decreases |idx|
  {
    var l := |idx| - 1;
    if MonthOf(idx[l]) == m && vals[l].Some? {
      assert IsLastPresent(idx, vals, m, l);
    } else {
      LastPresentWitness(idx[..l], vals[..l], m);
      var i :| IsLastPresent(idx[..l], vals[..l], m, i) && LastPresent(idx[..l], vals[..l], m) == vals[..l][i];
      assert IsLastPresent(idx, vals, m, i);
    }
  }

  /** One column resampled to month ends, keeping each month's last value. */
  function MonthlyLast(idx: seq<Date>, vals: seq<Option<real>>): (r: seq<Option<real>>)
    requires |idx| == |vals|
    ensures |r| == |MonthlyIndex(idx)|
  {
    var g := MonthlyIndex(idx);
    seq(|g|, n requires 0 <= n < |g| => LastPresent(idx, vals, MonthOf(idx[0]) + n))
  }

  /** to_monthly_last: prices_daily.resample("M").last(). */
  function ToMonthlyLast(f: Frame): (m: Frame)
    requires IsFrame(f)
    ensures IsFrame(m)
  {
    Frame(MonthlyIndex(f.index), f.names,
      seq(|f.cols|, c requires 0 <= c < |f.cols| => MonthlyLast(f.index, f.cols[c])))
  }

  /** series.resample("M").last(). */
  function SeriesMonthlyLast(s: Series): (m: Series)
    requires IsSeries(s)
    ensures IsSeries(m)
  {
    Series(s.name, MonthlyIndex(s.index), MonthlyLast(s.index, s.values))
  }

  /** The resampled index of a sorted index: strictly increasing month ends of
      consecutive months, one per month, from the first observation's month
      to the last one's, so every observed month has exactly one row. */
  lemma MonthlyIndexFacts(idx: seq<Date>)
    requires NonDecreasing(idx)
    ensures var g := MonthlyIndex(idx);
      && StrictlyIncreasing(g)
      && (forall n :: 0 <= n < |g| ==> g[n].day == DaysInMonth(g[n].year, g[n].month))
      && (forall n :: 0 < n < |g| ==> MonthOf(g[n]) == MonthOf(g[n - 1]) + 1)
      && (forall i :: 0 <= i < |idx| ==>
            var n := MonthOf(idx[i]) - MonthOf(idx[0]);
            0 <= n < |g| && g[n] == MonthEnd(MonthOf(idx[i])))
  {
    if idx != [] {
      MonthRangeIncreasing(MonthOf(idx[0]), MonthOf(idx[|idx| - 1]));
      forall i | 0 <= i < |idx|
        ensures var n := MonthOf(idx[i]) - MonthOf(idx[0]);
          0 <= n < |MonthlyIndex(idx)| && MonthlyIndex(idx)[n] == MonthEnd(MonthOf(idx[i]))
      {
        MonthPosition(idx, i);
      }
    }
  }

  /** Row i of a sorted index falls in bin MonthOf(idx[i]) - MonthOf(idx[0]),
      the bin keyed by the end of its month. */
  lemma MonthPosition(idx: seq<Date>, i: int)
    requires NonDecreasing(idx) && 0 <= i < |idx|
    ensures var n := MonthOf(idx[i]) - MonthOf(idx[0]);
      0 <= n < |MonthlyIndex(idx)| && MonthlyIndex(idx)[n] == MonthEnd(MonthOf(idx[i]))
  {
    if i > 0 {
      MonthOfMonotone(idx[0], idx[i]);
    }
    if i < |idx| - 1 {
      MonthOfMonotone(idx[i], idx[|idx| - 1]);
    }
  }

  /** Every bin of the resampled index lies between the first observation
      and the end of the last observation's month. */
  lemma GridWithin(idx: seq<Date>, n: int)
    requires 0 <= n < |MonthlyIndex(idx)|
    ensures NotAfter(idx[0], MonthlyIndex(idx)[n])
    ensures NotAfter(MonthlyIndex(idx)[n], MonthEnd(MonthOf(idx[|idx| - 1])))
  {
    var lo := MonthOf(idx[0]);
    var hi := MonthOf(idx[|idx| - 1]);
    MonthlyIndexAt(idx, lo + n);
    AtOrBeforeLaterMonthEnd(idx[0], lo + n);
    MonthEndMonotone(lo + n, hi);
  }

  /** The bins run from the first observation's month to the last one's:
      month k of that range is bin k - MonthOf(idx[0]), keyed by its end. */
  lemma MonthlyIndexAt(idx: seq<Date>, k: int)
    requires idx != []
    ensures var g := MonthlyIndex(idx);
      0 <= k - MonthOf(idx[0]) < |g| <==> MonthOf(idx[0]) <= k <= MonthOf(idx[|idx| - 1])
    ensures var g := MonthlyIndex(idx);
      MonthOf(idx[0]) <= k <= MonthOf(idx[|idx| - 1]) ==> g[k - MonthOf(idx[0])] == MonthEnd(k)
  {
  }

  /** What to_monthly_last keeps: the row of an observed month is keyed by
      that month's end and holds, in each column, the month's last value;
      the value of the month's last observation when that one is present. */
  lemma MonthlyLastAt(f: Frame, i: int, c: int)
    requires IsFrame(f) && NonDecreasing(f.index)
    requires 0 <= i < |f.index| && 0 <= c < |f.cols|
    ensures var m := ToMonthlyLast(f);
      var n := MonthOf(f.index[i]) - MonthOf(f.index[0]);
      && 0 <= n < |m.index| && m.index[n] == MonthEnd(MonthOf(f.index[i]))
      && m.cols[c][n] == LastPresent(f.index, f.cols[c], MonthOf(f.index[i]))
      && ((forall j :: i < j < |f.index| ==> MonthOf(f.index[j]) != MonthOf(f.index[i])) && f.cols[c][i].Some?
          ==> m.cols[c][n] == f.cols[c][i])
  {
    MonthPosition(f.index, i);
    var mo := MonthOf(f.index[i]);
    var n := mo - MonthOf(f.index[0]);
    var col := ToMonthlyLast(f).cols[c];
    assert col == MonthlyLast(f.index, f.cols[c]);
    assert col[n] == LastPresent(f.index, f.cols[c], mo);
    if (forall j :: i < j < |f.index| ==> MonthOf(f.index[j]) != mo) && f.cols[c][i].Some? {
      LastPresentIsLast(f.index, f.cols[c], mo, i);
    }
  }

  /** A month between observations resamples to missing in every column. */
  lemma EmptyMonthIsMissing(f: Frame, n: int, c: int)
    requires IsFrame(f) && 0 <= c < |f.cols|
    requires 0 <= n < |ToMonthlyLast(f).index|
    requires forall i :: 0 <= i < |f.index| ==> MonthOf(f.index[i]) != MonthOf(f.index[0]) + n
    ensures ToMonthlyLast(f).cols[c][n].None?
  {
    LastPresentNone(f.index, f.cols[c], MonthOf(f.index[0]) + n);
  }

  /** One simple return: (cur - prev) / prev, missing when either price is
      missing or the previous price is zero. */
  function Return(prev: Option<real>, cur: Option<real>): Option<real> {
    if prev.Some? && cur.Some? && prev.value != 0.0 then Some((cur.value - prev.value) / prev.value)
    else None
  }

  /** pct_change() on one column: the first row has no predecessor. */
  function PctChange(vals: seq<Option<real>>): (r: seq<Option<real>>)
    ensures |r| == |vals|
  {
    seq(|vals|, t requires 0 <= t < |vals| => if t == 0 then None else Return(vals[t - 1], vals[t]))
  }

  /** compute_returns: prices.pct_change(), column by column. */
  function ComputeReturns(f: Frame): (r: Frame)
    requires IsFrame(f)
    ensures IsFrame(r)
  {
    Frame(f.index, f.names, seq(|f.cols|, c requires 0 <= c < |f.cols| => PctChange(f.cols[c])))
  }

  /** The returns frame has the prices' dates and columns; its first row is
      missing everywhere; every later cell whose two prices are present, with
      a non-zero earlier one, is the simple return between them. */
  lemma ReturnsFacts(f: Frame, t: int, c: int)
    requires IsFrame(f) && 0 <= t < |f.index| && 0 <= c < |f.cols|
    ensures var r := ComputeReturns(f);
      && r.index == f.index && r.names == f.names && |r.cols[c]| == |f.index|
      && (t == 0 ==> r.cols[c][t].None?)
      && (t > 0 && f.cols[c][t - 1].Some? && f.cols[c][t].Some? && f.cols[c][t - 1].value != 0.0 ==>
            r.cols[c][t] == Some((f.cols[c][t].value - f.cols[c][t - 1].value) / f.cols[c][t - 1].value))
  {
  }

  /** A return lets the later price be recovered from the earlier one. */
  lemma ReturnInverts(prev: Option<real>, cur: Option<real>)
    requires Return(prev, cur).Some?
    ensures cur.value == prev.value * (1.0 + Return(prev, cur).value)
  {
    var p, q := prev.value, cur.value;
    assert (q - p) / p * p == q - p;
  }

  /** Price `p0` compounded by the returns of rows 1..t. */
  function Compounded(p0: real, rets: seq<Option<real>>, t: nat): real
    requires t < |rets|
    requires forall s :: 1 <= s <= t ==> rets[s].Some?
  {
    if t == 0 then p0 else Compounded(p0, rets, t - 1) * (1.0 + rets[t].value)
  }

  /** Compounding the returns reproduces the price path: with every price up
      to row t present and non-zero, price 0 compounded by the returns of rows
      1..t is price t. */
  lemma ReturnsCompound(vals: seq<Option<real>>, t: nat)
    requires t < |vals|
    requires forall s :: 0 <= s <= t ==> vals[s].Some? && vals[s].value != 0.0
    ensures forall s :: 1 <= s <= t ==> PctChange(vals)[s].Some?
    ensures Compounded(vals[0].value, PctChange(vals), t) == vals[t].value
  {
    var r := PctChange(vals);
    forall s | 1 <= s <= t ensures IsStep(vals[s - 1], vals[s], r[s]) {
      ReturnStep(vals, s);
    }
    StepsCompound(vals, r, t);
  }

  /** The price moves from `prev` to `cur` by the return `ret`. */
  predicate IsStep(prev: Option<real>, cur: Option<real>, ret: Option<real>) {
    prev.Some? && cur.Some? && ret.Some? && cur.value == prev.value * (1.0 + ret.value)
  }

  /** A price path whose every step is price times one plus the return is
      the compounded product of those returns. */
  lemma {:induction false} StepsCompound(vals: seq<Option<real>>, rets: seq<Option<real>>, t: nat)
    requires t < |vals| && t < |rets| && vals[0].Some?
    requires forall s :: 1 <= s <= t ==> IsStep(vals[s - 1], vals[s], rets[s])
    ensures forall s :: 1 <= s <= t ==> rets[s].Some?
    ensures vals[t].Some? && Compounded(vals[0].value, rets, t) == vals[t].value
  {
    if t > 0 {
      StepsCompound(vals, rets, t - 1);
      assert IsStep(vals[t - 1], vals[t], rets[t]);
      CompoundStep(Compounded(vals[0].value, rets, t - 1), vals[t - 1].value, vals[t].value, rets[t].value);
    }
  }

  /** The return of row t turns price t - 1 into price t. */
  lemma ReturnStep(vals: seq<Option<real>>, t: nat)
    requires 0 < t < |vals|
    requires vals[t - 1].Some? && vals[t - 1].value != 0.0 && vals[t].Some?
    ensures IsStep(vals[t - 1], vals[t], PctChange(vals)[t])
  {
    assert PctChange(vals)[t] == Return(vals[t - 1], vals[t]);
    ReturnInverts(vals[t - 1], vals[t]);
  }

  lemma CompoundStep(c: real, p: real, q: real, x: real)
    requires c == p && q == p * (1.0 + x)
    ensures c * (1.0 + x) == q
  {
  }
}
