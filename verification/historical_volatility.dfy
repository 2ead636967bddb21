/** The two series of the historical-volatility backtest
  (`historical_volaility.py`), both restricted to rows at or after
  `StartDate` and bucketed by the mean over `period` minutes:

  - `atm_iv`: the at-the-money implied volatilities that parse as numbers;
  - `vol_by_historical_volatility`: the annualised rolling volatility of the
    price ratio, in percent, over a window of `6 * period` returns.
 */
module HistoricalVolatility {
  import opened Wrappers
  import opened RealMath
  import opened Statistics
  import opened TimeSeries
  import opened Resampling
  import opened Volatility

  /** The bucket width of a lookback of `period` minutes, in seconds. */
  function LookbackWidth(period: int): int
  {
    SecondsPerMinute * period
  }

  /** The rows of the IV log that `atm_iv` keeps before bucketing. */
  function AtmIvRows(rows: seq<RawRow>): (r: seq<Sample>)
    ensures forall t, v :: Sample(t, v) in r <==> RawRow(t, Some(v)) in rows && StartDate <= t
  {
    Numeric(RawSince(rows, StartDate))
  }

  /** `atm_iv(data, period)`: a non-positive period fails once some parsed
      IV row is dated on or after the start date; with none, resampling
      never looks at the period and succeeds. */
  function AtmIv(rows: seq<RawRow>, period: int): (r: Result<seq<Bucket>, ResampleError>)
    ensures r.Err? <==> period <= 0 && exists t, v :: RawRow(t, Some(v)) in rows && StartDate <= t
  {
    var s := AtmIvRows(rows);
    assert forall t, v :: RawRow(t, Some(v)) in rows && StartDate <= t ==> Sample(t, v) in s;
    assert 0 < |s| ==> RawRow(s[0].t, Some(s[0].v)) in rows;
    Resample(s, LookbackWidth(period))
  }

  /** The frame `vol_by_historical_volatility` builds before bucketing: the
      dated, time-sorted rows carrying their volatility in percent, rows
      without one dropped. */
  function HvRows(m: Analytic, prices: seq<Sample>, period: int): (r: Result<seq<Sample>, HvError>)
    ensures r.Err? <==> period < 0
  {
    var s := SortByTime(Since(prices, StartDate));
    var col :- HvColumn(m, s, SamplesPerMinute * period);
    Ok(Defined(s, ScaleColumn(col, 100.0)))
  }

  /** `vol_by_historical_volatility(data, period)`. A negative period is a
      negative window, which pandas rejects; a zero period leaves every
      rolling deviation NaN, so nothing survives `dropna` and the frame
      resamples to an empty one. */
  function VolByHistoricalVolatility(m: Analytic, prices: seq<Sample>, period: int): (r: Result<seq<Bucket>, HvError>)
    ensures r.Err? <==> period < 0
    ensures period == 0 ==> r == Ok([])
  {
    HvRowsOfZeroPeriod(m, prices);
    var rows :- HvRows(m, prices, period);
    match Resample(rows, LookbackWidth(period))
    case Ok(b) => Ok(b)
    case Err(e) => Err(ResampleFailed(e))
  }

  /** With a zero window no row has a deviation, so `dropna` keeps nothing. */
  lemma HvRowsOfZeroPeriod(m: Analytic, prices: seq<Sample>)
    ensures HvRows(m, prices, 0) == Ok([])
  {
    var s := SortByTime(Since(prices, StartDate));
    var col := ScaleColumn(HvColumn(m, s, 0).value, 100.0);
    CountAfterThreshold(col, |col|);
  }

  /** The rows of the volatility frame are dated, in time order, come from
      price rows, and carry non-negative percentages. */
  lemma HvRowsFacts(m: Analytic, prices: seq<Sample>, period: int)
    requires Lawful(m)
    requires 0 <= period
    ensures var r := HvRows(m, prices, period).value;
            && SortedByTime(r)
            && (forall i :: 0 <= i < |r| ==> StartDate <= r[i].t && 0.0 <= r[i].v)
            && (forall i :: 0 <= i < |r| ==> exists x :: x in prices && x.t == r[i].t)
  {
    var f := Since(prices, StartDate);
    var s := SortByTime(f);
    var col := HvColumn(m, s, SamplesPerMinute * period).value;
    var pct := ScaleColumn(col, 100.0);
    var r := Defined(s, pct);
    assert HvRows(m, prices, period).value == r;
    DefinedKeepsOrder(s, pct);
    HvNonNegative(m, s, SamplesPerMinute * period);
    forall i | 0 <= i < |r|
      ensures StartDate <= r[i].t && 0.0 <= r[i].v
      ensures exists x :: x in prices && x.t == r[i].t
    {
      assert r[i] in r;
      var j :| 0 <= j < |s| && pct[j].Some? && r[i] == Sample(s[j].t, pct[j].value);
      SortedRowIn(f, j);
      Statistics.TimesNonNegative(col[j].value, 100.0);
    }
  }


  /** With every dated price positive and a window of `2 <= 6 * period`
      returns, `n` dated prices leave `n - 6 * period` rows after `dropna`. */
  lemma HvRowCount(m: Analytic, prices: seq<Sample>, period: int)
    requires forall i :: 0 <= i < |prices| && StartDate <= prices[i].t ==> 0.0 < prices[i].v
    requires 2 <= SamplesPerMinute * period <= |Since(prices, StartDate)|
    ensures |HvRows(m, prices, period).value| == |Since(prices, StartDate)| - SamplesPerMinute * period
  {
    var f := Since(prices, StartDate);
    var s := SortByTime(f);
    forall i | 0 <= i < |s|
      ensures 0.0 < s[i].v
    {
      SortedRowIn(f, i);
    }
    var w := SamplesPerMinute * period;
    HvDefinedRows(m, s, w);
    var pct := ScaleColumn(HvColumn(m, s, w).value, 100.0);
    CountAfterThreshold(pct, w);
    assert HvRows(m, prices, period).value == Defined(s, pct);
  }

  /** `hv_vol` row by row: with every dated price positive and a window of
      `2 <= w = 6 * period` returns, the frame is the sorted dated rows from
      row `w` on, in order, each carrying one hundred times the sample
      deviation of the `w` log returns ending there, annualised by
      `sqrt(3153600)`; with at most `w` dated rows it is empty. */
  lemma HvRowsValue(m: Analytic, prices: seq<Sample>, period: int)
    requires forall i :: 0 <= i < |prices| && StartDate <= prices[i].t ==> 0.0 < prices[i].v
    requires 2 <= SamplesPerMinute * period
    ensures var s := SortByTime(Since(prices, StartDate));
            forall k :: 0 <= k < |s| ==> 0.0 < s[k].v
    ensures var s := SortByTime(Since(prices, StartDate));
            var w := SamplesPerMinute * period;
            HvRows(m, prices, period).value ==
              if |s| < w then []
              else seq(|s| - w, k requires 0 <= k < |s| - w =>
                     Sample(s[w + k].t, HvPercent(m, s, w, w + k)))
  {
    var s := SortByTime(Since(prices, StartDate));
    DatedPricesPositive(prices);
    var w := SamplesPerMinute * period;
    PercentRowsValue(m, s, w);
    assert HvRows(m, prices, period) == Ok(Defined(s, ScaleColumn(HvColumn(m, s, w).value, 100.0)));
  }

  /** Sorting keeps the dated prices positive. */
  lemma DatedPricesPositive(prices: seq<Sample>)
    requires forall i :: 0 <= i < |prices| && StartDate <= prices[i].t ==> 0.0 < prices[i].v
    ensures forall k :: 0 <= k < |SortByTime(Since(prices, StartDate))| ==>
              0.0 < SortByTime(Since(prices, StartDate))[k].v
  {
    var f := Since(prices, StartDate);
    var s := SortByTime(f);
    forall k | 0 <= k < |s|
      ensures 0.0 < s[k].v
    {
      SortedRowIn(f, k);
    }
  }

  /** A constant positive price gives zero volatility on every kept row. */
  lemma HvOfConstantPrice(m: Analytic, prices: seq<Sample>, period: int, c: real)
    requires Lawful(m)
    requires 0.0 < c
    requires 0 <= period
    requires forall i :: 0 <= i < |prices| ==> prices[i].v == c
    ensures forall i :: 0 <= i < |HvRows(m, prices, period).value| ==> HvRows(m, prices, period).value[i].v == 0.0
  {
    var f := Since(prices, StartDate);
    var s := SortByTime(f);
    forall i | 0 <= i < |s|
      ensures s[i].v == c
    {
      SortedRowIn(f, i);
    }
    HvOfConstant(m, s, SamplesPerMinute * period, c);
    var col := HvColumn(m, s, SamplesPerMinute * period).value;
    var r := HvRows(m, prices, period).value;
    forall i | 0 <= i < |r|
      ensures r[i].v == 0.0
    {
      assert r[i] in r;
    }
  }
}
