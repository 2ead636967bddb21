/** The comparison script (`compare_hv_with_atm_iv.py`): its own variant of
  `vol_by_historical_volatility`, which applies no date filter, keeps the
  volatility as a fraction and returns the `(Timestamp, hv_vol)` rows, and
  the one-minute bucketing of both the IV log and the volatility series.
 */
module CompareHv {
  import opened Wrappers
  import opened RealMath
  import opened TimeSeries
  import opened Resampling
  import opened Volatility
  import opened HistoricalVolatility

  /** `vol_by_historical_volatility(data, period)` of the comparison script. */
  function HvFractionRows(m: Analytic, prices: seq<Sample>, period: int): (r: Result<seq<Sample>, HvError>)
    ensures r.Err? <==> period < 0
  {
    var s := SortByTime(prices);
    var col :- HvColumn(m, s, SamplesPerMinute * period);
    Ok(Defined(s, col))
  }

  /** The parsed IV rows bucketed by the minute. */
  function MinuteIv(rows: seq<RawRow>): seq<Bucket>
  {
    Resample(Numeric(rows), SecondsPerMinute).value
  }

  /** A volatility series bucketed by the minute, whatever its lookback. */
  function MinuteHv(m: Analytic, prices: seq<Sample>, period: int): (r: Result<seq<Bucket>, HvError>)
    ensures r.Err? <==> period < 0
  {
    var rows :- HvFractionRows(m, prices, period);
    Ok(Resample(rows, SecondsPerMinute).value)
  }

  /** On prices dated at or after `StartDate`, where the backtest's date
      filter removes nothing, the backtest's percentages are exactly one
      hundred times the comparison script's fractions. */
  lemma PercentIsHundredTimesFraction(m: Analytic, prices: seq<Sample>, period: int)
    requires forall i :: 0 <= i < |prices| ==> StartDate <= prices[i].t
    ensures HvRows(m, prices, period).Ok? == HvFractionRows(m, prices, period).Ok?
    ensures HvRows(m, prices, period).Ok? ==>
            HvRows(m, prices, period).value == ScaleSamples(HvFractionRows(m, prices, period).value, 100.0)
  {
    SinceKeepsLaterRows(prices, StartDate);
    if 0 <= period {
      var s := SortByTime(prices);
      DefinedScales(s, HvColumn(m, s, SamplesPerMinute * period).value, 100.0);
    }
  }

  /** Hence their minute buckets differ by the same factor of one hundred. */
  lemma MinuteBucketsScale(m: Analytic, prices: seq<Sample>, period: int)
    requires forall i :: 0 <= i < |prices| ==> StartDate <= prices[i].t
    requires 0 <= period
    ensures Resample(HvRows(m, prices, period).value, SecondsPerMinute).value ==
            ScaleBuckets(MinuteHv(m, prices, period).value, 100.0)
  {
    PercentIsHundredTimesFraction(m, prices, period);
    ResampleScales(HvFractionRows(m, prices, period).value, SecondsPerMinute, 100.0);
  }

  /** Every price row takes part, whatever its date: with positive prices and
      a window of `2 <= 6 * period` returns, `n` rows leave `n - 6 * period`. */
  lemma FractionRowCount(m: Analytic, prices: seq<Sample>, period: int)
    requires forall i :: 0 <= i < |prices| ==> 0.0 < prices[i].v
    requires 2 <= SamplesPerMinute * period <= |prices|
    ensures |HvFractionRows(m, prices, period).value| == |prices| - SamplesPerMinute * period
  {
    var s := SortByTime(prices);
    forall i | 0 <= i < |s|
      ensures 0.0 < s[i].v
    {
      SortedRowIn(prices, i);
    }
    var w := SamplesPerMinute * period;
    HvDefinedRows(m, s, w);
  }

  /** Every parsed IV row lands in a minute bucket that holds a number. */
  lemma MinuteIvCoversRows(rows: seq<RawRow>)
    ensures var b := MinuteIv(rows);
            forall t, v :: RawRow(t, Some(v)) in rows ==>
              exists j :: 0 <= j < |b| && b[j].t <= t < b[j].t + SecondsPerMinute && b[j].mean.Some?
  {
    var s := Numeric(rows);
    if |s| != 0 {
      ResampleCoversRows(s, StartOfDay(EarliestTime(s)), SecondsPerMinute);
      var b := MinuteIv(rows);
      forall t, v | RawRow(t, Some(v)) in rows
        ensures exists j :: 0 <= j < |b| && b[j].t <= t < b[j].t + SecondsPerMinute && b[j].mean.Some?
      {
        assert Sample(t, v) in s;
        var i :| 0 <= i < |s| && s[i] == Sample(t, v);
      }
    }
  }
}
