/** The historical-volatility estimator shared by both backtest scripts:

  1. `np.log(price / price.shift(1))`, the log return of each row against
     the row before it;
  2. `rolling(window = w).std()`, the sample standard deviation of the last
     `w` returns, NaN until a full window of numbers is available;
  3. multiplication by `sqrt(365 * 24 * 60 * 6)`, one sampling interval
     being ten seconds;
  4. `dropna`, keeping the rows whose volatility is a number.

  A column aligned with the rows of a frame is a `seq<Option<real>>` of the
  frame's length, `None` standing for NaN (and for the infinities numpy
  produces on a zero price, which the rolling deviation turns into NaN).
 */
module Volatility {
  import opened Wrappers
  import opened RealMath
  import opened Statistics
  import opened TimeSeries
  import opened Resampling

  /** Ten-second sampling intervals in a 365-day year. */
  const IntervalsPerYear: int := 365 * 24 * 60 * 6

  /** Returns per minute of lookback: `6 * period` returns span `period` minutes. */
  const SamplesPerMinute: int := 6

  datatype HvError =
    | NegativeWindow
    | ResampleFailed(cause: ResampleError)

  /** The log return from `prev` to `cur`; `None` where numpy yields NaN or
      an infinity (a zero or sign-changing price). */
  function LogReturn(m: Analytic, prev: real, cur: real): Option<real>
  {
    if prev != 0.0 && cur / prev > 0.0 then Some(m.ln(cur / prev)) else None
  }

  /** The `log_return` column: NaN on the first row, which has no predecessor. */
  function LogReturns(m: Analytic, s: seq<Sample>): (r: seq<Option<real>>)
    ensures |r| == |s|
  {
    seq(|s|, i requires 0 <= i < |s| => if i == 0 then None else LogReturn(m, s[i - 1].v, s[i].v))
  }

  /** The window of `w` entries ending at row `i` lies inside the column and
      holds numbers only. */
  predicate FullWindow(xs: seq<Option<real>>, i: int, w: int)
  {
    && 0 < w
    && w - 1 <= i < |xs|
    && forall j :: i - w < j <= i ==> xs[j].Some?
  }

  /** The numbers of a column without NaN. */
  function Values(ws: seq<Option<real>>): (r: seq<real>)
    requires forall j :: 0 <= j < |ws| ==> ws[j].Some?
    ensures |r| == |ws|
    ensures forall j :: 0 <= j < |ws| ==> r[j] == ws[j].value
  {
    seq(|ws|, j requires 0 <= j < |ws| => ws[j].value)
  }

  /** The entries `i - w + 1 .. i` of a column, all of them numbers. */
  function Window(xs: seq<Option<real>>, i: int, w: int): (r: seq<real>)
    requires FullWindow(xs, i, w)
    ensures |r| == w
  {
    var ws := xs[i - w + 1 .. i + 1];
    assert forall j :: 0 <= j < |ws| ==> ws[j] == xs[i - w + 1 + j];
    Values(ws)
  }

  /** `rolling(window = w).std()`: a row has a value when a full window ends
      there; pandas' sample deviation needs at least two entries. */
  function RollingStd(m: Analytic, xs: seq<Option<real>>, w: int): (r: seq<Option<real>>)
    ensures |r| == |xs|
  {
    seq(|xs|, i requires 0 <= i < |xs| =>
      if 2 <= w && FullWindow(xs, i, w) then Some(m.sqrt(SampleVariance(Window(xs, i, w)))) else None)
  }

  /** Every number of a column multiplied by `k`; NaN stays NaN. */
  function ScaleColumn(col: seq<Option<real>>, k: real): (r: seq<Option<real>>)
    ensures |r| == |col|
    ensures forall i :: 0 <= i < |col| ==> r[i].Some? == col[i].Some?
    ensures forall i :: 0 <= i < |col| && col[i].Some? ==> r[i].value == col[i].value * k
  {
    seq(|col|, i requires 0 <= i < |col| => if col[i].Some? then Some(Times(col[i].value, k)) else None)
  }

  /** `np.sqrt(intervals_per_year)`. */
  function AnnualFactor(m: Analytic): real
  {
    m.sqrt(IntervalsPerYear as real)
  }

  /** The annualised rolling volatility of the rows of `s`, as a fraction:
      `rolling_vol * np.sqrt(intervals_per_year)`. pandas rejects a negative
      window. */
  function HvColumn(m: Analytic, s: seq<Sample>, w: int): (r: Result<seq<Option<real>>, HvError>)
    ensures r.Err? <==> w < 0
    ensures r.Ok? ==> |r.value| == |s|
  {
    if w < 0 then Err(NegativeWindow)
    else Ok(ScaleColumn(RollingStd(m, LogReturns(m, s), w), AnnualFactor(m)))
  }

  function CountDefined(col: seq<Option<real>>): nat
  {
    if |col| == 0 then 0 else (if col[0].Some? then 1 else 0) + CountDefined(col[1..])
  }

  /** `dropna`: the rows of `s` whose entry in `col` is a number, carrying that
      number, in row order. */
  function Defined(s: seq<Sample>, col: seq<Option<real>>): (r: seq<Sample>)
    requires |s| == |col|
    ensures |r| == CountDefined(col)
    ensures forall x :: x in r <==>
              exists i :: 0 <= i < |s| && col[i].Some? && x == Sample(s[i].t, col[i].value)
  {
    if |s| == 0 then []
    else
      var rest := Defined(s[1..], col[1..]);
      assert forall i :: 1 <= i < |s| ==> s[i] == s[1..][i - 1] && col[i] == col[1..][i - 1];
      if col[0].Some? then
        assert forall x :: x in [Sample(s[0].t, col[0].value)] + rest <==> x == Sample(s[0].t, col[0].value) || x in rest;
        [Sample(s[0].t, col[0].value)] + rest
      else rest
  }

  /** The rows kept by `dropna` are in the frame's time order. */
  lemma {:induction false} DefinedKeepsOrder(s: seq<Sample>, col: seq<Option<real>>)
    requires |s| == |col|
    requires SortedByTime(s)
    ensures SortedByTime(Defined(s, col))
    ensures forall x :: x in Defined(s, col) && 0 < |s| ==> s[0].t <= x.t
  {
    if |s| != 0 {
      DefinedKeepsOrder(s[1..], col[1..]);
      var rest := Defined(s[1..], col[1..]);
      forall x | x in rest
        ensures s[0].t <= x.t
      {
        var i :| 0 <= i < |s| - 1 && col[1..][i].Some? && x == Sample(s[1..][i].t, col[1..][i].value);
      }
    }
  }

  /** Scaling a column before `dropna` is scaling the surviving rows after it. */
  lemma {:induction false} DefinedScales(s: seq<Sample>, col: seq<Option<real>>, k: real)
    requires |s| == |col|
    ensures Defined(s, ScaleColumn(col, k)) == ScaleSamples(Defined(s, col), k)
  {
    if |s| != 0 {
      DefinedScales(s[1..], col[1..], k);
      assert ScaleColumn(col, k)[1..] == ScaleColumn(col[1..], k);
      if col[0].Some? {
        ScaleSamplesTail(Defined(s, col), k);
      }
    }
  }

  /** A column that is NaN exactly on its first `w` rows keeps `|col| - w` rows. */
  lemma {:induction false} CountAfterThreshold(col: seq<Option<real>>, w: int)
    requires w <= |col|
    requires forall i :: 0 <= i < |col| ==> (col[i].Some? <==> w <= i)
    ensures CountDefined(col) == if w < 0 then |col| else |col| - w
  {
    if |col| != 0 {
      assert forall i :: 0 <= i < |col| - 1 ==> col[1..][i] == col[i + 1];
      CountAfterThreshold(col[1..], w - 1);
    }
  }

  /** With no zero or sign change among the prices, every row but the first
      has a log return. */
  lemma PositivePricesGiveReturns(m: Analytic, s: seq<Sample>)
    requires forall i :: 0 <= i < |s| ==> 0.0 < s[i].v
    ensures forall i :: 0 <= i < |s| ==> (LogReturns(m, s)[i].Some? <==> 1 <= i)
  {
    forall i | 1 <= i < |s|
      ensures LogReturns(m, s)[i].Some?
    {
      var a, b := s[i - 1].v, s[i].v;
      assert 0.0 < b / a by {
        assert b / a * a == b;
      }
    }
  }

  /** A constant price has a zero log return on every row but the first. */
  lemma ConstantPricesGiveZeroReturns(m: Analytic, s: seq<Sample>, c: real)
    requires Lawful(m)
    requires 0.0 < c
    requires forall i :: 0 <= i < |s| ==> s[i].v == c
    ensures forall i :: 1 <= i < |s| ==> LogReturns(m, s)[i] == Some(0.0)
  {
    assert c / c == 1.0;
  }

  /** Once returns exist from row 1 on, row `i` has a rolling deviation
      exactly when `2 <= w <= i`: the first full window of `w` returns ends
      at row `w`, because row 0 has no return. */
  lemma RollingDefinedRows(m: Analytic, xs: seq<Option<real>>, w: int)
    requires forall i :: 0 <= i < |xs| ==> (xs[i].Some? <==> 1 <= i)
    ensures forall i :: 0 <= i < |xs| ==> (RollingStd(m, xs, w)[i].Some? <==> 2 <= w <= i)
  {
    forall i | 0 <= i < |xs|
      ensures RollingStd(m, xs, w)[i].Some? <==> 2 <= w <= i
    {
      var r := RollingStd(m, xs, w);
      assert r[i].Some? <==> 2 <= w && FullWindow(xs, i, w);
      if 2 <= w <= i {
        assert forall j :: i - w < j <= i ==> xs[j].Some?;
        assert FullWindow(xs, i, w);
      } else if 2 <= w && w - 1 == i {
        assert !xs[0].Some?;
        assert !FullWindow(xs, i, w);
      } else {
        assert !FullWindow(xs, i, w) || w < 2;
      }
    }
  }

  /** Under the square-root laws every rolling deviation is non-negative. */
  lemma RollingNonNegative(m: Analytic, xs: seq<Option<real>>, w: int)
    requires Lawful(m)
    ensures forall i :: 0 <= i < |xs| && RollingStd(m, xs, w)[i].Some? ==> 0.0 <= RollingStd(m, xs, w)[i].value
  {
    forall i | 0 <= i < |xs| && RollingStd(m, xs, w)[i].Some?
      ensures 0.0 <= RollingStd(m, xs, w)[i].value
    {
      SqrtNonNegative(m, SampleVariance(Window(xs, i, w)));
    }
  }

  /** A window of zero returns has zero deviation. */
  lemma RollingOfZeros(m: Analytic, xs: seq<Option<real>>, w: int)
    requires Lawful(m)
    requires forall i :: 0 <= i < |xs| && xs[i].Some? ==> xs[i].value == 0.0
    ensures forall i :: 0 <= i < |xs| && RollingStd(m, xs, w)[i].Some? ==> RollingStd(m, xs, w)[i].value == 0.0
  {
    forall i | 0 <= i < |xs| && RollingStd(m, xs, w)[i].Some?
      ensures RollingStd(m, xs, w)[i].value == 0.0
    {
      var ws := Window(xs, i, w);
      assert forall j :: 0 <= j < |ws| ==> ws[j] == xs[i - w + 1 + j].value;
      ConstantSample(ws, 0.0);
    }
  }

  /** The annualising factor is positive. */
  lemma AnnualFactorPositive(m: Analytic)
    requires Lawful(m)
    ensures 0.0 < AnnualFactor(m)
  {
    SqrtPositive(m, IntervalsPerYear as real);
  }

  /** The log returns ending at row `i` of a positive price series. */
  function ReturnWindow(m: Analytic, s: seq<Sample>, i: int, w: int): (r: seq<real>)
    requires forall k :: 0 <= k < |s| ==> 0.0 < s[k].v
    requires 0 <= w <= i < |s|
    ensures |r| == w
    ensures forall k :: 0 <= k < w ==> r[k] == m.ln(s[i - w + 1 + k].v / s[i - w + k].v)
  {
    seq(w, k requires 0 <= k < w => m.ln(s[i - w + 1 + k].v / s[i - w + k].v))
  }

  lemma PositiveRatio(a: real, b: real)
    requires 0.0 < a && 0.0 < b
    ensures 0.0 < b / a
  {
    assert b / a * a == b;
  }

  /** With positive prices, the window of the return column is the window of
      log returns. */
  lemma WindowOfReturns(m: Analytic, s: seq<Sample>, i: int, w: int)
    requires forall k :: 0 <= k < |s| ==> 0.0 < s[k].v
    requires 1 <= w <= i < |s|
    ensures FullWindow(LogReturns(m, s), i, w)
    ensures Window(LogReturns(m, s), i, w) == ReturnWindow(m, s, i, w)
  {
    var xs := LogReturns(m, s);
    forall j | 1 <= j < |s|
      ensures xs[j] == Some(m.ln(s[j].v / s[j - 1].v))
    {
      PositiveRatio(s[j - 1].v, s[j].v);
    }
    assert FullWindow(xs, i, w);
    var ws, rs := Window(xs, i, w), ReturnWindow(m, s, i, w);
    forall k | 0 <= k < w
      ensures ws[k] == rs[k]
    {
      assert ws[k] == xs[i - w + 1 + k].value;
    }
  }

  /** For positive prices, row `i` of the estimator with `2 <= w <= i` is
      the sample deviation (`ddof = 1`) of the `w` log returns ending at row
      `i`, each against the row before it, times `sqrt(3153600)`. */
  lemma HvValue(m: Analytic, s: seq<Sample>, w: int, i: int)
    requires forall k :: 0 <= k < |s| ==> 0.0 < s[k].v
    requires 2 <= w <= i < |s|
    ensures HvColumn(m, s, w).Ok?
    ensures HvColumn(m, s, w).value[i] ==
            Some(m.sqrt(SampleVariance(ReturnWindow(m, s, i, w))) * m.sqrt(3153600.0))
  {
    WindowOfReturns(m, s, i, w);
    var xs := LogReturns(m, s);
    var rolling := RollingStd(m, xs, w);
    var sd := m.sqrt(SampleVariance(ReturnWindow(m, s, i, w)));
    assert rolling[i] == Some(m.sqrt(SampleVariance(Window(xs, i, w))));
    assert rolling[i] == Some(sd);
    var af := AnnualFactor(m);
    assert af == m.sqrt(3153600.0) by {
      assert IntervalsPerYear as real == 3153600.0;
    }
    var col := ScaleColumn(rolling, af);
    assert col[i] == Some(Times(sd, af));
    EqualProducts(sd, m.sqrt(SampleVariance(ReturnWindow(m, s, i, w))), af, m.sqrt(3153600.0));
    assert HvColumn(m, s, w) == Ok(col);
    assert HvColumn(m, s, w).value[i] == Some(Times(sd, af));
    assert Times(sd, af) == m.sqrt(SampleVariance(ReturnWindow(m, s, i, w))) * m.sqrt(3153600.0);
    var e := m.sqrt(SampleVariance(ReturnWindow(m, s, i, w))) * m.sqrt(3153600.0);
    assert HvColumn(m, s, w).value[i] == Some(e);
  }

  /** Products of equal factors are equal; the solver does not always see it
      through nonlinear terms. */
  lemma EqualProducts(a: real, b: real, c: real, d: real)
    requires a == b && c == d
    ensures Times(a, c) == b * d
  {
  }

  /** The percentage the estimator reports on row `i` of a positive price
      series: one hundred times the sample deviation of the `w` log returns
      ending there, annualised by `sqrt(3153600)`. */
  function HvPercent(m: Analytic, s: seq<Sample>, w: int, i: int): real
    requires forall k :: 0 <= k < |s| ==> 0.0 < s[k].v
    requires 2 <= w <= i < |s|
  {
    m.sqrt(SampleVariance(ReturnWindow(m, s, i, w))) * m.sqrt(3153600.0) * 100.0
  }

  /** Row `j` of the percentage column, from `HvValue`. */
  lemma PercentAt(m: Analytic, s: seq<Sample>, w: int, j: int)
    requires forall k :: 0 <= k < |s| ==> 0.0 < s[k].v
    requires 2 <= w <= j < |s|
    ensures HvColumn(m, s, w).Ok?
    ensures ScaleColumn(HvColumn(m, s, w).value, 100.0)[j] == Some(HvPercent(m, s, w, j))
  {
    HvValue(m, s, w, j);
    var col := HvColumn(m, s, w).value;
    var fraction := m.sqrt(SampleVariance(ReturnWindow(m, s, j, w))) * m.sqrt(3153600.0);
    assert ScaleColumn(col, 100.0)[j] == Some(Times(col[j].value, 100.0));
    EqualProducts(col[j].value, fraction, 100.0, 100.0);
    assert HvPercent(m, s, w, j) == fraction * 100.0;
  }

  /** `dropna` on a column that is NaN exactly before row `w` keeps rows
      `w, w + 1, ...` in order. */
  lemma {:induction false} DefinedFrom(s: seq<Sample>, col: seq<Option<real>>, w: nat)
    requires |s| == |col|
    requires w <= |s|
    requires forall i :: 0 <= i < |col| ==> (col[i].Some? <==> w <= i)
    ensures Defined(s, col) == seq(|s| - w, k requires 0 <= k < |s| - w => Sample(s[w + k].t, col[w + k].value))
    decreases |s|
  {
    if |s| != 0 {
      assert forall i :: 0 <= i < |col| - 1 ==> col[1..][i] == col[i + 1];
      if w == 0 {
        DefinedFrom(s[1..], col[1..], 0);
      } else {
        DefinedFrom(s[1..], col[1..], w - 1);
      }
    }
  }

  /** The percentage column is NaN exactly before row `w`. */
  lemma PercentColumnShape(m: Analytic, s: seq<Sample>, w: int)
    requires forall k :: 0 <= k < |s| ==> 0.0 < s[k].v
    requires 2 <= w
    ensures HvColumn(m, s, w).Ok?
    ensures |ScaleColumn(HvColumn(m, s, w).value, 100.0)| == |s|
    ensures forall i :: 0 <= i < |s| ==> (ScaleColumn(HvColumn(m, s, w).value, 100.0)[i].Some? <==> w <= i)
  {
    HvDefinedRows(m, s, w);
  }

  /** The rows kept from a series of at least `w` rows. */
  lemma {:induction false} PercentRowsFrom(m: Analytic, s: seq<Sample>, w: int)
    requires forall k :: 0 <= k < |s| ==> 0.0 < s[k].v
    requires 2 <= w <= |s|
    ensures HvColumn(m, s, w).Ok?
    ensures Defined(s, ScaleColumn(HvColumn(m, s, w).value, 100.0)) ==
            seq(|s| - w, k requires 0 <= k < |s| - w =>
              Sample(s[w + k].t, HvPercent(m, s, w, w + k)))
  {
    PercentColumnShape(m, s, w);
    var pct := ScaleColumn(HvColumn(m, s, w).value, 100.0);
    DefinedFrom(s, pct, w);
    var kept := Defined(s, pct);
    var expected := seq(|s| - w, k requires 0 <= k < |s| - w =>
                      Sample(s[w + k].t, HvPercent(m, s, w, w + k)));
    forall k | 0 <= k < |s| - w
      ensures kept[k] == expected[k]
    {
      PercentAt(m, s, w, w + k);
      assert kept[k] == Sample(s[w + k].t, pct[w + k].value);
    }
    assert kept == expected;
  }

  /** After `* 100` and `dropna`, a positive price series with `2 <= w`
      keeps exactly its rows from row `w` on, in order, each carrying one
      hundred times its annualised sample deviation; a series of fewer than
      `w` rows keeps none. */
  lemma {:induction false} PercentRowsValue(m: Analytic, s: seq<Sample>, w: int)
    requires forall k :: 0 <= k < |s| ==> 0.0 < s[k].v
    requires 2 <= w
    ensures Defined(s, ScaleColumn(HvColumn(m, s, w).value, 100.0)) ==
            if |s| < w then []
            else seq(|s| - w, k requires 0 <= k < |s| - w =>
                   Sample(s[w + k].t, HvPercent(m, s, w, w + k)))
  {
    if |s| < w {
      PercentColumnShape(m, s, w);
      CountAfterThreshold(ScaleColumn(HvColumn(m, s, w).value, 100.0), |s|);
    } else {
      PercentRowsFrom(m, s, w);
    }
  }

  /** Every annualised volatility is non-negative. */
  lemma HvNonNegative(m: Analytic, s: seq<Sample>, w: int)
    requires Lawful(m)
    ensures HvColumn(m, s, w).Ok? ==>
            forall i :: 0 <= i < |s| && HvColumn(m, s, w).value[i].Some? ==> 0.0 <= HvColumn(m, s, w).value[i].value
  {
    if 0 <= w {
      var rolling := RollingStd(m, LogReturns(m, s), w);
      RollingNonNegative(m, LogReturns(m, s), w);
      AnnualFactorPositive(m);
      forall i | 0 <= i < |s| && rolling[i].Some?
        ensures 0.0 <= Times(rolling[i].value, AnnualFactor(m))
      {
        TimesNonNegative(rolling[i].value, AnnualFactor(m));
      }
    }
  }

  /** For positive prices and `2 <= w`, row `i` keeps a volatility exactly
      when `w <= i`; so `n >= w` prices keep `n - w` rows after `dropna`. */
  lemma HvDefinedRows(m: Analytic, s: seq<Sample>, w: int)
    requires forall i :: 0 <= i < |s| ==> 0.0 < s[i].v
    requires 2 <= w
    ensures HvColumn(m, s, w).Ok?
    ensures forall i :: 0 <= i < |s| ==> (HvColumn(m, s, w).value[i].Some? <==> w <= i)
    ensures w <= |s| ==> CountDefined(HvColumn(m, s, w).value) == |s| - w
  {
    PositivePricesGiveReturns(m, s);
    RollingDefinedRows(m, LogReturns(m, s), w);
    if w <= |s| {
      CountAfterThreshold(HvColumn(m, s, w).value, w);
    }
  }

  /** A constant positive price has zero volatility on every row that has one. */
  lemma HvOfConstant(m: Analytic, s: seq<Sample>, w: int, c: real)
    requires Lawful(m)
    requires 0.0 < c
    requires forall i :: 0 <= i < |s| ==> s[i].v == c
    ensures HvColumn(m, s, w).Ok? ==>
            forall i :: 0 <= i < |s| && HvColumn(m, s, w).value[i].Some? ==> HvColumn(m, s, w).value[i].value == 0.0
  {
    if 0 <= w {
      ConstantPricesGiveZeroReturns(m, s, c);
      RollingOfZeros(m, LogReturns(m, s), w);
    }
  }
}
