/** The scoring grid of the historical-volatility backtest
  (`historical_volaility.py`, lines 67-85): for every lookback period, the
  volatility and IV series are built once; for every scaling factor the
  volatility buckets are multiplied by the factor, inner-joined with the IV
  buckets on the timestamp, and scored by `mean_squared_error` and its
  square root.

  `mean_squared_error` raises on an empty join and on a NaN in either
  column; the script does not catch it, so the first failing cell ends the
  whole grid.
 */
module Backtest {
  import opened Wrappers
  import opened RealMath
  import opened Statistics
  import opened TimeSeries
  import opened Resampling
  import opened Volatility
  import opened HistoricalVolatility

  /** A row of the merged frame: a timestamp with the adjusted volatility
      and the ATM IV bucketed at it. */
  datatype Pair = Pair(t: int, est: Option<real>, bench: Option<real>)

  datatype Score = Score(mse: real, rmse: real)

  datatype ScoreError = EmptyJoin | MissingValue

  datatype GridError =
    | SeriesFailed(hv: HvError)
    | IvFailed(iv: ResampleError)
    | ScoreFailed(score: ScoreError)

  /** One cell of the grid: lookback period, scaling factor and score. */
  datatype Cell = Cell(period: int, factor: real, score: Score)

  /** The rows of `b` stamped like `x`, each paired with `x`, in `b`'s order. */
  function Matches(x: Bucket, b: seq<Bucket>): (r: seq<Pair>)
    ensures forall p :: p in r <==> p.t == x.t && p.est == x.mean && Bucket(p.t, p.bench) in b
  {
    if |b| == 0 then []
    else
      var rest := Matches(x, b[1..]);
      assert forall y :: y in b <==> y == b[0] || y in b[1..];
      if b[0].t == x.t then
        assert forall p :: p in [Pair(x.t, x.mean, b[0].mean)] + rest <==> p == Pair(x.t, x.mean, b[0].mean) || p in rest;
        [Pair(x.t, x.mean, b[0].mean)] + rest
      else rest
  }

  /** `pd.merge(a, b, on='Timestamp', how='inner')`: every pair of rows with
      the same timestamp, in the left frame's order. */
  function InnerJoin(a: seq<Bucket>, b: seq<Bucket>): (r: seq<Pair>)
    ensures forall p :: p in r <==> Bucket(p.t, p.est) in a && Bucket(p.t, p.bench) in b
  {
    if |a| == 0 then []
    else
      var rest := InnerJoin(a[1..], b);
      assert forall y :: y in a <==> y == a[0] || y in a[1..];
      Matches(a[0], b) + rest
  }

  /** The indices from `i` on of the rows of `b` stamped `t`: each such row
      once, in row order. */
  function StampedRows(b: seq<Bucket>, t: int, i: nat): (r: seq<nat>)
    requires i <= |b|
    ensures forall j :: 0 <= j < |r| ==> i <= r[j] < |b| && b[r[j]].t == t
    ensures forall j, k :: 0 <= j < k < |r| ==> r[j] < r[k]
    ensures forall q :: i <= q < |b| && b[q].t == t ==> q in r
    decreases |b| - i
  {
    if i == |b| then []
    else
      var rest := StampedRows(b, t, i + 1);
      if b[i].t == t then [i] + rest else rest
  }

  /** `x` paired with the rows of `b` at the indices `idx`. */
  function PairsWith(x: Bucket, b: seq<Bucket>, idx: seq<nat>): (r: seq<Pair>)
    requires forall j :: 0 <= j < |idx| ==> idx[j] < |b|
    ensures |r| == |idx|
    ensures forall j :: 0 <= j < |idx| ==> r[j] == Pair(x.t, x.mean, b[idx[j]].mean)
  {
    seq(|idx|, j requires 0 <= j < |idx| => Pair(x.t, x.mean, b[idx[j]].mean))
  }

  lemma PairsWithCons(x: Bucket, b: seq<Bucket>, i: nat, rest: seq<nat>)
    requires i < |b|
    requires forall j :: 0 <= j < |rest| ==> rest[j] < |b|
    ensures PairsWith(x, b, [i] + rest) == [Pair(x.t, x.mean, b[i].mean)] + PairsWith(x, b, rest)
  {
    var p, q := PairsWith(x, b, [i] + rest), [Pair(x.t, x.mean, b[i].mean)] + PairsWith(x, b, rest);
    forall j | 0 <= j < |p|
      ensures p[j] == q[j]
    {
      if j != 0 {
        assert ([i] + rest)[j] == rest[j - 1];
      }
    }
  }

  lemma {:induction false} MatchesFrom(x: Bucket, b: seq<Bucket>, i: nat)
    requires i <= |b|
    ensures Matches(x, b[i..]) == PairsWith(x, b, StampedRows(b, x.t, i))
    decreases |b| - i
  {
    if i < |b| {
      MatchesFrom(x, b, i + 1);
      assert b[i..][0] == b[i];
      assert b[i..][1..] == b[i + 1..];
      var rest := StampedRows(b, x.t, i + 1);
      if b[i].t == x.t {
        assert StampedRows(b, x.t, i) == [i] + rest;
        PairsWithCons(x, b, i, rest);
      } else {
        assert StampedRows(b, x.t, i) == rest;
      }
    } else {
      assert b[i..] == [];
    }
  }

  /** The matches of `x` are the rows of `b` stamped like it, each once and
      in `b`'s order, each paired with `x`. */
  lemma MatchesInOrder(x: Bucket, b: seq<Bucket>)
    ensures Matches(x, b) == PairsWith(x, b, StampedRows(b, x.t, 0))
  {
    MatchesFrom(x, b, 0);
    assert b[0..] == b;
  }

  /** In a frame of distinct, increasing labels a row matches at most once. */
  lemma MatchesAtMostOnce(x: Bucket, b: seq<Bucket>)
    requires Increasing(b)
    ensures |Matches(x, b)| <= 1
  {
    MatchesInOrder(x, b);
    StampedRowsOnce(b, x.t, 0);
  }

  /** Increasing labels are distinct, so at most one row carries a label. */
  lemma {:induction false} StampedRowsOnce(b: seq<Bucket>, t: int, i: nat)
    requires Increasing(b)
    requires i <= |b|
    ensures |StampedRows(b, t, i)| <= 1
    decreases |b| - i
  {
    if i < |b| {
      StampedRowsOnce(b, t, i + 1);
      var rest := StampedRows(b, t, i + 1);
      assert rest != [] ==> b[i].t < b[rest[0]].t;
    }
  }

  /** Merged rows are stamped in increasing order.  */
  predicate PairsIncreasing(r: seq<Pair>)
  {
    forall i, j :: 0 <= i < j < |r| ==> r[i].t < r[j].t
  }

  /** Joining two frames with increasing labels, as the resampler returns
      them, gives every common timestamp exactly once, in time order. */
  lemma {:induction false} JoinIncreasing(a: seq<Bucket>, b: seq<Bucket>)
    requires Increasing(a) && Increasing(b)
    ensures PairsIncreasing(InnerJoin(a, b))
    decreases |a|
  {
    if |a| != 0 {
      JoinIncreasing(a[1..], b);
      var ms, rest := Matches(a[0], b), InnerJoin(a[1..], b);
      MatchesAtMostOnce(a[0], b);
      forall p | p in rest
        ensures a[0].t < p.t
      {
        var k :| 0 <= k < |a[1..]| && a[1..][k] == Bucket(p.t, p.est);
        assert a[k + 1].t == p.t;
      }
      var r := ms + rest;
      assert InnerJoin(a, b) == r;
      forall i, j | 0 <= i < j < |r|
        ensures r[i].t < r[j].t
      {
        if i < |ms| {
          assert r[i] in ms && r[j] == rest[j - |ms|];
          assert rest[j - |ms|] in rest;
        } else {
          assert r[i] == rest[i - |ms|] && r[j] == rest[j - |ms|];
        }
      }
    }
  }

  /** Both columns of every merged row hold a number. */
  predicate Complete(pairs: seq<Pair>)
  {
    forall i :: 0 <= i < |pairs| ==> pairs[i].est.Some? && pairs[i].bench.Some?
  }

  function SquaredErrors(pairs: seq<Pair>): (r: seq<real>)
    requires Complete(pairs)
    ensures |r| == |pairs|
    ensures forall i :: 0 <= i < |pairs| ==> r[i] == Square(pairs[i].bench.value - pairs[i].est.value)
  {
    seq(|pairs|, i requires 0 <= i < |pairs| => Square(pairs[i].bench.value - pairs[i].est.value))
  }

  /** `mean_squared_error(ATM IV, adjusted)` and `np.sqrt` of it. */
  function MeanSquaredError(m: Analytic, pairs: seq<Pair>): (r: Result<Score, ScoreError>)
    ensures r.Err? <==> |pairs| == 0 || !Complete(pairs)
    ensures r.Ok? ==> r.value.mse * |pairs| as real == Sum(SquaredErrors(pairs))
    ensures r.Ok? ==> r.value.rmse == m.sqrt(r.value.mse)
  {
    if |pairs| == 0 then Err(EmptyJoin)
    else if !Complete(pairs) then Err(MissingValue)
    else
      var mse := Mean(SquaredErrors(pairs));
      Ok(Score(mse, m.sqrt(mse)))
  }

  /** The MSE is non-negative and the RMSE is its non-negative square root. */
  lemma ScoreLaws(m: Analytic, pairs: seq<Pair>)
    requires Lawful(m)
    ensures var r := MeanSquaredError(m, pairs);
            r.Ok? ==> 0.0 <= r.value.mse && 0.0 <= r.value.rmse && r.value.rmse * r.value.rmse == r.value.mse
  {
    if 0 < |pairs| && Complete(pairs) {
      var es := SquaredErrors(pairs);
      forall i | 0 <= i < |es|
        ensures 0.0 <= es[i]
      {
        SquareFacts(pairs[i].bench.value - pairs[i].est.value);
      }
      SumNonNegative(es);
      SqrtNonNegative(m, Mean(es));
    }
  }

  /** The MSE is zero exactly when the two columns agree on every merged row. */
  lemma ScoreZeroIffAgree(m: Analytic, pairs: seq<Pair>)
    ensures var r := MeanSquaredError(m, pairs);
            r.Ok? ==> (r.value.mse == 0.0 <==> forall i :: 0 <= i < |pairs| ==> pairs[i].est == pairs[i].bench)
  {
    if 0 < |pairs| && Complete(pairs) {
      var es := SquaredErrors(pairs);
      forall i | 0 <= i < |es|
        ensures 0.0 <= es[i]
        ensures es[i] == 0.0 <==> pairs[i].est == pairs[i].bench
      {
        SquareFacts(pairs[i].bench.value - pairs[i].est.value);
      }
      SumNonNegative(es);
    }
  }

  /** The two series of one lookback, each computed once. */
  function Series(m: Analytic, prices: seq<Sample>, ivRows: seq<RawRow>, period: int): Result<(seq<Bucket>, seq<Bucket>), GridError>
  {
    match VolByHistoricalVolatility(m, prices, period)
    case Err(e) => Err(SeriesFailed(e))
    case Ok(hv) =>
      match AtmIv(ivRows, period)
      case Err(e) => Err(IvFailed(e))
      case Ok(iv) => Ok((hv, iv))
  }

  /** The score of one cell, from the unscaled volatility buckets `hv` of
      its lookback and the IV buckets `iv`. */
  function CellScore(m: Analytic, hv: seq<Bucket>, iv: seq<Bucket>, factor: real): Result<Score, GridError>
  {
    match MeanSquaredError(m, InnerJoin(ScaleBuckets(hv, factor), iv))
    case Err(e) => Err(ScoreFailed(e))
    case Ok(sc) => Ok(sc)
  }

  /** The score of one cell computed from scratch: no other cell's factor
      enters it. */
  function CellAt(m: Analytic, prices: seq<Sample>, ivRows: seq<RawRow>, period: int, factor: real): Result<Score, GridError>
  {
    match Series(m, prices, ivRows, period)
    case Err(e) => Err(e)
    case Ok((hv, iv)) => CellScore(m, hv, iv, factor)
  }

  /** The series of a lookback come out of the resampler with increasing
      labels, so each cell's merged frame holds every common timestamp
      exactly once, in time order. */
  lemma CellJoinIncreasing(m: Analytic, prices: seq<Sample>, ivRows: seq<RawRow>, period: int, factor: real)
    ensures Series(m, prices, ivRows, period).Ok? ==>
            var (hv, iv) := Series(m, prices, ivRows, period).value;
            PairsIncreasing(InnerJoin(ScaleBuckets(hv, factor), iv))
  {
    if Series(m, prices, ivRows, period).Ok? {
      var (hv, iv) := Series(m, prices, ivRows, period).value;
      var rows := HvRows(m, prices, period).value;
      ResampleIncreasing(rows, LookbackWidth(period));
      assert hv == Resample(rows, LookbackWidth(period)).value;
      ResampleIncreasing(AtmIvRows(ivRows), LookbackWidth(period));
      assert iv == Resample(AtmIvRows(ivRows), LookbackWidth(period)).value;
      var scaled := ScaleBuckets(hv, factor);
      assert Increasing(scaled);
      JoinIncreasing(scaled, iv);
    }
  }

  /** Every cell of a lookback scores, and so do its series (which the
      script builds even with no factor to try). */
  ghost predicate PeriodOk(m: Analytic, prices: seq<Sample>, ivRows: seq<RawRow>, period: int, factors: seq<real>)
  {
    && Series(m, prices, ivRows, period).Ok?
    && forall j :: 0 <= j < |factors| ==> CellAt(m, prices, ivRows, period, factors[j]).Ok?
  }

  /** `row` holds the cells of one lookback, one per factor, in factor order. */
  ghost predicate RowOf(row: seq<Cell>, m: Analytic, prices: seq<Sample>, ivRows: seq<RawRow>, period: int, factors: seq<real>)
  {
    && |row| == |factors|
    && forall j :: 0 <= j < |factors| ==>
         && CellAt(m, prices, ivRows, period, factors[j]).Ok?
         && row[j] == Cell(period, factors[j], CellAt(m, prices, ivRows, period, factors[j]).value)
  }

  /** `e` is what the script raises first on lookback `period`. */
  ghost predicate FirstFailure(e: GridError, m: Analytic, prices: seq<Sample>, ivRows: seq<RawRow>, period: int, factors: seq<real>)
  {
    || (Series(m, prices, ivRows, period).Err? && e == Series(m, prices, ivRows, period).error)
    || (&& Series(m, prices, ivRows, period).Ok?
        && exists j :: && 0 <= j < |factors|
                       && (forall l :: 0 <= l < j ==> CellAt(m, prices, ivRows, period, factors[l]).Ok?)
                       && CellAt(m, prices, ivRows, period, factors[j]).Err?
                       && e == CellAt(m, prices, ivRows, period, factors[j]).error)
  }

  /** The inner loop over the scaling factors of one lookback: every cell is
      scored from the same unscaled series, and the first failing factor
      stops the loop. */
  method ScoreRow(m: Analytic, hv: seq<Bucket>, iv: seq<Bucket>, period: int, factors: seq<real>)
    returns (r: Result<seq<Cell>, GridError>)
    ensures r.Ok? <==> forall j :: 0 <= j < |factors| ==> CellScore(m, hv, iv, factors[j]).Ok?
    ensures r.Ok? ==> |r.value| == |factors|
    ensures r.Ok? ==> forall j :: 0 <= j < |factors| ==>
              r.value[j] == Cell(period, factors[j], CellScore(m, hv, iv, factors[j]).value)
    ensures r.Err? ==>
            exists j :: && 0 <= j < |factors|
                        && (forall l :: 0 <= l < j ==> CellScore(m, hv, iv, factors[l]).Ok?)
                        && CellScore(m, hv, iv, factors[j]).Err?
                        && r.error == CellScore(m, hv, iv, factors[j]).error
  {
    var row: seq<Cell> := [];
    var j := 0;
    while j < |factors|
      invariant 0 <= j <= |factors|
      invariant |row| == j
      invariant forall l :: 0 <= l < j ==>
                  && CellScore(m, hv, iv, factors[l]).Ok?
                  && row[l] == Cell(period, factors[l], CellScore(m, hv, iv, factors[l]).value)
    {
      var score := CellScore(m, hv, iv, factors[j]);
      if score.Err? {
        return Err(score.error);
      }
      row := row + [Cell(period, factors[j], score.value)];
      j := j + 1;
    }
    return Ok(row);
  }

  /** A row of scores computed from the series of a lookback is that
      lookback's row of the grid. */
  lemma RowFromSeries(m: Analytic, prices: seq<Sample>, ivRows: seq<RawRow>, period: int, factors: seq<real>,
                      hv: seq<Bucket>, iv: seq<Bucket>, row: seq<Cell>)
    requires Series(m, prices, ivRows, period) == Ok((hv, iv))
    requires |row| == |factors|
    requires forall j :: 0 <= j < |factors| ==>
               CellScore(m, hv, iv, factors[j]).Ok? && row[j] == Cell(period, factors[j], CellScore(m, hv, iv, factors[j]).value)
    ensures PeriodOk(m, prices, ivRows, period, factors)
    ensures RowOf(row, m, prices, ivRows, period, factors)
  {
    assert forall j :: 0 <= j < |factors| ==> CellAt(m, prices, ivRows, period, factors[j]) == CellScore(m, hv, iv, factors[j]);
  }

  /** The first factor whose score fails is the lookback's first failure. */
  lemma FailureFromSeries(m: Analytic, prices: seq<Sample>, ivRows: seq<RawRow>, period: int, factors: seq<real>,
                          hv: seq<Bucket>, iv: seq<Bucket>, j: int)
    requires Series(m, prices, ivRows, period) == Ok((hv, iv))
    requires 0 <= j < |factors|
    requires forall l :: 0 <= l < j ==> CellScore(m, hv, iv, factors[l]).Ok?
    requires CellScore(m, hv, iv, factors[j]).Err?
    ensures FirstFailure(CellScore(m, hv, iv, factors[j]).error, m, prices, ivRows, period, factors)
    ensures !PeriodOk(m, prices, ivRows, period, factors)
  {
    assert forall l :: 0 <= l <= j ==> CellAt(m, prices, ivRows, period, factors[l]) == CellScore(m, hv, iv, factors[l]);
  }

  /** `rows` are the grid rows of the lookbacks `ps`, all of which scored. */
  ghost predicate GridPrefix(rows: seq<seq<Cell>>, m: Analytic, prices: seq<Sample>, ivRows: seq<RawRow>, ps: seq<int>, factors: seq<real>)
    decreases |ps|
  {
    && |rows| == |ps|
    && (0 < |ps| ==>
         && GridPrefix(rows[..|rows| - 1], m, prices, ivRows, ps[..|ps| - 1], factors)
         && PeriodOk(m, prices, ivRows, ps[|ps| - 1], factors)
         && RowOf(rows[|rows| - 1], m, prices, ivRows, ps[|ps| - 1], factors))
  }

  /** Entry `k` of a scored prefix is lookback `ps[k]`'s row. */
  lemma {:induction false} GridPrefixAt(rows: seq<seq<Cell>>, m: Analytic, prices: seq<Sample>, ivRows: seq<RawRow>, ps: seq<int>, factors: seq<real>, k: int)
    requires GridPrefix(rows, m, prices, ivRows, ps, factors)
    requires 0 <= k < |ps|
    ensures PeriodOk(m, prices, ivRows, ps[k], factors)
    ensures RowOf(rows[k], m, prices, ivRows, ps[k], factors)
    decreases |ps|
  {
    if k < |ps| - 1 {
      var rs, qs := rows[..|rows| - 1], ps[..|ps| - 1];
      GridPrefixAt(rs, m, prices, ivRows, qs, factors, k);
      assert qs[k] == ps[k] && rs[k] == rows[k];
    }
  }

  lemma GridPrefixAll(rows: seq<seq<Cell>>, m: Analytic, prices: seq<Sample>, ivRows: seq<RawRow>, ps: seq<int>, factors: seq<real>)
    requires GridPrefix(rows, m, prices, ivRows, ps, factors)
    ensures |rows| == |ps|
    ensures forall k :: 0 <= k < |ps| ==> PeriodOk(m, prices, ivRows, ps[k], factors)
    ensures forall k :: 0 <= k < |ps| ==> RowOf(rows[k], m, prices, ivRows, ps[k], factors)
  {
    forall k | 0 <= k < |ps|
      ensures PeriodOk(m, prices, ivRows, ps[k], factors)
      ensures RowOf(rows[k], m, prices, ivRows, ps[k], factors)
    {
      GridPrefixAt(rows, m, prices, ivRows, ps, factors, k);
    }
  }

  /** One pass of the outer loop: build the series of `period` once, then
      score every factor against them. */
  method EvaluatePeriod(m: Analytic, prices: seq<Sample>, ivRows: seq<RawRow>, period: int, factors: seq<real>)
    returns (r: Result<seq<Cell>, GridError>)
    ensures r.Ok? <==> PeriodOk(m, prices, ivRows, period, factors)
    ensures r.Ok? ==> RowOf(r.value, m, prices, ivRows, period, factors)
    ensures r.Err? ==> FirstFailure(r.error, m, prices, ivRows, period, factors)
  {
    var series := Series(m, prices, ivRows, period);
    if series.Err? {
      return Err(series.error);
    }
    var hv, iv := series.value.0, series.value.1;
    var row := ScoreRow(m, hv, iv, period, factors);
    if row.Err? {
      var j :| && 0 <= j < |factors|
               && (forall l :: 0 <= l < j ==> CellScore(m, hv, iv, factors[l]).Ok?)
               && CellScore(m, hv, iv, factors[j]).Err?
               && row.error == CellScore(m, hv, iv, factors[j]).error;
      FailureFromSeries(m, prices, ivRows, period, factors, hv, iv, j);
      return Err(row.error);
    }
    RowFromSeries(m, prices, ivRows, period, factors, hv, iv, row.value);
    return Ok(row.value);
  }

  /** The grid loop, lookback-major. It succeeds exactly when every cell
      scores; then row `i`, column `j` is the score of `periods[i]` with
      `factors[j]`. Otherwise it stops at the first failure in loop order. */
  method EvaluateGrid(m: Analytic, prices: seq<Sample>, ivRows: seq<RawRow>, periods: seq<int>, factors: seq<real>)
    returns (r: Result<seq<seq<Cell>>, GridError>)
    ensures r.Ok? <==> forall i :: 0 <= i < |periods| ==> PeriodOk(m, prices, ivRows, periods[i], factors)
    ensures r.Ok? ==> |r.value| == |periods|
    ensures r.Ok? ==> forall i :: 0 <= i < |periods| ==> RowOf(r.value[i], m, prices, ivRows, periods[i], factors)
    ensures r.Err? ==>
            exists i :: && 0 <= i < |periods|
                        && (forall k :: 0 <= k < i ==> PeriodOk(m, prices, ivRows, periods[k], factors))
                        && FirstFailure(r.error, m, prices, ivRows, periods[i], factors)
  {
    var rows: seq<seq<Cell>> := [];
    var i := 0;
    while i < |periods|
      invariant 0 <= i <= |periods|
      invariant GridPrefix(rows, m, prices, ivRows, periods[..i], factors)
    {
      var row := EvaluatePeriod(m, prices, ivRows, periods[i], factors);
      if row.Err? {
        GridPrefixAll(rows, m, prices, ivRows, periods[..i], factors);
        assert forall k :: 0 <= k < i ==> periods[..i][k] == periods[k];
        return Err(row.error);
      }
      assert (rows + [row.value])[..i] == rows;
      assert periods[..i + 1][..i] == periods[..i];
      rows := rows + [row.value];
      i := i + 1;
    }
    GridPrefixAll(rows, m, prices, ivRows, periods[..i], factors);
    assert periods[..i] == periods;
    return Ok(rows);
  }
}
