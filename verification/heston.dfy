/** `heston_model_simulation` (`test.py`): estimate Heston parameters from
  the log returns of the price ratio, then run the explicit Euler recursion

    S[i] = S[i-1] * exp((mu - V[i-1] / 2) dt + sqrt(V[i-1]) W1)
    V[i] = | V[i-1] + kappa (theta - V[i-1]) dt + sigma sqrt(V[i-1]) W2 |

  with W1 = sqrt(dt) Z1 and W2 = sqrt(dt) (rho Z1 + sqrt(1 - rho^2) Z2), and
  report the variance in percent.

  The normal draws come from a seeded generator; here they are an input
  stream `draws`, read in the order the loop reads it: step `i` takes
  `Z1 = draws(2 (i - 1))` and then `Z2 = draws(2 (i - 1) + 1)`.
 */
module Heston {
  import opened Wrappers
  import opened RealMath
  import opened Statistics
  import opened TimeSeries
  import opened Volatility

  datatype Parameters = Parameters(s0: real, v0: real, mu: real, kappa: real, theta: real, sigma: real, rho: real)

  /** A row kept by `dropna(subset=['log_return'])`: its price and return. */
  datatype Observation = Observation(price: real, ret: real)

  /** One point of the simulated path, before the variance is scaled. */
  datatype State = State(s: real, v: real)

  /** The three arrays the simulation returns. */
  datatype Simulation = Simulation(t: seq<real>, s: seq<real>, v: seq<real>)

  datatype HestonError =
    | NoReturns         // `iloc[-1]` on an empty frame
    | NonPositiveSteps  // `T / N` with `N = 0`, or `np.zeros(N)` with `N < 0`

  const Kappa: real := 2.0
  const Sigma: real := 0.1
  const Rho: real := -0.7

  /** Ten-second steps over 252 trading days. */
  const DefaultSteps: int := 252 * 6 * 24 * 60

  /** The rows of `s` whose entry in `col` is a number, with that number. */
  function Kept(s: seq<Sample>, col: seq<Option<real>>): (r: seq<Observation>)
    requires |s| == |col|
    ensures |r| == CountDefined(col)
  {
    if |s| == 0 then []
    else (if col[0].Some? then [Observation(s[0].v, col[0].value)] else []) + Kept(s[1..], col[1..])
  }

  function ReturnsOf(obs: seq<Observation>): (r: seq<real>)
    ensures |r| == |obs|
    ensures forall i :: 0 <= i < |obs| ==> r[i] == obs[i].ret
  {
    seq(|obs|, i requires 0 <= i < |obs| => obs[i].ret)
  }

  /** The rows of a time-sorted frame that have a log return. */
  function Observations(m: Analytic, s: seq<Sample>): seq<Observation>
  {
    Kept(s, LogReturns(m, s))
  }

  /** The estimate from a frame already in time order: the last kept price,
      the population variance and the mean of the returns, and constants. */
  function FrameEstimate(m: Analytic, s: seq<Sample>): (r: Result<Parameters, HestonError>)
    ensures r.Err? <==> |Observations(m, s)| == 0
    ensures r.Ok? ==> && 0.0 <= r.value.v0
                      && r.value.theta == r.value.v0
                      && r.value.kappa == Kappa && r.value.sigma == Sigma && r.value.rho == Rho
  {
    var obs := Observations(m, s);
    if |obs| == 0 then Err(NoReturns)
    else
      var rs := ReturnsOf(obs);
      var v0 := PopulationVariance(rs);
      Ok(Parameters(obs[|obs| - 1].price, v0, Mean(rs), Kappa, v0, Sigma, Rho))
  }

  /** `estimate_heston_parameters`, which sorts the frame first. */
  function EstimateParameters(m: Analytic, data: seq<Sample>): (r: Result<Parameters, HestonError>)
    ensures r.Err? <==> |Observations(m, SortByTime(data))| == 0
  {
    FrameEstimate(m, SortByTime(data))
  }

  /** Where every return is a number from row 1 on, `dropna` removes only
      the first row: the kept returns are those of rows `1 .. n - 1` and the
      last kept price is the last row's. */
  lemma {:induction false} KeptAllDefined(s: seq<Sample>, col: seq<Option<real>>)
    requires |s| == |col|
    requires forall i :: 0 <= i < |col| ==> col[i].Some?
    ensures ReturnsOf(Kept(s, col)) == Values(col)
    ensures 0 < |s| ==> Kept(s, col)[|s| - 1].price == s[|s| - 1].v
  {
    if |s| != 0 {
      KeptAllDefined(s[1..], col[1..]);
      var rest := Kept(s[1..], col[1..]);
      assert Kept(s, col) == [Observation(s[0].v, col[0].value)] + rest;
      assert ReturnsOf(Kept(s, col)) == [col[0].value] + ReturnsOf(rest);
      assert Values(col) == [col[0].value] + Values(col[1..]);
    }
  }

  /** With positive prices and two rows or more, the estimate exists: `S0`
      is the price of the last row, and `V0` and `mu` are the population
      variance and the mean of the log returns of rows `1 .. n - 1`. */
  lemma FrameEstimateFromPositivePrices(m: Analytic, s: seq<Sample>)
    requires forall i :: 0 <= i < |s| ==> 0.0 < s[i].v
    requires 2 <= |s|
    ensures var rs := ReturnsOf(Observations(m, s));
            var r := FrameEstimate(m, s);
            && |rs| == |s| - 1
            && (forall i :: 0 <= i < |rs| ==> LogReturns(m, s)[i + 1] == Some(rs[i]))
            && r.Ok?
            && r.value.s0 == s[|s| - 1].v
            && r.value.v0 == PopulationVariance(rs)
            && r.value.mu == Mean(rs)
  {
    var col := LogReturns(m, s);
    PositivePricesGiveReturns(m, s);
    KeptAfterFirst(s, col);
    var rs := ReturnsOf(Observations(m, s));
    forall i | 0 <= i < |rs|
      ensures col[i + 1] == Some(rs[i])
    {
      assert rs[i] == col[1..][i].value;
    }
  }

  /** A column that is NaN on the first row only keeps rows `1 .. n - 1`. */
  lemma KeptAfterFirst(s: seq<Sample>, col: seq<Option<real>>)
    requires |s| == |col| && 2 <= |s|
    requires forall i :: 0 <= i < |col| ==> (col[i].Some? <==> 1 <= i)
    ensures var obs := Kept(s, col);
            && |obs| == |s| - 1
            && ReturnsOf(obs) == Values(col[1..])
            && obs[|obs| - 1].price == s[|s| - 1].v
  {
    var tail := col[1..];
    assert forall j :: 0 <= j < |tail| ==> tail[j] == col[j + 1];
    KeptAllDefined(s[1..], tail);
    assert Kept(s, col) == [] + Kept(s[1..], tail);
    assert [] + Kept(s[1..], tail) == Kept(s[1..], tail);
  }

  /** Hence the same holds of the frame in time order: `S0` is the price of
      the latest row. */
  lemma EstimateFromPositivePrices(m: Analytic, data: seq<Sample>)
    requires forall i :: 0 <= i < |data| ==> 0.0 < data[i].v
    requires 2 <= |data|
    ensures var s := SortByTime(data);
            var rs := ReturnsOf(Observations(m, s));
            var r := EstimateParameters(m, data);
            && r.Ok?
            && r.value.s0 == s[|s| - 1].v
            && r.value.v0 == PopulationVariance(rs)
            && r.value.mu == Mean(rs)
  {
    var s := SortByTime(data);
    assert EstimateParameters(m, data) == FrameEstimate(m, s);
    forall i | 0 <= i < |s|
      ensures 0.0 < s[i].v
    {
      var x := s[i];
      SortedRowIn(data, i);
      var j :| 0 <= j < |data| && data[j] == x;
    }
    FrameEstimateFromPositivePrices(m, s);
  }

  /** A constant positive price estimates zero drift and zero variance. */
  lemma FrameEstimateOfConstant(m: Analytic, s: seq<Sample>, c: real)
    requires Lawful(m)
    requires 0.0 < c
    requires 2 <= |s|
    requires forall i :: 0 <= i < |s| ==> s[i].v == c
    ensures var r := FrameEstimate(m, s);
            && r.Ok?
            && r.value.s0 == c && r.value.mu == 0.0 && r.value.v0 == 0.0 && r.value.theta == 0.0
  {
    FrameEstimateFromPositivePrices(m, s);
    ConstantPricesGiveZeroReturns(m, s, c);
    var rs := ReturnsOf(Observations(m, s));
    assert forall i :: 0 <= i < |rs| ==> rs[i] == 0.0;
    ConstantSample(rs, 0.0);
  }

  lemma EstimateOfConstant(m: Analytic, data: seq<Sample>, c: real)
    requires Lawful(m)
    requires 0.0 < c
    requires 2 <= |data|
    requires forall i :: 0 <= i < |data| ==> data[i].v == c
    ensures var r := EstimateParameters(m, data);
            && r.Ok?
            && r.value.s0 == c && r.value.mu == 0.0 && r.value.v0 == 0.0 && r.value.theta == 0.0
  {
    var s := SortByTime(data);
    assert EstimateParameters(m, data) == FrameEstimate(m, s);
    forall i | 0 <= i < |s|
      ensures s[i].v == c
    {
      var x := s[i];
      SortedRowIn(data, i);
      var j :| 0 <= j < |data| && data[j] == x;
    }
    FrameEstimateOfConstant(m, s, c);
  }

  /** The weight of `Z2` in `W2`: `sqrt(1 - rho^2)`. */
  function CorrelationWeight(m: Analytic, rho: real): real
  {
    m.sqrt(1.0 - rho * rho)
  }

  /** For `rho = -0.7` the weight is `sqrt(0.51)`, a positive real. */
  lemma CorrelationWeightPositive(m: Analytic)
    requires Lawful(m)
    ensures 0.0 < CorrelationWeight(m, Rho)
    ensures CorrelationWeight(m, Rho) * CorrelationWeight(m, Rho) == 0.51
  {
    assert 1.0 - Rho * Rho == 0.51;
    SqrtPositive(m, 0.51);
    SqrtNonNegative(m, 0.51);
  }

  /** One step of the recursion from `prev` with draws `z1`, `z2`. */
  function Step(m: Analytic, p: Parameters, dt: real, prev: State, z1: real, z2: real): (r: State)
    ensures 0.0 <= r.v
  {
    var w1 := m.sqrt(dt) * z1;
    var w2 := m.sqrt(dt) * (p.rho * z1 + CorrelationWeight(m, p.rho) * z2);
    State(prev.s * m.exp((p.mu - 0.5 * prev.v) * dt + m.sqrt(prev.v) * w1),
          Abs(prev.v + p.kappa * (p.theta - prev.v) * dt + p.sigma * m.sqrt(prev.v) * w2))
  }

  /** The first `n` points of the path. Every variance after the first is an
      absolute value, so the whole path stays non-negative once `V0` is. */
  function Path(m: Analytic, p: Parameters, dt: real, draws: nat -> real, n: nat): (r: seq<State>)
    ensures |r| == n
    ensures 0 < n ==> r[0] == State(p.s0, p.v0)
    ensures forall i :: 1 <= i < n ==> 0.0 <= r[i].v
    ensures 0.0 <= p.v0 ==> forall i :: 0 <= i < n ==> 0.0 <= r[i].v
    decreases n
  {
    if n == 0 then []
    else if n == 1 then [State(p.s0, p.v0)]
    else
      var prev := Path(m, p, dt, draws, n - 1);
      prev + [Step(m, p, dt, prev[n - 2], draws(2 * (n - 2)), draws(2 * (n - 2) + 1))]
  }

  /** Each point of a longer path is the same point of a shorter one. */
  lemma {:induction false} PathPrefix(m: Analytic, p: Parameters, dt: real, draws: nat -> real, n: nat, k: nat)
    requires k <= n
    ensures Path(m, p, dt, draws, n)[..k] == Path(m, p, dt, draws, k)
    decreases n
  {
    if k < n {
      PathPrefix(m, p, dt, draws, n - 1, k);
      assert Path(m, p, dt, draws, n)[..n - 1] == Path(m, p, dt, draws, n - 1);
    }
  }

  /** Each variance the recursion takes a square root of is non-negative,
      so its root is a real number that squares back to it. */
  lemma SqrtArgumentNonNegative(m: Analytic, p: Parameters, dt: real, draws: nat -> real, n: nat, i: nat)
    requires Lawful(m)
    requires 0.0 <= p.v0
    requires i < n
    ensures var v := Path(m, p, dt, draws, n)[i].v;
            0.0 <= v && m.sqrt(v) * m.sqrt(v) == v
  {
    SqrtNonNegative(m, Path(m, p, dt, draws, n)[i].v);
  }

  /** With zero drift, zero initial and long-run variance, the path is flat:
      the price never moves and the variance stays zero, whatever the draws. */
  lemma {:induction false} PathOfZeroVariance(m: Analytic, p: Parameters, dt: real, draws: nat -> real, n: nat)
    requires Lawful(m)
    requires p.mu == 0.0 && p.v0 == 0.0 && p.theta == 0.0
    ensures forall i :: 0 <= i < n ==> Path(m, p, dt, draws, n)[i] == State(p.s0, 0.0)
    decreases n
  {
    if 1 < n {
      PathOfZeroVariance(m, p, dt, draws, n - 1);
      var prev := Path(m, p, dt, draws, n - 1);
      var next := Step(m, p, dt, prev[n - 2], draws(2 * (n - 2)), draws(2 * (n - 2) + 1));
      assert prev[n - 2] == State(p.s0, 0.0);
      assert (p.mu - 0.5 * 0.0) * dt + m.sqrt(0.0) * (m.sqrt(dt) * draws(2 * (n - 2))) == 0.0;
      assert next.s == p.s0;
      assert next.v == 0.0;
      assert Path(m, p, dt, draws, n) == prev + [next];
    }
  }

  /** `np.linspace(0, stop, n)`: `n` evenly spaced times from 0, the last one
      set to `stop` exactly; a single point is `[0]`. */
  function Linspace(stop: real, n: nat): (r: seq<real>)
    ensures |r| == n
    ensures 0 < n ==> r[0] == 0.0
    ensures 2 <= n ==> r[n - 1] == stop
  {
    seq(n, i requires 0 <= i < n =>
      if i == 0 then 0.0 else if i == n - 1 then stop else (i as real) * (stop / (n - 1) as real))
  }

  lemma DivMul(a: real, b: real)
    requires b != 0.0
    ensures a / b * b == a
  {
  }

  /** The grid is even: point `i` is `i * stop / (n - 1)`, the last one too. */
  lemma LinspaceEven(stop: real, n: nat)
    requires 2 <= n
    ensures forall i :: 0 <= i < n ==> Linspace(stop, n)[i] == (i as real) * (stop / (n - 1) as real)
  {
    var d := (n - 1) as real;
    DivMul(stop, d);
    assert d * (stop / d) == stop;
  }

  /** The time grid ends at `stop`, but the recursion steps by `stop / n`:
      for any non-zero horizon the `n - 1` steps of the path cover less than
      the horizon the grid reports. */
  lemma StepMismatch(stop: real, n: nat)
    requires 2 <= n
    requires stop != 0.0
    ensures Linspace(stop, n)[n - 1] == stop
    ensures ((n - 1) as real) * (stop / n as real) != stop
  {
    var dt := stop / n as real;
    DivMul(stop, n as real);
    assert (n as real) * dt == stop;
    assert ((n - 1) as real) * dt == (n as real) * dt - dt;
    assert dt != 0.0;
  }

  /** The number of steps: the default when none is given. */
  function StepCount(steps: Option<int>): int
  {
    if steps.None? then DefaultSteps else steps.value
  }

  /** The simulation loop: `n` points of the path, one step per iteration. */
  method SimulatePath(m: Analytic, p: Parameters, dt: real, draws: nat -> real, n: nat) returns (path: seq<State>)
    requires 1 <= n
    ensures path == Path(m, p, dt, draws, n)
  {
    path := [State(p.s0, p.v0)];
    var i := 1;
    while i < n
      invariant 1 <= i <= n
      invariant path == Path(m, p, dt, draws, i)
    {
      var z1 := draws(2 * (i - 1));
      var z2 := draws(2 * (i - 1) + 1);
      path := path + [Step(m, p, dt, path[i - 1], z1, z2)];
      i := i + 1;
    }
  }

  /** The reported arrays: prices, and variances scaled to percent once the
      loop is done. */
  function Report(horizon: real, path: seq<State>): (r: Simulation)
    ensures |r.t| == |path| && |r.s| == |path| && |r.v| == |path|
    ensures r.t == Linspace(horizon, |path|)
    ensures forall i :: 0 <= i < |path| ==> r.s[i] == path[i].s && r.v[i] == path[i].v * 100.0
  {
    Simulation(Linspace(horizon, |path|),
               seq(|path|, j requires 0 <= j < |path| => path[j].s),
               seq(|path|, j requires 0 <= j < |path| => Times(path[j].v, 100.0)))
  }

  /** `heston_model_simulation(data, period, T, N)`. */
  method HestonSimulation(m: Analytic, data: seq<Sample>, horizon: real, steps: Option<int>, draws: nat -> real)
    returns (r: Result<Simulation, HestonError>)
    ensures r.Err? <==> EstimateParameters(m, data).Err? || StepCount(steps) <= 0
    ensures r.Err? ==> (r.error == NoReturns <==> EstimateParameters(m, data).Err?)
    ensures r.Ok? ==> && 0 < StepCount(steps)
                      && r.value == Report(horizon, Path(m, EstimateParameters(m, data).value,
                                                         horizon / StepCount(steps) as real, draws, StepCount(steps)))
    ensures r.Ok? ==>
            var n := StepCount(steps);
            var path := Path(m, EstimateParameters(m, data).value, horizon / n as real, draws, n);
            && r.value.t == Linspace(horizon, n)
            && |r.value.s| == n && |r.value.v| == n
            && forall i :: 0 <= i < n ==> r.value.s[i] == path[i].s && r.value.v[i] == 100.0 * path[i].v
  {
    var estimate := EstimateParameters(m, data);
    if estimate.Err? {
      return Err(estimate.error);
    }
    var n := StepCount(steps);
    if n <= 0 {
      return Err(NonPositiveSteps);
    }
    var path := SimulatePath(m, estimate.value, horizon / n as real, draws, n);
    return Ok(Report(horizon, path));
  }

  /** What the simulation reports: `n` times from 0 to the horizon, a path
      starting at the estimated price, and non-negative variances. */
  lemma ReportFacts(m: Analytic, data: seq<Sample>, horizon: real, n: nat, draws: nat -> real)
    requires EstimateParameters(m, data).Ok?
    requires 1 <= n
    ensures var p := EstimateParameters(m, data).value;
            var r := Report(horizon, Path(m, p, horizon / n as real, draws, n));
            && |r.t| == n && |r.s| == n && |r.v| == n
            && r.t[0] == 0.0 && (2 <= n ==> r.t[n - 1] == horizon)
            && r.s[0] == p.s0 && r.v[0] == p.v0 * 100.0
            && (forall i :: 0 <= i < n ==> 0.0 <= r.v[i])
  {
    var p := EstimateParameters(m, data).value;
    var path := Path(m, p, horizon / n as real, draws, n);
    var r := Report(horizon, path);
    forall i | 0 <= i < n
      ensures 0.0 <= r.v[i]
    {
      TimesNonNegative(path[i].v, 100.0);
    }
  }

  /** For a constant positive price the reported price never moves and the
      reported variance stays zero, whatever the draws. */
  lemma ReportOfConstant(m: Analytic, data: seq<Sample>, c: real, horizon: real, n: nat, draws: nat -> real)
    requires Lawful(m)
    requires 0.0 < c
    requires 2 <= |data|
    requires forall i :: 0 <= i < |data| ==> data[i].v == c
    requires 1 <= n
    ensures EstimateParameters(m, data).Ok?
    ensures var p := EstimateParameters(m, data).value;
            var r := Report(horizon, Path(m, p, horizon / n as real, draws, n));
            forall i :: 0 <= i < n ==> r.s[i] == c && r.v[i] == 0.0
  {
    EstimateOfConstant(m, data, c);
    var p := EstimateParameters(m, data).value;
    PathOfZeroVariance(m, p, horizon / n as real, draws, n);
  }
}
