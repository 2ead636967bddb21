/** Sums, means and variances over exact reals, as numpy and pandas compute
  them on a column without NaN:

  - `np.mean` and pandas `mean` are `Mean`;
  - `np.var` divides by the count (`PopulationVariance`);
  - pandas `std` divides by the count minus one (`SampleVariance`).
 */
module Statistics {

  function Sum(xs: seq<real>): real
  {
    if |xs| == 0 then 0.0 else xs[0] + Sum(xs[1..])
  }

  function Mean(xs: seq<real>): real
    requires 0 < |xs|
  {
    Sum(xs) / |xs| as real
  }

  function Square(x: real): real
  {
    x * x
  }

  lemma MulPositive(a: real, b: real)
    requires 0.0 < a && 0.0 < b
    ensures 0.0 < a * b
  {
  }

  /** A square is non-negative, and only zero squares to zero. */
  lemma SquareFacts(x: real)
    ensures 0.0 <= Square(x)
    ensures Square(x) == 0.0 <==> x == 0.0
  {
    if x > 0.0 {
      MulPositive(x, x);
      calc { Square(x); == x * x; > 0.0; }
    } else if x < 0.0 {
      MulPositive(-x, -x);
      calc { Square(x); == x * x; == (-x) * (-x); > 0.0; }
    }
  }

  /** The sum of squared deviations of `xs` from `c`. */
  function SumSquaredDeviation(xs: seq<real>, c: real): (r: real)
    ensures 0.0 <= r
  {
    if |xs| == 0 then 0.0
    else
      SquareFacts(xs[0] - c);
      Square(xs[0] - c) + SumSquaredDeviation(xs[1..], c)
  }

  /** Population variance, `np.var` with its default `ddof = 0`. */
  function PopulationVariance(xs: seq<real>): (r: real)
    requires 0 < |xs|
    ensures 0.0 <= r
  {
    SumSquaredDeviation(xs, Mean(xs)) / |xs| as real
  }

  /** Sample variance, pandas `std` squared with its default `ddof = 1`. */
  function SampleVariance(xs: seq<real>): (r: real)
    requires 2 <= |xs|
    ensures 0.0 <= r
  {
    SumSquaredDeviation(xs, Mean(xs)) / (|xs| - 1) as real
  }

  /** The two conventions differ only in the divisor: `n` times the
      population variance is `n - 1` times the sample variance. */
  lemma VarianceConventions(xs: seq<real>)
    requires 2 <= |xs|
    ensures |xs| as real * PopulationVariance(xs) == (|xs| - 1) as real * SampleVariance(xs)
  {
    var d := SumSquaredDeviation(xs, Mean(xs));
    var n := |xs| as real;
    assert PopulationVariance(xs) * n == d;
    assert SampleVariance(xs) * (n - 1.0) == d;
  }

  /** `x * k` as a function: equal arguments then give equal products inside
      sequence and datatype values too, which the solver does not always
      see for a bare product of two variables. */
  function Times(x: real, k: real): real
  {
    x * k
  }

  /** Every element multiplied by `k`. */
  function ScaleAll(xs: seq<real>, k: real): (r: seq<real>)
    ensures |r| == |xs|
    ensures forall i :: 0 <= i < |xs| ==> r[i] == xs[i] * k
  {
    seq(|xs|, i requires 0 <= i < |xs| => Times(xs[i], k))
  }

  /** Scaling distributes over concatenation. */
  lemma ScaleAllConcat(xs: seq<real>, ys: seq<real>, k: real)
    ensures ScaleAll(xs + ys, k) == ScaleAll(xs, k) + ScaleAll(ys, k)
  {
    assert forall i :: 0 <= i < |xs + ys| ==> ScaleAll(xs + ys, k)[i] == (ScaleAll(xs, k) + ScaleAll(ys, k))[i];
  }

  /** A sum of copies of `c` is `c` times the count. */
  lemma {:induction false} SumOfConstant(xs: seq<real>, c: real)
    requires forall i :: 0 <= i < |xs| ==> xs[i] == c
    ensures Sum(xs) == |xs| as real * c
  {
    if |xs| != 0 {
      SumOfConstant(xs[1..], c);
    }
  }

  /** The deviations of a constant sequence from its own value vanish. */
  lemma {:induction false} DeviationOfConstant(xs: seq<real>, c: real)
    requires forall i :: 0 <= i < |xs| ==> xs[i] == c
    ensures SumSquaredDeviation(xs, c) == 0.0
  {
    if |xs| != 0 {
      DeviationOfConstant(xs[1..], c);
    }
  }

  /** A constant sample has the constant as mean and zero variance, both in
      the population and in the sample convention. */
  lemma ConstantSample(xs: seq<real>, c: real)
    requires 0 < |xs|
    requires forall i :: 0 <= i < |xs| ==> xs[i] == c
    ensures Mean(xs) == c
    ensures PopulationVariance(xs) == 0.0
    ensures 2 <= |xs| ==> SampleVariance(xs) == 0.0
  {
    SumOfConstant(xs, c);
    DeviationOfConstant(xs, c);
  }

  /** Summation is linear: scaling every element scales the sum. */
  lemma {:induction false} SumScales(xs: seq<real>, k: real)
    ensures Sum(ScaleAll(xs, k)) == Sum(xs) * k
  {
    if |xs| != 0 {
      SumScales(xs[1..], k);
      assert forall i :: 0 <= i < |xs| - 1 ==> ScaleAll(xs, k)[1..][i] == ScaleAll(xs[1..], k)[i];
      assert ScaleAll(xs, k)[1..] == ScaleAll(xs[1..], k);
      assert (xs[0] + Sum(xs[1..])) * k == xs[0] * k + Sum(xs[1..]) * k;
    }
  }

  /** Hence the mean of a scaled sample is the scaled mean. */
  lemma MeanScales(xs: seq<real>, k: real)
    requires 0 < |xs|
    ensures Mean(ScaleAll(xs, k)) == Mean(xs) * k
  {
    SumScales(xs, k);
  }

  /** A product of non-negative reals is non-negative. */
  lemma TimesNonNegative(x: real, k: real)
    requires 0.0 <= x && 0.0 <= k
    ensures 0.0 <= Times(x, k)
    ensures 0.0 <= x * k
  {
    if 0.0 < x && 0.0 < k {
      MulPositive(x, k);
    }
  }

  /** A sum of non-negative terms is non-negative, and it is zero exactly
      when every term is. */
  lemma {:induction false} SumNonNegative(xs: seq<real>)
    requires forall i :: 0 <= i < |xs| ==> 0.0 <= xs[i]
    ensures 0.0 <= Sum(xs)
    ensures Sum(xs) == 0.0 <==> forall i :: 0 <= i < |xs| ==> xs[i] == 0.0
  {
    if |xs| != 0 {
      SumNonNegative(xs[1..]);
      assert forall i :: 1 <= i < |xs| ==> xs[i] == xs[1..][i - 1];
    }
  }
}
