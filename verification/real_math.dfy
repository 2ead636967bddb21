/** The transcendental functions the scripts borrow from numpy (`np.log`,
  `np.exp`, `np.sqrt`), taken as uninterpreted function values.

  The model does not fix their numeric values; it only assumes, through
  `Lawful`, the handful of facts the properties below need.
 */
module RealMath {

  /** A choice of natural logarithm, exponential and square root. */
  datatype Analytic = Analytic(ln: real -> real, exp: real -> real, sqrt: real -> real)

  /** The laws the model relies on: `ln(1) = 0`, `exp(0) = 1`, `exp > 0`,
      and `sqrt` is the non-negative square root on the non-negative reals. */
  ghost predicate Lawful(m: Analytic) {
    && m.ln(1.0) == 0.0
    && m.exp(0.0) == 1.0
    && m.sqrt(0.0) == 0.0
    && (forall x :: 0.0 < m.exp(x))
    && (forall x :: 0.0 <= x ==> 0.0 <= m.sqrt(x) && m.sqrt(x) * m.sqrt(x) == x)
  }

  /** `np.abs` on a real. */
  function Abs(x: real): (r: real)
    ensures 0.0 <= r
    ensures r == x || r == -x
  {
    if x < 0.0 then -x else x
  }

  /** The square root of a non-negative real is non-negative. */
  lemma SqrtNonNegative(m: Analytic, x: real)
    requires Lawful(m)
    requires 0.0 <= x
    ensures 0.0 <= m.sqrt(x)
    ensures m.sqrt(x) * m.sqrt(x) == x
  {
  }

  /** A positive argument has a positive square root. */
  lemma SqrtPositive(m: Analytic, x: real)
    requires Lawful(m)
    requires 0.0 < x
    ensures 0.0 < m.sqrt(x)
  {
  }
}
