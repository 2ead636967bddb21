/** The price arithmetic of the pool reader (`pair_2_uniswap_data.py`): the
  Q64.96 square-root price, the tick range of spacing 60 that holds the
  current tick, the split of a position's liquidity into token amounts, and
  the ratio the reader records.

  `1.0001 ** (tick / 2)`, the square-root price at a tick, is the parameter
  `root`; the proofs use only that it is positive and strictly increasing.
 */
module UniswapPrice {
  import opened Wrappers
  import opened Statistics

  /** `2 ** 96`, the scale of a Q64.96 fixed-point number. */
  const Q96: int := 0x1_0000_0000_0000_0000_0000_0000

  const TickSpacing: int := 60

  /** `convert_sqrt_price_x96`: the price, the square of the decoded root. */
  function ConvertSqrtPrice(sqrtPriceX96: int): (r: real)
    ensures 0.0 <= r
  {
    var x := sqrtPriceX96 as real / Q96 as real;
    x * x
  }

  /** The price is `s^2 / 2^192`, and `2^96` stands for a price of one. */
  lemma ConvertIsScaledSquare(s: int)
    ensures ConvertSqrtPrice(s) == (s * s) as real / (Q96 * Q96) as real
    ensures ConvertSqrtPrice(Q96) == 1.0
  {
    var q := Q96 as real;
    var x := s as real / q;
    assert x * q == s as real;
    assert (x * x) * (q * q) == (s as real) * (s as real);
    assert (s * s) as real == (s as real) * (s as real);
    assert (Q96 * Q96) as real == q * q;
  }

  /** A larger root gives a larger price. */
  lemma ConvertMonotone(a: int, b: int)
    requires 0 <= a <= b
    ensures ConvertSqrtPrice(a) <= ConvertSqrtPrice(b)
  {
    var q := Q96 as real;
    var x, y := a as real / q, b as real / q;
    assert x * q == a as real && y * q == b as real;
    assert 0.0 <= x <= y;
    TimesNonNegative(x, y - x);
    TimesNonNegative(y, y - x);
    assert x * y - x * x == x * (y - x);
    assert y * y - x * y == y * (y - x);
  }

  /** `math.floor(tick / tick_spacing) * tick_spacing`. */
  function LowerTick(tick: int): (r: int)
    ensures r % TickSpacing == 0
    ensures r <= tick < r + TickSpacing
  {
    (tick / TickSpacing) * TickSpacing
  }

  function UpperTick(tick: int): int
  {
    LowerTick(tick) + TickSpacing
  }

  /** The range is the only multiple of 60 that starts at most 59 ticks
      below the tick: negative ticks round down, not toward zero. */
  lemma LowerTickUnique(tick: int, lower: int)
    requires lower % TickSpacing == 0
    requires lower <= tick < lower + TickSpacing
    ensures lower == LowerTick(tick)
  {
    var q := lower / TickSpacing;
    assert lower == q * TickSpacing;
    var p := LowerTick(tick) / TickSpacing;
    assert LowerTick(tick) == p * TickSpacing;
    assert (q - p) * TickSpacing < TickSpacing;
    assert (p - q) * TickSpacing < TickSpacing;
  }

  /** `1.0001 ** (x / 2)`, as a function of the tick `x`. */
  ghost predicate Positive(root: int -> real)
  {
    forall x :: 0.0 < root(x)
  }

  ghost predicate Increasing(root: int -> real)
  {
    forall x, y :: x < y ==> root(x) < root(y)
  }

  /** Which branch of `calculate_reserves` applies. */
  datatype Position = Below | Inside | Above

  function PositionOf(sqrtPrice: real, sqrtLower: real, sqrtUpper: real): Position
  {
    if sqrtPrice <= sqrtLower then Below
    else if sqrtPrice < sqrtUpper then Inside
    else Above
  }

  /** Token amounts: token0 (WBTC) and token1 (ETH). */
  datatype Amounts = Amounts(amount0: real, amount1: real)

  /** The amounts of a position whose range holds the price. */
  function InsideAmounts(liquidity: real, sqrtPrice: real, sqrtLower: real, sqrtUpper: real): Amounts
    requires 0.0 < sqrtPrice && 0.0 < sqrtUpper
  {
    Amounts(liquidity * (1.0 / sqrtPrice - 1.0 / sqrtUpper), liquidity * (sqrtPrice - sqrtLower))
  }

  /** The three-way split before the decimal adjustment. */
  function RawAmounts(liquidity: real, sqrtPrice: real, sqrtLower: real, sqrtUpper: real): (r: Amounts)
    requires 0.0 < sqrtLower && 0.0 < sqrtUpper
  {
    match PositionOf(sqrtPrice, sqrtLower, sqrtUpper)
    case Below => Amounts(liquidity * (1.0 / sqrtLower - 1.0 / sqrtUpper), 0.0)
    case Inside => InsideAmounts(liquidity, sqrtPrice, sqrtLower, sqrtUpper)
    case Above => Amounts(0.0, liquidity * (sqrtUpper - sqrtLower))
  }

  /** Token0 has 8 decimals, token1 has 18. */
  const Token0Scale: real := 100_000_000.0
  const Token1Scale: real := 1_000_000_000_000_000_000.0

  /** `calculate_reserves(liquidity, sqrt_price_x96, tick)`. */
  function CalculateReserves(root: int -> real, liquidity: real, sqrtPriceX96: int, tick: int): (r: Amounts)
    requires Positive(root)
  {
    var sqrtPrice := sqrtPriceX96 as real / Q96 as real;
    var raw := RawAmounts(liquidity, sqrtPrice, root(LowerTick(tick)), root(UpperTick(tick)));
    Amounts(raw.amount0 / Token0Scale, raw.amount1 / Token1Scale)
  }

  /** At or below the range the position is all token0; at or above it, all
      token1; the reported amounts are the raw ones in whole tokens. */
  lemma ReservesSides(root: int -> real, liquidity: real, sqrtPriceX96: int, tick: int)
    requires Positive(root) && Increasing(root)
    ensures var sqrtPrice := sqrtPriceX96 as real / Q96 as real;
            var lo, hi := root(LowerTick(tick)), root(UpperTick(tick));
            var raw := RawAmounts(liquidity, sqrtPrice, lo, hi);
            var r := CalculateReserves(root, liquidity, sqrtPriceX96, tick);
            && (sqrtPrice <= lo ==> r.amount1 == 0.0)
            && (hi <= sqrtPrice ==> r.amount0 == 0.0)
            && r.amount0 * Token0Scale == raw.amount0
            && r.amount1 * Token1Scale == raw.amount1
  {
    assert LowerTick(tick) < UpperTick(tick);
  }

  /** Each amount is non-negative in every branch once the liquidity is. */
  lemma RawAmountsNonNegative(liquidity: real, sqrtPrice: real, sqrtLower: real, sqrtUpper: real)
    requires 0.0 <= liquidity
    requires 0.0 < sqrtLower < sqrtUpper
    ensures 0.0 <= RawAmounts(liquidity, sqrtPrice, sqrtLower, sqrtUpper).amount0
    ensures 0.0 <= RawAmounts(liquidity, sqrtPrice, sqrtLower, sqrtUpper).amount1
  {
    match PositionOf(sqrtPrice, sqrtLower, sqrtUpper)
    case Below =>
      ReciprocalAntitone(sqrtLower, sqrtUpper);
      TimesNonNegative(liquidity, 1.0 / sqrtLower - 1.0 / sqrtUpper);
    case Inside =>
      ReciprocalAntitone(sqrtPrice, sqrtUpper);
      TimesNonNegative(liquidity, 1.0 / sqrtPrice - 1.0 / sqrtUpper);
      TimesNonNegative(liquidity, sqrtPrice - sqrtLower);
    case Above =>
      TimesNonNegative(liquidity, sqrtUpper - sqrtLower);
  }

  lemma ReciprocalAntitone(a: real, b: real)
    requires 0.0 < a <= b
    ensures 1.0 / b <= 1.0 / a
  {
    assert 1.0 / b * b == 1.0;
    assert 1.0 / a * a == 1.0;
    assert (1.0 / b) * a <= (1.0 / b) * b;
  }

  lemma DivideNonNegative(x: real, k: real)
    requires 0.0 <= x && 0.0 < k
    ensures 0.0 <= x / k
  {
    assert x / k * k == x;
  }

  /** Hence the reported reserves are non-negative for any tick and price. */
  lemma ReservesNonNegative(root: int -> real, liquidity: real, sqrtPriceX96: int, tick: int)
    requires Positive(root) && Increasing(root)
    requires 0.0 <= liquidity
    ensures 0.0 <= CalculateReserves(root, liquidity, sqrtPriceX96, tick).amount0
    ensures 0.0 <= CalculateReserves(root, liquidity, sqrtPriceX96, tick).amount1
  {
    var lo, hi := root(LowerTick(tick)), root(UpperTick(tick));
    assert lo < hi;
    var raw := RawAmounts(liquidity, sqrtPriceX96 as real / Q96 as real, lo, hi);
    RawAmountsNonNegative(liquidity, sqrtPriceX96 as real / Q96 as real, lo, hi);
    DivideNonNegative(raw.amount0, Token0Scale);
    DivideNonNegative(raw.amount1, Token1Scale);
  }

  /** The split is continuous: the in-range formula evaluated at either
      bound gives what the neighbouring branch gives. */
  lemma SplitContinuous(liquidity: real, sqrtLower: real, sqrtUpper: real)
    requires 0.0 < sqrtLower < sqrtUpper
    ensures InsideAmounts(liquidity, sqrtLower, sqrtLower, sqrtUpper) == RawAmounts(liquidity, sqrtLower, sqrtLower, sqrtUpper)
    ensures InsideAmounts(liquidity, sqrtUpper, sqrtLower, sqrtUpper) == RawAmounts(liquidity, sqrtUpper, sqrtLower, sqrtUpper)
  {
    assert 1.0 / sqrtUpper - 1.0 / sqrtUpper == 0.0;
  }

  /** Inside the range a higher price trades token0 for token1: amount0
      falls and amount1 rises. */
  lemma InsideMonotone(liquidity: real, p: real, q: real, sqrtLower: real, sqrtUpper: real)
    requires 0.0 <= liquidity
    requires 0.0 < sqrtLower < p <= q < sqrtUpper
    ensures InsideAmounts(liquidity, q, sqrtLower, sqrtUpper).amount0 <= InsideAmounts(liquidity, p, sqrtLower, sqrtUpper).amount0
    ensures InsideAmounts(liquidity, p, sqrtLower, sqrtUpper).amount1 <= InsideAmounts(liquidity, q, sqrtLower, sqrtUpper).amount1
  {
    ReciprocalAntitone(p, q);
    var d0 := (1.0 / p - 1.0 / sqrtUpper) - (1.0 / q - 1.0 / sqrtUpper);
    assert 0.0 <= d0;
    assert liquidity * (1.0 / p - 1.0 / sqrtUpper) - liquidity * (1.0 / q - 1.0 / sqrtUpper) == liquidity * d0;
    assert liquidity * (q - sqrtLower) - liquidity * (p - sqrtLower) == liquidity * (q - p);
  }

  /** When the pool's price sits exactly at its current tick, the price is
      never above the range `calculate_reserves` picks. */
  lemma PriceAtTickNotAbove(root: int -> real, tick: int)
    requires Positive(root) && Increasing(root)
    ensures PositionOf(root(tick), root(LowerTick(tick)), root(UpperTick(tick))) != Above
  {
    assert tick < UpperTick(tick);
  }

  datatype RatioError = ZeroPrice  // `1 / (price / 1e12)` with a zero price

  /** `1e12`, the decimal gap between the pool's two tokens. */
  const DecimalGap: real := 1_000_000_000_000.0

  /** The recorded ratio `1 / (price / 1e12)`. */
  function RecordedRatio(sqrtPriceX96: int): (r: Result<real, RatioError>)
    ensures r.Err? <==> sqrtPriceX96 == 0
  {
    var price := ConvertSqrtPrice(sqrtPriceX96);
    if price / DecimalGap == 0.0 then Err(ZeroPrice) else Ok(1.0 / (price / DecimalGap))
  }

  /** The recorded ratio is positive and is `1e12` divided by the price. */
  lemma RecordedRatioInverts(sqrtPriceX96: int)
    requires sqrtPriceX96 != 0
    ensures 0.0 < RecordedRatio(sqrtPriceX96).value
    ensures RecordedRatio(sqrtPriceX96).value * ConvertSqrtPrice(sqrtPriceX96) == DecimalGap
  {
    var price := ConvertSqrtPrice(sqrtPriceX96);
    var x := price / DecimalGap;
    assert x * DecimalGap == price;
    assert 0.0 < x;
    assert 1.0 / x * x == 1.0;
  }

  /** A higher pool price records a lower ratio. */
  lemma RecordedRatioAntitone(a: int, b: int)
    requires 0 < a <= b
    ensures RecordedRatio(b).value <= RecordedRatio(a).value
  {
    ConvertMonotone(a, b);
    var pa, pb := ConvertSqrtPrice(a) / DecimalGap, ConvertSqrtPrice(b) / DecimalGap;
    assert pa <= pb;
    ReciprocalAntitone(pa, pb);
  }
}
