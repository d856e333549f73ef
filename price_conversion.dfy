/** The conversion of a Uniswap V3 `sqrtPriceX96` value to a human-scaled
    price (`sqrt_price_to_price` in lp_tracker_streamlit.py).

    `sqrtPriceX96` is the Q64.96 fixed-point square root of the pool price
    (section 6.2.1 of the Uniswap v3 Core whitepaper): an integer carrying
    96 fractional bits. The conversion divides it by 2^96, squares the
    quotient and rescales by 10^(token0_decimals - token1_decimals), giving
    the price of one token0 in units of token1.

    The source computes with Python's `Decimal`; here every quantity is an
    exact Dafny `real` (a rational), so Decimal's rounding to 28 significant
    digits is abstracted away. */
module PriceConversion {
  import opened Powers

  /** Number of fractional bits in the sqrt-price fixed-point format. */
  const Resolution: nat := 96

  /** The fixed-point scale 2^96 (`2 ** 96` in the source). */
  const Q96: nat := 0x1_0000_0000_0000_0000_0000_0000

  /** The denominator of a squared sqrt-price, 2^192. */
  const Q192: nat := Q96 * Q96

  /** The two scale constants are the powers of two they stand for. */
  lemma ScalesArePowersOfTwo()
    ensures Q96 == Pow(2, Resolution)
    ensures Q192 == Pow(2, 2 * Resolution)
  {
    assert Pow(2, 3) == 8;
    PowAdd(2, 3, 3);
    assert Pow(2, 6) == 64;
    PowAdd(2, 6, 6);
    assert Pow(2, 12) == 4096;
    PowAdd(2, 12, 12);
    assert Pow(2, 24) == 0x100_0000;
    PowAdd(2, 24, 24);
    assert Pow(2, 48) == 0x1_0000_0000_0000;
    PowAdd(2, 48, 48);
    assert Pow(2, 96) == Q96;
    PowAdd(2, 96, 96);
  }

  /** Result of Python's `10 ** e` for an integer `e`: an `int` when `e >= 0`,
      a binary `float` when `e < 0`. The float's value is never used: the only
      thing the conversion does with it is fail. */
  datatype PowerOfTen = IntPower(value: nat) | FloatPower

  /** `Decimal * float` is refused by Python with a `TypeError`. */
  datatype ConversionError = TypeError

  /** Outcome of the conversion: a price, or the error Python raises. */
  datatype PriceResult = Ok(value: real) | Err(error: ConversionError)

  /** Python's `10 ** exponent`: exact integer for non-negative exponents,
      float otherwise. */
  function TenToThe(exponent: int): (r: PowerOfTen)
    ensures r.IntPower? <==> exponent >= 0
    ensures r.IntPower? ==> r.value >= 1
  {
    if exponent >= 0 then IntPower(Pow(10, exponent)) else FloatPower
  }

  /** `Decimal * factor`: defined for an integer factor, a `TypeError` for a
      float one. */
  function DecimalTimes(d: real, factor: PowerOfTen): (r: PriceResult)
    ensures r.Ok? <==> factor.IntPower?
    ensures r.Ok? && d >= 0.0 ==> r.value >= 0.0
  {
    match factor
    case IntPower(n) => Ok(d * n as real)
    case FloatPower => Err(TypeError)
  }

  /** `Decimal(sqrt_price_x96) / (2 ** 96)`: the square root of the raw price
      as an exact rational; scaling it back by 2^96 gives the input. */
  function SqrtPrice(sqrtPriceX96: int): (r: real)
    ensures r * Q96 as real == sqrtPriceX96 as real
    ensures r >= 0.0 <==> sqrtPriceX96 >= 0
  {
    sqrtPriceX96 as real / Q96 as real
  }

  /** `sqrt_price_to_price(sqrt_price_x96, token0_decimals, token1_decimals)`.
      A price exactly when token0 has at least as many decimals as token1,
      and that price is never negative; otherwise the `TypeError` raised by
      multiplying a Decimal by the float `10 ** negative`. */
  function SqrtPriceToPrice(sqrtPriceX96: int, token0Decimals: int, token1Decimals: int): (r: PriceResult)
    ensures r.Ok? <==> token0Decimals >= token1Decimals
    ensures r.Ok? ==> r.value >= 0.0
  {
    var sqrtPrice := SqrtPrice(sqrtPriceX96);
    DecimalTimes(sqrtPrice * sqrtPrice, TenToThe(token0Decimals - token1Decimals))
  }

  /** Reference definition: the price as one rational with denominator 2^192,
      s^2 * 10^(d0 - d1) / 2^192. */
  function ClosedFormPrice(sqrtPriceX96: int, token0Decimals: int, token1Decimals: int): (r: real)
    requires token0Decimals >= token1Decimals
  {
    (sqrtPriceX96 * sqrtPriceX96 * Pow(10, token0Decimals - token1Decimals)) as real
      / Q192 as real
  }

  /** The step-by-step computation equals the closed form
      s^2 * 10^(d0 - d1) / 2^192. */
  lemma ClosedForm(sqrtPriceX96: int, token0Decimals: int, token1Decimals: int)
    requires token0Decimals >= token1Decimals
    ensures SqrtPriceToPrice(sqrtPriceX96, token0Decimals, token1Decimals)
            == Ok(ClosedFormPrice(sqrtPriceX96, token0Decimals, token1Decimals))
  {
  }

  /** Squaring and scaling by a positive factor keeps the order of
      non-negative reals, strictly so. */
  lemma ScaledSquareMonotone(x1: real, x2: real, p: real)
    requires 0.0 <= x1 <= x2 && p > 0.0
    ensures x1 * x1 * p <= x2 * x2 * p
    ensures x1 < x2 ==> x1 * x1 * p < x2 * x2 * p
  {
    var lo, mid, hi := x1 * x1, x1 * x2, x2 * x2;
    assert lo <= mid <= hi;
    assert lo * p <= hi * p;
    if x1 < x2 {
      assert mid < hi;
      assert lo < hi;
      assert (hi - lo) * p > 0.0;
    }
  }

  /** A zero sqrt-price gives price zero. */
  lemma ZeroPrice(token0Decimals: int, token1Decimals: int)
    requires token0Decimals >= token1Decimals
    ensures SqrtPriceToPrice(0, token0Decimals, token1Decimals) == Ok(0.0)
  {
  }

  /** With equal decimals, sqrtPriceX96 = 2^96 encodes exactly price 1. */
  lemma UnitPrice(decimals: int)
    ensures SqrtPriceToPrice(Q96, decimals, decimals) == Ok(1.0)
  {
  }

  /** The price is monotone in a non-negative sqrt-price, strictly so. */
  lemma Monotone(s1: int, s2: int, token0Decimals: int, token1Decimals: int)
    requires 0 <= s1 <= s2
    requires token0Decimals >= token1Decimals
    ensures SqrtPriceToPrice(s1, token0Decimals, token1Decimals).value
            <= SqrtPriceToPrice(s2, token0Decimals, token1Decimals).value
    ensures s1 < s2 ==>
              SqrtPriceToPrice(s1, token0Decimals, token1Decimals).value
              < SqrtPriceToPrice(s2, token0Decimals, token1Decimals).value
  {
    var x1, x2 := SqrtPrice(s1), SqrtPrice(s2);
    var p := Pow(10, token0Decimals - token1Decimals) as real;
    assert x1 == s1 as real / Q96 as real && x2 == s2 as real / Q96 as real;
    assert s1 < s2 ==> x1 < x2;
    ScaledSquareMonotone(x1, x2, p);
  }

  /** Different non-negative sqrt-prices never give the same price, so the
      sqrt-price can be recovered from the price. */
  lemma Injective(s1: int, s2: int, token0Decimals: int, token1Decimals: int)
    requires 0 <= s1 && 0 <= s2
    requires token0Decimals >= token1Decimals
    requires SqrtPriceToPrice(s1, token0Decimals, token1Decimals)
             == SqrtPriceToPrice(s2, token0Decimals, token1Decimals)
    ensures s1 == s2
  {
    if s1 < s2 {
      Monotone(s1, s2, token0Decimals, token1Decimals);
    } else if s2 < s1 {
      Monotone(s2, s1, token0Decimals, token1Decimals);
    }
  }

  /** Only the magnitude of the sqrt-price matters: its sign is squared away. */
  lemma SignIrrelevant(sqrtPriceX96: int, token0Decimals: int, token1Decimals: int)
    ensures SqrtPriceToPrice(-sqrtPriceX96, token0Decimals, token1Decimals)
            == SqrtPriceToPrice(sqrtPriceX96, token0Decimals, token1Decimals)
  {
  }

  /** The result depends on the decimals only through their difference,
      error case included. */
  lemma DecimalShift(sqrtPriceX96: int, token0Decimals: int, token1Decimals: int, k: int)
    ensures SqrtPriceToPrice(sqrtPriceX96, token0Decimals + k, token1Decimals + k)
            == SqrtPriceToPrice(sqrtPriceX96, token0Decimals, token1Decimals)
  {
  }

  /** One more decimal on token0 multiplies the price by exactly ten. */
  lemma TenfoldPerDecimal(sqrtPriceX96: int, token0Decimals: int, token1Decimals: int)
    requires token0Decimals >= token1Decimals
    ensures SqrtPriceToPrice(sqrtPriceX96, token0Decimals + 1, token1Decimals)
            == Ok(10.0 * SqrtPriceToPrice(sqrtPriceX96, token0Decimals, token1Decimals).value)
  {
  }

  /** One more decimal on token1 divides the price by exactly ten, as long as
      token0 still has at least as many decimals. */
  lemma TenthPerToken1Decimal(sqrtPriceX96: int, token0Decimals: int, token1Decimals: int)
    requires token0Decimals > token1Decimals
    ensures 10.0 * SqrtPriceToPrice(sqrtPriceX96, token0Decimals, token1Decimals + 1).value
            == SqrtPriceToPrice(sqrtPriceX96, token0Decimals, token1Decimals).value
  {
    TenfoldPerDecimal(sqrtPriceX96, token0Decimals - 1, token1Decimals);
    DecimalShift(sqrtPriceX96, token0Decimals - 1, token1Decimals, 1);
  }
}

/** The conversion as the price formula intends it for every pair of
    decimals: 10^(d0 - d1) with a negative exponent is a division, so a
    token0 with fewer decimals than token1 gets a price instead of an error. */
module IntendedPriceConversion {
  import opened Powers
  import opened PriceConversion

  /** 10^exponent as an exact rational, for any integer exponent. */
  function DecimalScale(exponent: int): (r: real)
    ensures r > 0.0
    ensures exponent >= 0 ==> r >= 1.0
    ensures exponent < 0 ==> r < 1.0
  {
    if exponent >= 0 then Pow(10, exponent) as real
    else
      PowMonotone(10, 1, -exponent);
      1.0 / Pow(10, -exponent) as real
  }

  /** 10^e and 10^-e are reciprocal. */
  lemma DecimalScaleReciprocal(exponent: int)
    ensures DecimalScale(exponent) * DecimalScale(-exponent) == 1.0
  {
  }

  /** Each step of the exponent is one factor of ten, also below zero. */
  lemma DecimalScaleStep(exponent: int)
    ensures DecimalScale(exponent + 1) == 10.0 * DecimalScale(exponent)
  {
  }

  /** The price of token0 in token1, s^2 * 10^(d0 - d1) / 2^192, for all
      decimals. */
  function ScaledPrice(sqrtPriceX96: int, token0Decimals: int, token1Decimals: int): (r: real)
    ensures r >= 0.0
    ensures r == 0.0 <==> sqrtPriceX96 == 0
  {
    var sqrtPrice := SqrtPrice(sqrtPriceX96);
    sqrtPrice * sqrtPrice * DecimalScale(token0Decimals - token1Decimals)
  }

  /** For a non-negative exponent, scaling a Decimal by Python's `10 ** e`
      succeeds and multiplies by the intended 10^e. */
  lemma ScaleAgreesWithSource(d: real, exponent: int)
    requires exponent >= 0
    ensures DecimalTimes(d, TenToThe(exponent)) == Ok(d * DecimalScale(exponent))
  {
  }

  /** Wherever the source returns a price, it is the intended one. */
  lemma AgreesWithSource(sqrtPriceX96: int, token0Decimals: int, token1Decimals: int)
    requires token0Decimals >= token1Decimals
    ensures SqrtPriceToPrice(sqrtPriceX96, token0Decimals, token1Decimals)
            == Ok(ScaledPrice(sqrtPriceX96, token0Decimals, token1Decimals))
  {
    var x := SqrtPrice(sqrtPriceX96);
    ScaleAgreesWithSource(x * x, token0Decimals - token1Decimals);
  }

  /** The source raises where the intended conversion has a price: a pool
      whose token0 has 6 decimals and token1 18, at sqrtPriceX96 = 2^96. */
  lemma SourceFailsOnFewerToken0Decimals()
    ensures SqrtPriceToPrice(Q96, 6, 18) == Err(TypeError)
    ensures ScaledPrice(Q96, 6, 18) == 1.0 / 1_000_000_000_000.0
  {
  }

  /** One more decimal on token0 multiplies the intended price by ten, for
      every pair of decimals. */
  lemma TenfoldPerDecimalEverywhere(sqrtPriceX96: int, token0Decimals: int, token1Decimals: int)
    ensures ScaledPrice(sqrtPriceX96, token0Decimals + 1, token1Decimals)
            == 10.0 * ScaledPrice(sqrtPriceX96, token0Decimals, token1Decimals)
  {
  }

  /** Swapping the decimals of the two tokens divides the price by
      10^(2 * (d0 - d1)); with equal decimals the price is s^2 / 2^192. */
  lemma SwappedDecimals(sqrtPriceX96: int, token0Decimals: int, token1Decimals: int)
    ensures ScaledPrice(sqrtPriceX96, token1Decimals, token0Decimals)
              * DecimalScale(token0Decimals - token1Decimals)
              * DecimalScale(token0Decimals - token1Decimals)
            == ScaledPrice(sqrtPriceX96, token0Decimals, token1Decimals)
  {
  }
}
