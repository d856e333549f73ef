# Uniswap V3 sqrt-price to price conversion

This project models `sqrt_price_to_price` from the PRJX LP tracker
(`lp_tracker_streamlit.py`). The function turns a pool's `sqrtPriceX96`
into a human-scaled price. `sqrtPriceX96` is the Q64.96 fixed-point square
root of the pool price, as defined in section 6.2.1 of the Uniswap v3 Core
whitepaper. The function divides it by 2^96 with Python's `Decimal` and
squares the quotient. It then multiplies by `10 ** (token0_decimals -
token1_decimals)`. The result is the price of one token0 in units of token1.

The model works over Dafny `real` values, which are exact rationals.

- `Powers` (powers.dfy) defines natural-number powers and the two facts about them the proofs use.
- `PriceConversion` (price_conversion.dfy) models the function as written.
  Python's `10 ** e` is an `int` when `e >= 0` and a `float` when `e < 0`.
  Multiplying a `Decimal` by a `float` raises `TypeError`. So the model's
  result is `Err(TypeError)` exactly when token0 has fewer decimals than
  token1. The lemmas prove these facts about the model:
  - the closed form `s^2 * 10^(d0 - d1) / 2^192`;
  - the price is never negative, and a zero sqrt-price gives price zero;
  - `2^96` gives price 1 when the decimals are equal;
  - strict monotonicity and injectivity for non-negative sqrt-prices;
  - the price depends only on `d0 - d1`;
  - each extra token0 decimal multiplies the price by ten.
- `IntendedPriceConversion` (same file) gives the conversion for every pair
  of decimals, reading `10^(d0 - d1)` with a negative exponent as a
  division. It is proved to agree with the source wherever the source
  returns a price (see "## Findings").

The function is meant to give a price for every pool. The comment at line 31
names it a conversion to price, line 47 calls it for every position, and
line 53 prints its result as the price of one token0 in token1. Read that
way, `10^(d0 - d1)` with a negative exponent is a division. The code raises
`TypeError` instead. `PriceConversion` follows the code, and the intended
reading is kept apart in `IntendedPriceConversion`.

## Model

| member | source | states |
|---|---|---|
| Powers.Pow | lp_tracker_streamlit.py:34-35 | `2 ** 96` and `10 ** k` for k >= 0: a power of a positive base is positive |
| PriceConversion.ScalesArePowersOfTwo | lp_tracker_streamlit.py:34 | the scale constant is 2^96 and its square, the price denominator, is 2^192 |
| PriceConversion.TenToThe | lp_tracker_streamlit.py:35 | `10 ** e` is an integer (at least 1) exactly when e >= 0, and a float otherwise |
| PriceConversion.DecimalTimes | lp_tracker_streamlit.py:35 | `Decimal * int` succeeds and `Decimal * float` is a TypeError; a non-negative Decimal stays non-negative |
| PriceConversion.SqrtPrice | lp_tracker_streamlit.py:34 | the exact quotient s / 2^96 times 2^96 gives back s, and it is non-negative exactly when s is |
| PriceConversion.SqrtPriceToPrice | lp_tracker_streamlit.py:33-36 | returns a price exactly when token0_decimals >= token1_decimals, a TypeError otherwise; every price is >= 0 |
| PriceConversion.ClosedForm | lp_tracker_streamlit.py:34-35 | the computed price equals s^2 * 10^(d0 - d1) / 2^192 |
| PriceConversion.ZeroPrice | lp_tracker_streamlit.py:34-35 | sqrtPriceX96 = 0 gives price 0 |
| PriceConversion.UnitPrice | lp_tracker_streamlit.py:34-35 | with equal decimals, sqrtPriceX96 = 2^96 gives exactly price 1 |
| PriceConversion.Monotone | lp_tracker_streamlit.py:34-35 | for 0 <= s1 <= s2 the price of s1 is at most that of s2, and strictly less when s1 < s2 |
| PriceConversion.Injective | lp_tracker_streamlit.py:34-35 | two non-negative sqrt-prices with the same price are equal |
| PriceConversion.SignIrrelevant | lp_tracker_streamlit.py:34-35 | s and -s give the same result, error case included |
| PriceConversion.DecimalShift | lp_tracker_streamlit.py:35 | adding the same constant to both decimals leaves the result unchanged, error case included |
| PriceConversion.TenfoldPerDecimal | lp_tracker_streamlit.py:35 | one more token0 decimal multiplies the price by exactly 10 |
| PriceConversion.TenthPerToken1Decimal | lp_tracker_streamlit.py:35 | one more token1 decimal divides the price by exactly 10 while d0 still exceeds d1 |
| IntendedPriceConversion.DecimalScale | lp_tracker_streamlit.py:35 | 10^e as an exact rational for any integer e: positive, at least 1 for e >= 0, below 1 for e < 0 |
| IntendedPriceConversion.DecimalScaleReciprocal | lp_tracker_streamlit.py:35 | 10^e * 10^-e == 1 |
| IntendedPriceConversion.DecimalScaleStep | lp_tracker_streamlit.py:35 | 10^(e+1) == 10 * 10^e for every integer e, negative ones included |
| IntendedPriceConversion.ScaledPrice | lp_tracker_streamlit.py:33-36 | the intended price for all decimals is >= 0, and 0 exactly when sqrtPriceX96 is 0 |
| IntendedPriceConversion.ScaleAgreesWithSource | lp_tracker_streamlit.py:35 | for e >= 0, multiplying by Python's `10 ** e` succeeds and equals multiplying by the exact 10^e |
| IntendedPriceConversion.AgreesWithSource | lp_tracker_streamlit.py:33-36 | whenever the source returns a price, it is the intended price |
| IntendedPriceConversion.SourceFailsOnFewerToken0Decimals | lp_tracker_streamlit.py:35 | at s = 2^96 with decimals (6, 18) the source raises TypeError where the intended price is 10^-12 |
| IntendedPriceConversion.TenfoldPerDecimalEverywhere | lp_tracker_streamlit.py:35 | one more token0 decimal multiplies the intended price by 10, for every pair of decimals |
| IntendedPriceConversion.SwappedDecimals | lp_tracker_streamlit.py:35 | swapping the two decimals divides the intended price by 10^(2 * (d0 - d1)) |

## Left out

- `fetch_positions` (lp_tracker_streamlit.py:8-29): an HTTP POST to a GraphQL indexer. This is network I/O.
- The Streamlit display loop (lp_tracker_streamlit.py:39-57): page rendering, id truncation and markdown formatting.
- The fee-tier display (lp_tracker_streamlit.py:54): binary float arithmetic used only for presentation.
- Decimal parsing: the source passes the indexer's `sqrtPrice` string to `Decimal(...)`. The model takes the already-parsed integer, so a malformed string (`InvalidOperation`) is not modelled.
- PriceConversion.SqrtPriceToPrice: computes over exact rationals. It does not model the rounding of Python's default decimal context to 28 significant digits after the division, the squaring and the multiplication. It also does not model that context's exponent limits (an `Overflow` for a decimals difference near 10^6). Some proved properties carry over to the rounded Decimal: non-strict monotonicity (rounding never reverses order), a zero price for a zero input, price 1 at 2^96 (every step is exact there), and the exact factor of ten per decimal (multiplying by an `int` power of ten only shifts the Decimal exponent).
- PriceConversion.Monotone: the strict clause holds for the exact value only. Neighbouring sqrt-prices can round to the same Decimal.
- PriceConversion.Injective: holds for the exact value only, for the same reason.
- PriceConversion.SqrtPrice: the round trip through 2^96 holds for the exact quotient. A real sqrtPriceX96 has about 29 digits, so the 28-digit Decimal quotient usually does not give it back.
- Token amounts from liquidity, impermanent loss, net ROI and tick-to-price conversion do not exist in the code. Line 56-57 is only a placeholder message, so none of them is modelled.

## Findings

| source | as written | input that shows it | evidently intended | confidence | as-written member | corrected member |
|---|---|---|---|---|---|---|
| lp_tracker_streamlit.py:35 | `10 ** (token0_decimals - token1_decimals)` is a float when token0 has fewer decimals, and `Decimal * float` raises TypeError | sqrt_price_x96 = 2^96, token0_decimals = 6, token1_decimals = 18 (a 6-decimal token0 against an 18-decimal token1) | price 10^-12, i.e. the negative exponent taken as a division: lines 47 and 53 call the function for every position and print the result as a price | high; not executed | IntendedPriceConversion.SourceFailsOnFewerToken0Decimals | IntendedPriceConversion.ScaledPrice |
