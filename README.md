# fxgui core in Dafny

fxgui is a toolkit for currency and token conversion widgets. This project
models its arithmetic core and proves properties of the model:

- **`Precision`** (module `FixedPoint`) is the fixed-point decimal every
  calculation runs on. It is a single integer mantissa at 33 fractional digits.
  `mul`, `div` and `unscale` truncate toward zero, as JavaScript `BigInt`
  division and BN's `div` do. Dafny's own `/` is Euclidean, so the model uses
  a truncating `Arith.TDiv`.
- **The amount codec** `strToInt` / `intToStr` (module `AmountCodec`)
  converts between decimal text and integer amounts of atomic units. Its
  helpers model the JavaScript string builtins (`Strings`) and
  `BigInt`/`toString` (`BigIntText`).
- **The token registry** `TokenMap` and `getDecimals` (module `Tokens`).
  `TokenMap` is a class whose `Map` is a `map` field, plus a `seq` for the
  `Map`'s iteration order.
- **The fee-charging calculators.**
  - The shared fee layer of 50 basis points: `Fees`.
  - The pool-reserve calculator of the crypto example: `PoolCalculator`. The
    library's test utilities hold the same code up to formatting, so this one
    module models both.
  - The scalar-rate calculator of the forex example and its expiring rate
    cache: `ForexCalculator`.
- **The fee-free calculator, `sortTokens` and the pool table** of the library's
  engine tests (module `FeeFreeCalculator`).
- **The direction-routing rule of `createEngine`** (module `Routing`), as pure
  step functions over the engine's signals.

Exceptions become values:
- Division by a zero-valued `Precision` is `Err(DivisionByZero)`.
- A token missing from a pool is `Err(InvalidTokenForPool(a.id))`.
- A pool id missing from the table is `Err(UnknownPool(id))`.
- A missing forex rate is `Err(NoRateReturned)`.
- Text `BigInt` cannot read is `Err(SyntaxError)`.
- In the calculators, decimals above 33 are `Err(RangeError)`, at the point
  where the source would first evaluate the negative power of ten.

`Precision.from` and `unscale` themselves take `exponent <= 33` as a
precondition.

Backward is not an inverse of forward on atomic amounts.
`PoolCalculator.BackwardMissesForwardInput` shows 0.001001 ether converting
forward to 2.01 dollars, while 2.01 dollars convert backward to 0.001 ether.
The forward output drops digits at 2 decimals, so the round trip misses by
10^12 wei. What does hold is the fee layer round trip at 33 digits
(`Fees.FeeRoundTrip`).

The engine tests' pool table and their fee-free calculator use opposite ratio
conventions. With the `makeEngine` pools, one bitcoin converts to 1/30000 of a
dollar (`FeeFreeCalculator.EnginePoolsRatio`). The `calculateFn` test passes
its pool the other way round.

## Model

| member | source | states |
|---|---|---|
| FixedPoint.ScaleIsPow10 | libs/precision/src/index.ts:39-41 | SCALE_FOR_MULTI_DIVI is 10^INTERNAL_SCALE, with INTERNAL_SCALE = 33 |
| FixedPoint.Precision.From | libs/precision/src/index.ts:62-68 | from(v, e) stands for v / 10^e, and unscale(e) gives v back; e must be at most 33 |
| FixedPoint.Precision.Unscale | libs/precision/src/index.ts:92-95 | the result times 10^(33-p) is the mantissa truncated toward zero, and it keeps the mantissa's sign |
| FixedPoint.Precision.Add | libs/precision/src/index.ts:123-126 | the value of the sum is exactly the sum of the values |
| FixedPoint.Precision.Sub | libs/precision/src/index.ts:128-131 | the value of the difference is exactly the difference of the values |
| FixedPoint.Precision.Mul | libs/precision/src/index.ts:133-137 | \|r\|·10^33 <= \|x·y\| < (\|r\|+1)·10^33 for the mantissas: the exact product truncated toward zero, with the sign of the product |
| FixedPoint.Precision.Div | libs/precision/src/index.ts:139-143 | fails with DivisionByZero exactly when the divisor is zero; otherwise \|q\|·\|y\| <= \|x·10^33\| < (\|q\|+1)·\|y\| for the mantissas, and q has the sign of x·y or is zero |
| FixedPoint.OneIsFromOne | examples/fxgui-react-example/services/forex.ts:103 | the unit added to fPerc is from(1) and has value 1 |
| FixedPoint.FromRescale | libs/precision/src/index.ts:92-95 | a value built at e digits and read at p digits gains p-e zeros when p >= e; otherwise its last e-p digits are truncated toward zero |
| FixedPoint.AddFrom | libs/precision/src/index.ts:123-126 | values built at one exponent add digit for digit |
| FixedPoint.AddSubInverse | libs/precision/src/index.ts:123-131 | sub undoes add |
| FixedPoint.MulFrom | libs/precision/src/index.ts:133-137 | the product of values with e and f digits is exact while e + f <= 33 |
| FixedPoint.DivByWhole | libs/precision/src/index.ts:139-143 | dividing by a whole number y is the dividend's mantissa over y, truncated toward zero |
| FixedPoint.MulDivOne | libs/precision/src/index.ts:133-143 | from(1) is neutral for mul and for div |
| FixedPoint.FromIsZero | libs/precision/src/index.ts:62-64 | a Precision built from a value is zero exactly when the value is zero |
| FixedPoint.UnscaleExamples | libs/precision/src/index.test.ts:6-10 | 1.000000 read at 18 digits is 10^18 and at 4 digits is 10^4; 100.000000 at 4 digits is 100·10^4 |
| FixedPoint.AddExample | libs/precision/src/index.test.ts:12-16 | 2.0 + 1.14159 read at 5 digits is 314159 |
| FixedPoint.SubExample | libs/precision/src/index.test.ts:18-22 | 10.00 - 6.8584 read at 4 digits is 31416 |
| FixedPoint.MulExample | libs/precision/src/index.test.ts:24-28 | 300.00000 × 5 read at 2 digits is 150000 |
| FixedPoint.DivExample | libs/precision/src/index.test.ts:30-39 | the pi approximant read at 18 digits is 3141592653916501746 |
| BigIntText.ParseBigInt | libs/core/src/index.ts:192 | succeeds exactly on a digit string (the empty one included) or a sign followed by digits; a digit string reads as its value, "-" and "+" negate or keep it; anything else is a SyntaxError |
| BigIntText.ParseIntToString | libs/core/src/index.ts:192-202 | BigInt(n.toString()) is n |
| Strings.LessTrichotomy | examples/fxgui-react-example/services/crypto.ts:105 | of two strings, exactly one sorts first, unless they are equal |
| AmountCodec.StrToIntDigits | libs/core/src/index.ts:188-194 | strToInt reads the integer digits, then the fraction cut to d digits or zero-padded to d digits; text after a second '.' is ignored |
| AmountCodec.SplitTwo | libs/core/src/index.ts:190 | split('.') of digits, a point and digits yields exactly the two digit strings |
| AmountCodec.StrToIntParts | libs/core/src/index.ts:188-194 | given the first two pieces split('.') yields, strToInt is the integer digits followed by the fraction cut or zero-padded to d digits |
| AmountCodec.StrToIntShort | libs/core/src/index.ts:188-194 | i.f with at most d fractional digits reads as i·10^d + f·10^(d-\|f\|) |
| AmountCodec.StrToIntLong | libs/core/src/index.ts:188-194 | i.f with at least d fractional digits reads as i·10^d plus the first d digits of f |
| AmountCodec.StrToIntWhole | libs/core/src/index.ts:188-194 | text without a '.' gets d zeros appended |
| AmountCodec.StrToIntRejects | libs/core/src/index.ts:192 | a character before the '.' that is not a digit (or a leading sign) makes strToInt fail |
| AmountCodec.StrToIntCutExample | libs/core/src/index.ts:188-194 | strToInt(2, "1.239") is 123: truncation, not rounding |
| AmountCodec.StrToIntPadExample | libs/core/src/index.ts:188-194 | strToInt(2, "5") is 500 |
| AmountCodec.IntToStrWhole | libs/core/src/index.ts:200-205 | with decimals 0, intToStr writes the plain digits, whatever fixed is |
| AmountCodec.IntToStrDefault | libs/core/src/index.ts:196-217 | with fixed unset, the text is n / 10^d, a '.', and n mod 10^d as exactly d digits |
| AmountCodec.IntToStrFixedZero | libs/core/src/index.ts:201 | fixed = 0 is falsy and gives the same text as fixed unset |
| AmountCodec.IntToStrTrimmed | libs/core/src/index.ts:209-216 | fixed = -1 strips trailing fractional zeros, and drops the '.' when no fractional digit is left |
| AmountCodec.RoundTrip | libs/core/src/index.ts:188-217 | strToInt(d, intToStr(d, n)) == n for every n >= 0 |
| AmountCodec.RoundTripWhole | libs/core/src/index.ts:188-205 | with decimals 0 the round trip holds for every fixed |
| AmountCodec.RoundTripTrimmed | libs/core/src/index.ts:188-217 | strToInt(d, intToStr(d, n, -1)) == n for every n >= 0 |
| AmountCodec.RoundTripFixedWide | libs/core/src/index.ts:188-217 | with fixed = N >= d, the zero-padded text still reads back as n |
| AmountCodec.RoundTripFixedNarrow | libs/core/src/index.ts:188-217 | with 0 < fixed = N < d, the text reads back as n truncated to N fractional digits |
| Tokens.TokenMap.constructor | libs/core/src/index.ts:40-44 | adding the tokens in turn leaves the registry of the list, in which the last token with an id wins, and keeps the ids in first-insertion order |
| Tokens.TokenMap.From | libs/core/src/index.ts:54-56 | TokenMap.from builds the same registry as the constructor |
| Tokens.TokenMap.Add | libs/core/src/index.ts:48-50 | the token replaces any entry with its id, other entries are unchanged, and a new id goes last in the order |
| Tokens.TokenMap.Get | libs/core/src/index.ts:45-47 | a miss is undefined exactly when the id is not registered; a hit is the token filed under that id |
| Tokens.TokenMap.GetChecked | libs/core/src/index.test.ts:47-51 | Err("unknown_token") exactly when the id is not registered, otherwise Ok of its token |
| Tokens.TokenMap.All | libs/core/src/index.ts:51-53 | every registered token exactly once, in iteration order |
| Tokens.RegistryLast | libs/core/src/index.ts:40-50 | the last token in the list with a given id is the one registered |
| Tokens.RegistryKeys | libs/core/src/index.ts:40-50 | exactly the ids in the list are registered |
| Tokens.GetDecimals | libs/core/src/index.ts:61-64 | an unset, empty or unknown id gives 8; a known one gives its token's decimals |
| Tokens.DecimalsOfList | libs/core/src/index.ts:61-64 | for a registry built from a list: the decimals of the last token with the id, or 8 when the list lacks the id |
| Tokens.TokenMapTest | libs/core/src/index.test.ts:249-257 | get("foo") is an error, and get("BTC") is Ok of the BTC token with 8 decimals |
| Fees.FeePercIsFiftyBasisPoints | examples/fxgui-react-example/services/crypto.ts:54 | fPerc = from(50).div(from(10000)) is exactly 0.005 |
| Fees.Forwards | examples/fxgui-react-example/services/forex.ts:83-96 | preFee is input·rate and the fee is preFee·fPerc, each truncated toward zero with the sign of its product; the total is exactly preFee + fee |
| Fees.Backwards | examples/fxgui-react-example/services/forex.ts:98-111 | fails exactly on a zero rate; preFee is total/(1 + fPerc) and the input preFee/rate, each truncated toward zero with its sign; preFee + fee is exactly the total |
| Fees.ForwardsNonNegative | examples/fxgui-react-example/services/forex.ts:83-96 | on non-negative inputs preFee and fee are non-negative, total = preFee + fee, preFee·10^33 is within one 10^33 below input·rate, and fee·10^33 within one 10^33 below preFee·fPerc |
| Fees.ForwardsTotalBracket | examples/fxgui-react-example/services/forex.ts:83-96 | the total never exceeds the exact input·rate·(1 + fPerc) and falls short of it by less than 2 + fPerc units of 10^-33 |
| Fees.ForwardsFeeBracket | examples/fxgui-react-example/services/forex.ts:83-96 | the fee never exceeds the exact input·rate·fPerc and falls short of it by less than 1 + fPerc units of 10^-33 |
| Fees.BackwardsBracket | examples/fxgui-react-example/services/forex.ts:98-111 | on non-negative totals at a positive rate: the input never exceeds the exact total/((1 + fPerc)·rate) and falls short of it by less than 1 + 1/rate units; the fee is at least the exact total·fPerc/(1 + fPerc) and less than one unit above it |
| Fees.ForwardsRead | examples/fxgui-react-example/services/forex.ts:125-134 | the total and the fee read at p digits, each against the exact amount: never above it, short by less than one unit of 10^-p plus 2 (total) or 1 (fee) units of 10^-33 |
| Fees.BackwardsRead | examples/fxgui-react-example/services/forex.ts:135-146 | the input and the fee read at their digits against the exact amounts: the input never above and short by less than one unit plus 1/rate units of 10^-33; the exact fee within one unit of the fee read |
| Fees.BackwardsQuotients | examples/fxgui-react-example/services/forex.ts:98-111 | preFee, fee and input are the truncated quotients the source computes |
| Fees.FeeRoundTrip | examples/fxgui-react-example/services/crypto.ts:7-27 | backward on a forward total recovers the pre-fee amount to within one unit of the 33rd digit, and the fee to within one unit |
| Fees.ZeroForwards | examples/fxgui-react-example/services/forex.ts:83-96 | a zero input gives zero pre-fee, fee and total |
| Fees.ZeroBackwards | examples/fxgui-react-example/services/forex.ts:98-111 | a zero total gives zero pre-fee, fee and input at any non-zero rate |
| ForexCalculator.CalculateFn | examples/fxgui-react-example/services/forex.ts:113-146 | a missing rate is "No rate returned"; decimals above 33 are a RangeError in source order; only a zero rate going backward fails otherwise; feePerc is always 50; forward returns the total and fee of the fee layer read at b's decimals, backward the input read at a's decimals and the fee at b's |
| ForexCalculator.ForwardOutputBracket | examples/fxgui-react-example/services/forex.ts:125-134 | for every non-negative amount and rate, forward succeeds and output and feeAmt are the exact amount·rate·1.005 and amount·rate·0.005 in b's units, never above them and short by less than one unit plus 2 (resp. 1) units of 10^-33 |
| ForexCalculator.BackwardOutputBracket | examples/fxgui-react-example/services/forex.ts:135-146 | for every non-negative amount and positive rate, backward succeeds; output never exceeds the exact amount/(1.005·rate) in a's units and falls short by less than one unit plus 1/rate units of 10^-33; the exact fee is within one unit of feeAmt |
| ForexCalculator.ForwardFeeWithinOutput | examples/fxgui-react-example/services/forex.ts:125-134 | going forward from a non-negative amount at a non-negative rate, 0 <= feeAmt <= output |
| ForexCalculator.ZeroAmount | examples/fxgui-react-example/services/forex.ts:113-146 | a zero amount gives output 0 and feeAmt 0 in both directions |
| ForexCalculator.Lookup | examples/fxgui-react-example/services/forex.ts:29-38 | the data is returned exactly when the key is present and its expiry is strictly later than now |
| ForexCalculator.Cache.constructor | examples/fxgui-react-example/services/forex.ts:28 | a new cache is empty |
| ForexCalculator.Cache.GetCache | examples/fxgui-react-example/services/forex.ts:29-38 | getCache answers the lookup at the given clock reading |
| ForexCalculator.Cache.SetCache | examples/fxgui-react-example/services/forex.ts:39-44 | the key's entry becomes the data, expiring ten minutes (600000 ms) after now; other keys are unchanged |
| ForexCalculator.SetThenLookup | examples/fxgui-react-example/services/forex.ts:39-54 | stored data is served for exactly ten minutes, and other keys are served as before |
| PoolCalculator.SortIds | examples/fxgui-react-example/services/crypto.ts:105 | [x, y].sort() is a permutation of the two ids, in order |
| PoolCalculator.SortIdsSymmetric | examples/fxgui-react-example/services/crypto.ts:105 | sorting does not depend on argument order |
| PoolCalculator.PoolId | examples/fxgui-react-example/services/crypto.ts:105 | the pool id is the sorted ids joined by '_' |
| PoolCalculator.RatesFn | examples/fxgui-react-example/services/crypto.ts:98-115 | an unknown pool id fails; otherwise the ticker is the pool id |
| PoolCalculator.RatesFnSymmetric | libs/core/src/test/utils.ts:112-123 | ratesFn(a, b) and ratesFn(b, a) return the same pool |
| PoolCalculator.RatesFnPair | examples/fxgui-react-example/services/crypto.ts:105-110 | for ids without '_', the pair maps the first sorted id to the first reserve and the second id to the second reserve |
| PoolCalculator.CalculateForwards | examples/fxgui-react-example/services/crypto.ts:7-16 | fails exactly when pa is zero, with DivisionByZero; otherwise the fee layer forward at the rate pb/pa |
| PoolCalculator.CalculateBackwards | examples/fxgui-react-example/services/crypto.ts:18-27 | fails exactly when pa or pb/pa is zero; otherwise the fee layer backward at the rate pb/pa, with preFee + fee exactly the total |
| PoolCalculator.CalculateFn | examples/fxgui-react-example/services/crypto.ts:34-81 | a token missing from the pair is "invalid token for pool" with a's id; decimals above 33 are a RangeError; a zero reserve for a fails; forward succeeds otherwise, backward unless the pool rate is zero; feePerc is 50; the output and fee are the fee layer's amounts at the pool rate, read at the output token's and b's decimals (libs/core/src/test/utils.ts:34-90 is the same code up to formatting) |
| PoolCalculator.PoolRateNonNegative | examples/fxgui-react-example/services/crypto.ts:49-51 | with a positive reserve for a and a non-negative one for b, the pool rate exists and is non-negative |
| PoolCalculator.ForwardOutputBracket | examples/fxgui-react-example/services/crypto.ts:48-65 | for every non-negative amount and reserves with pa > 0, forward succeeds with the forex bounds at the pool rate |
| PoolCalculator.BackwardOutputBracket | examples/fxgui-react-example/services/crypto.ts:66-80 | for every non-negative amount and reserves with pa > 0 and a non-zero pool rate, backward succeeds with the forex bounds at the pool rate |
| PoolCalculator.PoolIsForexAtPoolRate | examples/fxgui-react-example/services/crypto.ts:34-81 | the pool calculator is the scalar-rate calculator at rate pb/pa |
| PoolCalculator.ZeroAmount | examples/fxgui-react-example/services/crypto.ts:48-80 | a zero amount gives output 0 and feeAmt 0 in both directions |
| PoolCalculator.BtcUsdPool | libs/core/src/test/utils.ts:103-123 | the makePools table yields the BTC_USD pool for (BTC, USD) and for (USD, BTC) |
| PoolCalculator.BtcUsdReserves | examples/fxgui-react-example/services/crypto.ts:49-50 | the BTC_USD reserves are 1 and 30000 at 33 digits |
| PoolCalculator.BtcUsdRates | examples/fxgui-react-example/services/crypto.ts:8 | pb/pa is exactly 30000 from BTC to USD, and 1/30000 truncated at 33 digits from USD to BTC |
| PoolCalculator.BtcToUsdParts | examples/fxgui-react-example/services/crypto.ts:7-16 | forward parts for 1 BTC: pre-fee 30000, fee 150, total 30150 |
| PoolCalculator.UsdToBtcBackwardParts | examples/fxgui-react-example/services/crypto.ts:18-27 | backward parts for 30150 USD: pre-fee 30000, fee 150, input 1 |
| PoolCalculator.UsdToBtcParts | examples/fxgui-react-example/services/crypto.ts:7-16 | forward parts for 30000 USD carry the truncation of 1/30000 |
| PoolCalculator.BtcToUsd | examples/fxgui-react-example/services/crypto.ts:48-65 | BTC→USD forward of 100000000 gives 3015000 with feeAmt 15000 |
| PoolCalculator.UsdToBtcBackward | examples/fxgui-react-example/services/crypto.ts:66-80 | backward from 3015000 USD gives 100000000 BTC with feeAmt 15000 |
| PoolCalculator.UsdToBtc | examples/fxgui-react-example/services/crypto.ts:48-65 | USD→BTC forward of 3000000 gives 100499999 with feeAmt 499999 |
| PoolCalculator.EthUsdReserves | examples/fxgui-react-example/services/crypto.ts:101 | the ETH_USD reserves and their exact rate of 2000 |
| PoolCalculator.EthToUsdParts | examples/fxgui-react-example/services/crypto.ts:7-16 | forward parts for 0.001001 ETH |
| PoolCalculator.UsdToEthParts | examples/fxgui-react-example/services/crypto.ts:18-27 | backward parts for 2.01 USD |
| PoolCalculator.BackwardMissesForwardInput | examples/fxgui-react-example/services/crypto.ts:48-80 | forward of 10^15 + 10^12 wei gives 201 cents, and backward of 201 cents gives 10^15 wei |
| FeeFreeCalculator.SortTokens | libs/core/src/index.test.ts:278-283 | [b, a] exactly when a.id > b.id; the result is a permutation of the inputs with the first id not after the second |
| FeeFreeCalculator.SortTokensSymmetric | libs/core/src/index.test.ts:278-283 | tokens with different ids sort the same in either order |
| FeeFreeCalculator.CalculateFn | libs/core/src/index.test.ts:262-276 | the first sorted token's decimals above 33, then a zero bAmount, then the second's decimals above 33 fail, in that order; anything else succeeds with from(amount, first.decimals)·(from(aAmount)/from(bAmount)) read at the second's decimals |
| FeeFreeCalculator.OutputBracket | libs/core/src/index.test.ts:262-276 | for every non-negative amount and aAmount and positive bAmount, the call succeeds and the output never exceeds the exact amount·aAmount/bAmount in the second token's units, falling short by less than one unit plus amount·10^(e-d-33) |
| FeeFreeCalculator.RatioScaled | libs/core/src/index.test.ts:273 | from(aAmount).div(from(bAmount)) is aAmount·10^33/bAmount truncated |
| FeeFreeCalculator.CalculateFnSymmetric | libs/core/src/index.test.ts:262-276 | the result ignores the direction and, for distinct ids, the argument order |
| FeeFreeCalculator.WholeRatio | libs/core/src/index.test.ts:262-276 | when aAmount = k·bAmount and both tokens share their decimals, the output is exactly amount·k |
| FeeFreeCalculator.WholeQuotient | libs/core/src/index.test.ts:273 | from(k·y).div(from(y)) is from(k) |
| FeeFreeCalculator.CalculateFnTest | libs/core/src/index.test.ts:307-316 | 100 at 8 decimals in a 30000:1 pool gives 3000000 with an empty breakdown |
| FeeFreeCalculator.GetRates | libs/core/src/index.test.ts:294-297 | an unknown pool fails; otherwise [poolId, ...pools[poolId]] |
| FeeFreeCalculator.GetRatesSymmetric | libs/core/src/index.test.ts:295 | getRates does not depend on argument order |
| FeeFreeCalculator.EnginePoolsRatio | libs/core/src/index.test.ts:285-297 | with makeEngine's BTC_USD pool, 1 BTC converts forward to 3333 units of USD |
| Routing.Sync | libs/core/src/index.ts:84-95 | forward copies tokenAAmt into reactiveA, backward copies tokenBAmt into reactiveB; nothing else changes |
| Routing.TokenPair | libs/core/src/index.ts:105-110 | there is a pair exactly when both ids are set and non-empty |
| Routing.Resolve | libs/core/src/index.ts:112-119 | a pair resolves exactly when both ids are registered |
| Routing.CalculatorInput | libs/core/src/index.ts:131-150 | no request without a resolved pair and rates; the amount is reactiveA going forward and reactiveB going backward |
| Routing.ApplyOutput | libs/core/src/index.ts:158-171 | the output goes to tokenBAmt going forward and to tokenAAmt going backward; no output changes nothing |
| Routing.StepRoutes | libs/core/src/index.ts:84-171 | a step feeds the driving amount to the calculation and stores the output on the other side, leaving the driving side untouched |
| Routing.NoPairNoCalculation | libs/core/src/index.ts:105-138 | without a resolved pair or rates, a step only syncs |
| Routing.DrivenSideIgnored | libs/core/src/index.ts:84-138 | the driven side's amount never reaches the calculation |
| Routing.WriteBackSettles | libs/core/src/index.ts:84-171 | writing the output back leaves the calculation's input unchanged, so the step reaches a fixed point |

## Left out

- Float and locale conversions of `Precision` (`fromNumber`, `toNumber`, `toString`, `toFormat`) are not modelled. They go through JavaScript floats and `Intl`.
- The forex calculator receives its rate as a `Precision`, because `Precision.fromNumber` is a float conversion.
- The forex `ratesFn` (an HTTP fetch with an API key) and `getAssets` (a JSON file) are left out. The crypto example's `getAssets` only builds a `TokenMap`, which is modelled.
- The reactive engine is reduced to its routing rule, as pure functions over its signals. Left out are the signal/effect/resource graph, `nextTick`, asynchronous fetching, and the resource error states.
- `createFxGui` and the UI components are not part of this model.
- The test utilities' polling helpers `eventually` and `expectEventually` are not part of this model.
- FixedPoint.Precision.From: an exponent above 33 is a precondition here. The source throws a RangeError. The calculators model that RangeError.
- FixedPoint.Precision.Unscale: a precision above 33 is likewise a precondition, and the calculators model the RangeError.
- Negative decimals and exponents are not modelled: `Token.decimals` is a natural number.
- `intToStr` on negative amounts is not modelled. Slicing the sign produces malformed text. The round-trip lemmas take `n >= 0`.
- `BigInt(text)`: leading and trailing whitespace and the `0x`/`0o`/`0b` prefixes are not modelled. The model reports a SyntaxError where BigInt would accept them.
- `Number(decimals)` for decimals too large for a float is not modelled.
- String order: Dafny compares characters by code point, JavaScript by UTF-16 code unit. They differ only for characters outside the Basic Multilingual Plane.
- Object keys: pool pairs and the rate table are maps. JavaScript property lookups of inherited keys such as `__proto__` or `toString` are not modelled.
- The BN library is treated as mathematical integers.
- Fees.FeeRoundTrip covers the fee layer at 33 digits only. The round trip on atomic amounts does not hold in general, as PoolCalculator.BackwardMissesForwardInput shows.
- ForexCalculator.Cache.SetCache models ten minutes as 600000 ms. `setMinutes` works in local time, and daylight-saving jumps are not modelled.
- Forex worked values are not modelled: the forex tests assert a different fee convention and use functions forex.ts does not export.
- Tokens.TokenMap: the library's `TokenMap` and the test suite's copy are one class here. `Get` is the library's lookup and `GetChecked` is the test suite's.
- FeeFreeCalculator.CalculateFnTest: the test's tokens have no id; the model gives them the empty id, which sorts the same way.
- PoolCalculator.CalculateBackwards computes pb/pa before dividing the total, while the source divides the total first. Every failure on either path is the same division by zero, so the result is identical.
- The bracket lemmas (Fees.ForwardsTotalBracket, Fees.BackwardsBracket, the calculators' ForwardOutputBracket, BackwardOutputBracket and OutputBracket) are stated only for non-negative amounts, rates and reserves. For negative inputs the truncation toward zero reverses the direction of each bound.
