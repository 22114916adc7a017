/** The pool-based calculator of the crypto example (services/crypto.ts), which
    the library's test utilities (libs/core/src/test/utils.ts) carry verbatim:
    the rate is the ratio of the two tokens' reserves in a pool, looked up by
    the pool id the two token ids sort into. */
module PoolCalculator {
  import opened Results
  import opened Arith
  import opened Strings
  import opened FixedPoint
  import opened Tokens
  import opened Fees
  import ForexCalculator

  /** A pool as ratesFn returns it: its ticker (the pool id) and each token's reserve. */
  datatype Pool = Pool(ticker: string, pair: map<string, int>)

  /** makePools(): two reserves per pool id; the first belongs to the token
      whose id sorts first. */
  const Pools: map<string, (int, int)> := map[
    "BTC_USD" := (1_00000000, 30000_00),
    "ETH_USD" := (1_000000000000000000, 2000_00),
    "BTC_ETH" := (1_00000000, 15_000000000000000000)]

  /** [x, y].sort(): the default sort, which orders strings by `<`. */
  function SortIds(x: string, y: string): (r: (string, string))
    ensures multiset{r.0, r.1} == multiset{x, y}
    ensures !Less(r.1, r.0)
  {
    LessTrichotomy(x, y);
    if Less(y, x) then (y, x) else (x, y)
  }

  /** Sorting two ids does not depend on the order they come in. */
  lemma SortIdsSymmetric(x: string, y: string)
    ensures SortIds(x, y) == SortIds(y, x)
  {
    LessTrichotomy(x, y);
  }

  /** The pool id: the two ids sorted and joined with '_'. */
  function PoolId(x: string, y: string): (id: string)
    ensures var (lo, hi) := SortIds(x, y); id == lo + "_" + hi
  {
    var (lo, hi) := SortIds(x, y);
    Join([lo, hi], '_')
  }

  /** ratesFn(a, b): the pool with the id a and b sort into, its reserves filed
      under the ids the pool id splits back into; an id the table lacks makes
      the source's `pools[poolId][0]` throw. */
  function RatesFn(pools: map<string, (int, int)>, a: Token, b: Token): (r: Result<Pool>)
    ensures r.Err? <==> PoolId(a.id, b.id) !in pools
    ensures r.Err? ==> r.error == UnknownPool(PoolId(a.id, b.id))
    ensures r.Ok? ==> r.value.ticker == PoolId(a.id, b.id)
  {
    var poolId := PoolId(a.id, b.id);
    var lo := SortIds(a.id, b.id).0;
    assert poolId[|lo|] == '_';
    var ids := Split(poolId, '_');
    if poolId !in pools then Err(UnknownPool(poolId))
    else Ok(Pool(poolId, map[ids[0] := pools[poolId].0][ids[1] := pools[poolId].1]))
  }

  /** ratesFn(a, b) and ratesFn(b, a) fetch the same pool. */
  lemma RatesFnSymmetric(pools: map<string, (int, int)>, a: Token, b: Token)
    ensures RatesFn(pools, a, b) == RatesFn(pools, b, a)
  {
    SortIdsSymmetric(a.id, b.id);
  }

  /** For ids without '_', the pair maps the first sorted id to the pool's first
      reserve and the second to its second (the second wins when both ids are
      the same). */
  lemma RatesFnPair(pools: map<string, (int, int)>, a: Token, b: Token)
    requires '_' !in a.id && '_' !in b.id
    requires PoolId(a.id, b.id) in pools
    ensures var (lo, hi) := SortIds(a.id, b.id);
      var reserves := pools[PoolId(a.id, b.id)];
      RatesFn(pools, a, b) == Ok(Pool(lo + "_" + hi, map[lo := reserves.0][hi := reserves.1]))
  {
    var (lo, hi) := SortIds(a.id, b.id);
    SplitAfter(lo, '_', hi);
    assert lo + "_" + hi == lo + ['_'] + hi;
  }

  /** calculateForwards: the rate is pb / pa, then the fee layer. */
  function CalculateForwards(input: Precision, pa: Precision, pb: Precision, fPerc: Precision)
    : (r: Result<ForwardParts>)
    ensures r.Err? <==> pa.scaled == 0
    ensures r.Err? ==> r.error == DivisionByZero
    ensures r.Ok? ==> pb.Div(pa).Ok? && r.value == Forwards(input, pb.Div(pa).value, fPerc)
  {
    var rate :- pb.Div(pa);
    Ok(Forwards(input, rate, fPerc))
  }

  /** calculateBackwards: the fee layer backwards at the rate pb / pa. The
      source divides the total by 1 + fPerc before it computes pb / pa; every
      failure on the way is the same division by zero, so the order is not
      observable. */
  function CalculateBackwards(total: Precision, pa: Precision, pb: Precision, fPerc: Precision)
    : (r: Result<BackwardParts>)
    ensures fPerc.scaled + ScaleForMultiDivi != 0 ==>
      (r.Err? <==> pa.scaled == 0 || pb.Div(pa).value.scaled == 0)
    ensures r.Err? ==> r.error == DivisionByZero
    ensures r.Ok? ==> r.value.preFee.scaled + r.value.fee.scaled == total.scaled
    ensures r.Ok? ==> pb.Div(pa).Ok? && r == Backwards(total, pb.Div(pa).value, fPerc)
  {
    var rate :- pb.Div(pa);
    Backwards(total, rate, fPerc)
  }

  /** The rate at which a pool converts a into b: b's reserve over a's. */
  function PoolRate(pair: map<string, int>, a: Token, b: Token): Result<Precision>
    requires a.id in pair && b.id in pair
    requires a.decimals <= InternalScale && b.decimals <= InternalScale
  {
    Precision.From(pair[b.id], b.decimals).Div(Precision.From(pair[a.id], a.decimals))
  }

  /** calculateFn: the output amount and its fee breakdown for `amount` of a
      (forward) or the fee-inclusive `amount` of b (backward). A token missing
      from the pool is "invalid token for pool" (naming a, whichever token is
      missing), decimals above 33 are a RangeError, and a zero reserve for a
      makes pb.div(pa) fail. */
  function CalculateFn(amount: int, a: Token, b: Token, dir: Direction, rates: Pool)
    : (r: Result<(int, Breakdown)>)
    ensures a.id !in rates.pair || b.id !in rates.pair ==> r == Err(InvalidTokenForPool(a.id))
    ensures a.id in rates.pair && b.id in rates.pair ==>
      (a.decimals > InternalScale || b.decimals > InternalScale ==> r == Err(RangeError))
    ensures (a.id in rates.pair && b.id in rates.pair &&
      a.decimals <= InternalScale && b.decimals <= InternalScale) ==>
      && (rates.pair[a.id] == 0 ==> r == Err(DivisionByZero))
      && (rates.pair[a.id] != 0 && dir == Forward ==> r.Ok?)
      && (rates.pair[a.id] != 0 && dir == Backward ==>
            (r.Err? <==> PoolRate(rates.pair, a, b) == Ok(Precision(0))))
    ensures r.Ok? ==> r.value.1.feePerc == FeePercInt
    ensures r.Ok? && dir == Forward ==>
      && a.id in rates.pair && b.id in rates.pair
      && a.decimals <= InternalScale && b.decimals <= InternalScale
      && PoolRate(rates.pair, a, b).Ok?
      && var parts := Forwards(Precision.From(amount, a.decimals), PoolRate(rates.pair, a, b).value, FeePerc);
         r.value == (parts.total.Unscale(b.decimals), Breakdown(FeePercInt, parts.fee.Unscale(b.decimals)))
    ensures r.Ok? && dir == Backward ==>
      && a.id in rates.pair && b.id in rates.pair
      && a.decimals <= InternalScale && b.decimals <= InternalScale
      && PoolRate(rates.pair, a, b).Ok?
      && var parts := Backwards(Precision.From(amount, b.decimals), PoolRate(rates.pair, a, b).value, FeePerc);
         && parts.Ok?
         && r.value == (parts.value.input.Unscale(a.decimals), Breakdown(FeePercInt, parts.value.fee.Unscale(b.decimals)))
  {
    var pair := rates.pair;
    if a.id !in pair || b.id !in pair then Err(InvalidTokenForPool(a.id))
    else if a.decimals > InternalScale || b.decimals > InternalScale then Err(RangeError)
    else
      var pa := Precision.From(pair[a.id], a.decimals);
      var pb := Precision.From(pair[b.id], b.decimals);
      FromIsZero(pair[a.id], a.decimals);
      match dir
      case Forward =>
        var parts :- CalculateForwards(Precision.From(amount, a.decimals), pa, pb, FeePerc);
        Ok((parts.total.Unscale(b.decimals), Breakdown(FeePercInt, parts.fee.Unscale(b.decimals))))
      case Backward =>
        var parts :- CalculateBackwards(Precision.From(amount, b.decimals), pa, pb, FeePerc);
        Ok((parts.input.Unscale(a.decimals), Breakdown(FeePercInt, parts.fee.Unscale(b.decimals))))
  }

  /** The pool calculator is the forex calculator at the rate pb / pa. */
  lemma PoolIsForexAtPoolRate(amount: int, a: Token, b: Token, dir: Direction, rates: Pool)
    requires a.id in rates.pair && b.id in rates.pair
    requires a.decimals <= InternalScale && b.decimals <= InternalScale
    requires rates.pair[a.id] != 0
    ensures PoolRate(rates.pair, a, b).Ok?
    ensures CalculateFn(amount, a, b, dir, rates) ==
      ForexCalculator.CalculateFn(amount, a, b, dir, map[b.id := PoolRate(rates.pair, a, b).value])
  {
    FromIsZero(rates.pair[a.id], a.decimals);
  }

  /** The pool rate is the reserve of b over the reserve of a, truncated to
      33 fractional digits; with positive reserves it is non-negative. */
  lemma PoolRateNonNegative(pair: map<string, int>, a: Token, b: Token)
    requires a.id in pair && b.id in pair
    requires a.decimals <= InternalScale && b.decimals <= InternalScale
    requires pair[a.id] > 0 && pair[b.id] >= 0
    ensures PoolRate(pair, a, b).Ok? && PoolRate(pair, a, b).value.scaled >= 0
  {
    var pa := Precision.From(pair[a.id], a.decimals);
    var pb := Precision.From(pair[b.id], b.decimals);
    SignMul(pair[a.id], Pow10(InternalScale - a.decimals));
    NonNegativeProduct(pair[b.id], Pow10(InternalScale - b.decimals));
    NonNegativeProduct(pb.scaled, pa.scaled);
  }

  /** Forward against the exact conversion at the pool rate R (pb / pa at
      scale 10^33): the same bounds as the forex calculator at R. */
  lemma ForwardOutputBracket(amount: int, a: Token, b: Token, rates: Pool)
    returns (output: int, feeAmt: int)
    requires a.id in rates.pair && b.id in rates.pair
    requires a.decimals <= InternalScale && b.decimals <= InternalScale
    requires rates.pair[a.id] > 0 && rates.pair[b.id] >= 0 && amount >= 0
    ensures PoolRate(rates.pair, a, b).Ok?
    ensures CalculateFn(amount, a, b, Forward, rates) == Ok((output, Breakdown(FeePercInt, feeAmt)))
    ensures ForwardTotalRead(output, Pow10(InternalScale - b.decimals),
      Precision.From(amount, a.decimals).scaled * PoolRate(rates.pair, a, b).value.scaled, FeePerc.scaled)
    ensures ForwardFeeRead(feeAmt, Pow10(InternalScale - b.decimals),
      Precision.From(amount, a.decimals).scaled * PoolRate(rates.pair, a, b).value.scaled, FeePerc.scaled)
  {
    PoolRateNonNegative(rates.pair, a, b);
    PoolIsForexAtPoolRate(amount, a, b, Forward, rates);
    output, feeAmt := ForexCalculator.ForwardOutputBracket(amount, a, b,
      map[b.id := PoolRate(rates.pair, a, b).value]);
  }

  /** Backward against the exact conversion at the pool rate R, as long as
      R does not truncate to zero: the same bounds as the forex calculator at R. */
  lemma BackwardOutputBracket(amount: int, a: Token, b: Token, rates: Pool)
    returns (output: int, feeAmt: int)
    requires a.id in rates.pair && b.id in rates.pair
    requires a.decimals <= InternalScale && b.decimals <= InternalScale
    requires rates.pair[a.id] > 0 && rates.pair[b.id] >= 0 && amount >= 0
    requires PoolRate(rates.pair, a, b) != Ok(Precision(0))
    ensures PoolRate(rates.pair, a, b).Ok?
    ensures CalculateFn(amount, a, b, Backward, rates) == Ok((output, Breakdown(FeePercInt, feeAmt)))
    ensures BackwardInputRead(output, Pow10(InternalScale - a.decimals),
      Precision.From(amount, b.decimals).scaled, PoolRate(rates.pair, a, b).value.scaled, FeePerc.scaled)
    ensures BackwardFeeRead(feeAmt, Pow10(InternalScale - b.decimals),
      Precision.From(amount, b.decimals).scaled, FeePerc.scaled)
  {
    PoolRateNonNegative(rates.pair, a, b);
    PoolIsForexAtPoolRate(amount, a, b, Backward, rates);
    output, feeAmt := ForexCalculator.BackwardOutputBracket(amount, a, b,
      map[b.id := PoolRate(rates.pair, a, b).value]);
  }

  /** A zero amount converts to zero at no fee (backward, as long as the pool
      rate does not truncate to zero). */
  lemma ZeroAmount(a: Token, b: Token, dir: Direction, rates: Pool)
    requires a.id in rates.pair && b.id in rates.pair
    requires a.decimals <= InternalScale && b.decimals <= InternalScale
    requires rates.pair[a.id] != 0
    requires PoolRate(rates.pair, a, b).Ok? && PoolRate(rates.pair, a, b).value.scaled != 0
    ensures CalculateFn(0, a, b, dir, rates) == Ok((0, Breakdown(FeePercInt, 0)))
  {
    PoolIsForexAtPoolRate(0, a, b, dir, rates);
    ForexCalculator.ZeroAmount(a, b, dir, map[b.id := PoolRate(rates.pair, a, b).value]);
  }

  // ---------------------------------------------------------------------------
  // The worked values of the example's BTC/USD pool

  const Btc: Token := Token("BTC", 8)
  const Usd: Token := Token("USD", 2)
  const BtcUsd: Pool := Pool("BTC_USD", map["BTC" := 1_00000000, "USD" := 30000_00])

  /** Both orders of BTC and USD fetch the BTC_USD pool. */
  lemma BtcUsdPool()
    ensures RatesFn(Pools, Btc, Usd) == Ok(BtcUsd)
    ensures RatesFn(Pools, Usd, Btc) == Ok(BtcUsd)
  {
    BtcUsdSorted();
    RatesFnSymmetric(Pools, Btc, Usd);
  }

  lemma BtcUsdSorted()
    ensures RatesFn(Pools, Btc, Usd) == Ok(BtcUsd)
  {
    assert !Less("USD", "BTC") && "BTC" + "_" + "USD" == "BTC_USD";
    RatesFnPair(Pools, Btc, Usd);
  }

  /** The pool's reserves at the internal scale: one bitcoin against 30000
      dollars. */
  lemma BtcUsdReserves()
    ensures Precision.From(1_00000000, 8) == Precision(1000000000000000000000000000000000)
    ensures Precision.From(30000_00, 2) == Precision(30000000000000000000000000000000000000)
  {
    Pow10Of25();
    Pow10Of31();
  }

  /** The rate from bitcoin to dollars is exact; the rate back is 1/30000
      truncated at 33 digits. */
  lemma BtcUsdRates()
    ensures Precision(30000000000000000000000000000000000000).Div(Precision(1000000000000000000000000000000000)) == Ok(Precision(30000000000000000000000000000000000000))
    ensures Precision(1000000000000000000000000000000000).Div(Precision(30000000000000000000000000000000000000)) == Ok(Precision(33333333333333333333333333333))
  {
    TDivExact(30000000000000000000000000000000000000, 1000000000000000000000000000000000);
    TDivOfBracket(1000000000000000000000000000000000000000000000000000000000000000000, 30000000000000000000000000000000000000, 33333333333333333333333333333);
  }

  lemma BtcToUsdParts()
    ensures Forwards(Precision(1000000000000000000000000000000000), Precision(30000000000000000000000000000000000000), FeePerc)
      == ForwardParts(Precision(150000000000000000000000000000000000), Precision(30150000000000000000000000000000000000), Precision(30000000000000000000000000000000000000))
  {
    TDivExact(30000000000000000000000000000000000000, 1000000000000000000000000000000000);
    TDivExact(150000000000000000000000000000000000, 1000000000000000000000000000000000);
  }

  lemma UsdToBtcBackwardParts()
    ensures Backwards(Precision(30150000000000000000000000000000000000), Precision(30000000000000000000000000000000000000), FeePerc)
      == Ok(BackwardParts(Precision(30000000000000000000000000000000000000), Precision(150000000000000000000000000000000000), Precision(1000000000000000000000000000000000)))
  {
    TDivExact(30000000000000000000000000000000000000, 1005000000000000000000000000000000);
    TDivExact(1000000000000000000000000000000000, 30000000000000000000000000000000000000);
  }

  lemma UsdToBtcParts()
    ensures Forwards(Precision(30000000000000000000000000000000000000), Precision(33333333333333333333333333333), FeePerc)
      == ForwardParts(Precision(4999999999999999999999999999950), Precision(1004999999999999999999999999989950), Precision(999999999999999999999999999990000))
  {
    TDivExact(999999999999999999999999999990000, 1000000000000000000000000000000000);
    TDivExact(4999999999999999999999999999950, 1000000000000000000000000000000000);
  }

  /** One bitcoin buys 30000 dollars, plus a fee of 150 dollars. */
  lemma BtcToUsd()
    ensures CalculateFn(1_00000000, Btc, Usd, Forward, BtcUsd) == Ok((30150_00, Breakdown(50, 150_00)))
  {
    BtcUsdReserves();
    BtcUsdRates();
    BtcToUsdParts();
    Pow10Of31();
    FromUnscale(30150_00, 2);
    FromUnscale(150_00, 2);
  }

  /** A fee-inclusive 30150 dollars is bought with exactly one bitcoin, 150
      dollars of it fee. */
  lemma UsdToBtcBackward()
    ensures CalculateFn(30150_00, Btc, Usd, Backward, BtcUsd) == Ok((1_00000000, Breakdown(50, 150_00)))
  {
    BtcUsdReserves();
    BtcUsdRates();
    Pow10Of31();
    Pow10Of25();
    FromUnscale(30150_00, 2);
    UsdToBtcBackwardParts();
    FromUnscale(1_00000000, 8);
    FromUnscale(150_00, 2);
  }

  /** 30000 dollars buy 1.00499999 bitcoin, the fee 0.00499999 of it: the rate
      1/30000 truncated at 33 digits loses the last unit of each. */
  lemma UsdToBtc()
    ensures CalculateFn(30000_00, Usd, Btc, Forward, BtcUsd) == Ok((1_00499999, Breakdown(50, 499999)))
  {
    BtcUsdReserves();
    BtcUsdRates();
    UsdToBtcParts();
    Pow10Of25();
    TDivOfBracket(1004999999999999999999999999989950, 10000000000000000000000000, 1_00499999);
    TDivOfBracket(4999999999999999999999999999950, 10000000000000000000000000, 499999);
  }

  // ---------------------------------------------------------------------------
  // Backward does not invert forward on atomic amounts

  const Eth: Token := Token("ETH", 18)
  const EthUsd: Pool := Pool("ETH_USD", map["ETH" := 1_000000000000000000, "USD" := 2000_00])

  lemma EthUsdReserves()
    ensures Precision.From(1_000000000000000000, 18) == Precision(1000000000000000000000000000000000)
    ensures Precision.From(2000_00, 2) == Precision(2000000000000000000000000000000000000)
    ensures Precision(2000000000000000000000000000000000000).Div(Precision(1000000000000000000000000000000000)) == Ok(Precision(2000000000000000000000000000000000000))
  {
    Pow10Of15();
    Pow10Of31();
    TDivExact(2000000000000000000000000000000000000, 1000000000000000000000000000000000);
  }

  lemma EthToUsdParts()
    ensures Forwards(Precision(1001000000000000000000000000000), Precision(2000000000000000000000000000000000000), FeePerc)
      == ForwardParts(Precision(10010000000000000000000000000000), Precision(2012010000000000000000000000000000), Precision(2002000000000000000000000000000000))
  {
    TDivExact(2002000000000000000000000000000000, 1000000000000000000000000000000000);
    TDivExact(10010000000000000000000000000000, 1000000000000000000000000000000000);
  }

  lemma UsdToEthParts()
    ensures Backwards(Precision(2010000000000000000000000000000000), Precision(2000000000000000000000000000000000000), FeePerc)
      == Ok(BackwardParts(Precision(2000000000000000000000000000000000), Precision(10000000000000000000000000000000), Precision(1000000000000000000000000000000)))
  {
    TDivExact(2000000000000000000000000000000000, 1005000000000000000000000000000000);
    TDivExact(1000000000000000000000000000000, 2000000000000000000000000000000000000);
  }

  /** 0.001001 ether buys 2.01 dollars (fee included), yet 2.01 dollars are
      bought with 0.001 ether: the digits the forward output drops at 2
      decimals do not come back, so the backward calculation misses the
      original amount by 10^12 atomic units, not by at most one. */
  lemma BackwardMissesForwardInput()
    ensures CalculateFn(1_001000000000000, Eth, Usd, Forward, EthUsd) == Ok((2_01, Breakdown(50, 1)))
    ensures CalculateFn(2_01, Eth, Usd, Backward, EthUsd) == Ok((1_000000000000000, Breakdown(50, 1)))
  {
    EthToUsd();
    UsdToEthBackward();
  }

  lemma EthToUsd()
    ensures CalculateFn(1_001000000000000, Eth, Usd, Forward, EthUsd) == Ok((2_01, Breakdown(50, 1)))
  {
    EthUsdReserves();
    Pow10Of15();
    Pow10Of31();
    assert Precision.From(1_001000000000000, 18) == Precision(1001000000000000000000000000000);
    EthToUsdParts();
    TDivOfBracket(2012010000000000000000000000000000, 10000000000000000000000000000000, 201);
    TDivOfBracket(10010000000000000000000000000000, 10000000000000000000000000000000, 1);
  }

  lemma UsdToEthBackward()
    ensures CalculateFn(2_01, Eth, Usd, Backward, EthUsd) == Ok((1_000000000000000, Breakdown(50, 1)))
  {
    EthUsdReserves();
    Pow10Of15();
    Pow10Of31();
    UsdToEthParts();
    FromUnscale(1_000000000000000, 18);
    FromUnscale(1, 2);
  }
}
