/** The fee-free calculator and the pool table of the library's engine tests
    (libs/core/src/index.test.ts): the two tokens are put in id order, and the
    first token's amount is multiplied by the ratio of the pool's two amounts. */
module FeeFreeCalculator {
  import opened Results
  import opened Arith
  import opened Strings
  import opened FixedPoint
  import opened Tokens
  import PoolCalculator

  /** The test's pool: `[poolId, aAmount, bAmount]`. */
  datatype TestPool = TestPool(ticker: string, aAmount: int, bAmount: int)

  /** sortTokens(a, b): the pair in id order, b first only when a.id > b.id. */
  function SortTokens(a: Token, b: Token): (r: (Token, Token))
    ensures Less(b.id, a.id) ==> r == (b, a)
    ensures !Less(b.id, a.id) ==> r == (a, b)
    ensures multiset{r.0, r.1} == multiset{a, b}
    ensures !Less(r.1.id, r.0.id)
  {
    LessTrichotomy(a.id, b.id);
    if Less(b.id, a.id) then (b, a) else (a, b)
  }

  /** Tokens with different ids sort the same whichever comes first. */
  lemma SortTokensSymmetric(a: Token, b: Token)
    requires a.id != b.id
    ensures SortTokens(a, b) == SortTokens(b, a)
  {
    LessTrichotomy(a.id, b.id);
  }

  /** calculateFn of the tests: `amount` of the first token in id order times
      aAmount / bAmount, read in the second token's decimals; the direction is
      not consulted and the breakdown is always the empty object. Decimals above
      33 raise a RangeError and a zero bAmount a division by zero, in the order
      the source evaluates them. */
  function CalculateFn(amount: int, a: Token, b: Token, dir: Direction, rates: TestPool)
    : (r: Result<(int, ())>)
    ensures var (first, second) := SortTokens(a, b);
      && (first.decimals > InternalScale ==> r == Err(RangeError))
      && (first.decimals <= InternalScale && rates.bAmount == 0 ==> r == Err(DivisionByZero))
      && (first.decimals <= InternalScale && rates.bAmount != 0 && second.decimals > InternalScale ==>
            r == Err(RangeError))
      && (r.Ok? <==> first.decimals <= InternalScale && second.decimals <= InternalScale && rates.bAmount != 0)
    ensures r.Ok? ==>
      && SortTokens(a, b).0.decimals <= InternalScale && SortTokens(a, b).1.decimals <= InternalScale
      && Precision.From(rates.aAmount).Div(Precision.From(rates.bAmount)).Ok?
      && r.value.0 == Precision.From(amount, SortTokens(a, b).0.decimals)
           .Mul(Precision.From(rates.aAmount).Div(Precision.From(rates.bAmount)).value)
           .Unscale(SortTokens(a, b).1.decimals)
  {
    var (tokenA, tokenB) := SortTokens(a, b);
    if tokenA.decimals > InternalScale then Err(RangeError)
    else
      var input := Precision.From(amount, tokenA.decimals);
      FromIsZero(rates.bAmount, 0);
      var ratio :- Precision.From(rates.aAmount).Div(Precision.From(rates.bAmount));
      var output := input.Mul(ratio);
      if tokenB.decimals > InternalScale then Err(RangeError)
      else Ok((output.Unscale(tokenB.decimals), ()))
  }

  /** The result depends neither on the direction nor, for distinct ids, on
      the order the tokens are passed in. */
  lemma CalculateFnSymmetric(amount: int, a: Token, b: Token, dir: Direction, dir': Direction, rates: TestPool)
    requires a.id != b.id
    ensures CalculateFn(amount, a, b, dir, rates) == CalculateFn(amount, b, a, dir', rates)
  {
    SortTokensSymmetric(a, b);
  }

  /** When aAmount is k times bAmount and both tokens have the same decimals,
      the amount is multiplied by k exactly. */
  lemma WholeRatio(amount: int, a: Token, b: Token, dir: Direction, rates: TestPool, k: int)
    requires a.decimals == b.decimals <= InternalScale
    requires rates.bAmount != 0 && rates.aAmount == k * rates.bAmount
    ensures CalculateFn(amount, a, b, dir, rates) == Ok((amount * k, ()))
  {
    var d := SortTokens(a, b).0.decimals;
    WholeQuotient(rates.aAmount, rates.bAmount, k);
    MulFrom(amount, d, k, 0);
    FromUnscale(amount * k, d);
  }

  /** The output o against the exact conversion, for a scaled input amount
      (amount·10^(33-d), d the first token's decimals) and o in units
      u = 10^(33-e) of the scaled value, e the second token's decimals:
      o·u never exceeds input·aA/bA and falls short of it by less than
      u + input/S, S = 10^33. In the second token's units the output is the
      exact amount·10^-d·aA/bA·10^e truncated, less at most one unit and
      amount·10^(e-d-33). */
  predicate RatioRead(o: int, u: int, input: int, aA: int, bA: int) {
    var S := ScaleForMultiDivi;
    o * u * bA <= input * aA && input * aA * S < ((o + 1) * u * S + input) * bA
  }

  /** The all-inputs bound: for a non-negative amount and pool, calculateFn
      succeeds with the output RatioRead describes. */
  lemma OutputBracket(amount: int, a: Token, b: Token, dir: Direction, rates: TestPool)
    returns (output: int)
    requires a.decimals <= InternalScale && b.decimals <= InternalScale
    requires amount >= 0 && rates.aAmount >= 0 && rates.bAmount > 0
    ensures CalculateFn(amount, a, b, dir, rates) == Ok((output, ()))
    ensures RatioRead(output, Pow10(InternalScale - SortTokens(a, b).1.decimals),
      Precision.From(amount, SortTokens(a, b).0.decimals).scaled, rates.aAmount, rates.bAmount)
  {
    var first, second := SortTokens(a, b).0, SortTokens(a, b).1;
    var input := Precision.From(amount, first.decimals);
    NonNegativeProduct(amount, Pow10(InternalScale - first.decimals));
    var q := RatioScaled(rates.aAmount, rates.bAmount);
    var ratio := Precision.From(rates.aAmount).Div(Precision.From(rates.bAmount)).value;
    var m := ProductScaled(input, ratio);
    output := UnscaleNonNegative(input.Mul(ratio), second.decimals);
    OutputValue(amount, a, b, dir, rates, output);
    RatioArith(input.scaled, rates.aAmount, rates.bAmount, q, m,
      Pow10(InternalScale - second.decimals), output);
  }

  /** Success in terms of the fixed-point operations it performs. */
  lemma OutputValue(amount: int, a: Token, b: Token, dir: Direction, rates: TestPool, output: int)
    requires a.decimals <= InternalScale && b.decimals <= InternalScale && rates.bAmount != 0
    requires Precision.From(rates.aAmount).Div(Precision.From(rates.bAmount)).Ok?
    requires output == Precision.From(amount, SortTokens(a, b).0.decimals)
      .Mul(Precision.From(rates.aAmount).Div(Precision.From(rates.bAmount)).value)
      .Unscale(SortTokens(a, b).1.decimals)
    ensures CalculateFn(amount, a, b, dir, rates) == Ok((output, ()))
  {
  }

  /** The ratio aAmount / bAmount at scale S: q·bA <= aA·S < q·bA + bA. */
  lemma RatioScaled(aA: int, bA: int) returns (q: nat)
    requires aA >= 0 && bA > 0
    ensures Precision.From(aA).Div(Precision.From(bA)).Ok?
    ensures q == Precision.From(aA).Div(Precision.From(bA)).value.scaled
    ensures q * bA <= aA * ScaleForMultiDivi < q * bA + bA
  {
    DivByWhole(aA, 0, bA);
    ScaleIsPow10();
    NonNegativeProduct(aA, ScaleForMultiDivi);
    TDivMonotone(0, aA * ScaleForMultiDivi, bA);
    TDivZero(bA);
    q := Precision.From(aA).Div(Precision.From(bA)).value.scaled;
  }

  /** The product of two non-negative values at scale S: m·S <= x·y < m·S + S. */
  lemma ProductScaled(x: Precision, y: Precision) returns (m: nat)
    requires x.scaled >= 0 && y.scaled >= 0
    ensures m == x.Mul(y).scaled
    ensures m * ScaleForMultiDivi <= x.scaled * y.scaled < m * ScaleForMultiDivi + ScaleForMultiDivi
  {
    NonNegativeProduct(x.scaled, y.scaled);
    m := x.Mul(y).scaled;
  }

  /** RatioRead from the three truncations: the ratio, the product and unscale. */
  lemma RatioArith(input: nat, aA: nat, bA: nat, q: nat, m: nat, u: nat, o: nat)
    requires bA > 0 && u > 0
    requires q * bA <= aA * ScaleForMultiDivi < q * bA + bA
    requires m * ScaleForMultiDivi <= input * q < m * ScaleForMultiDivi + ScaleForMultiDivi
    requires o * u <= m < o * u + u
    ensures RatioRead(o, u, input, aA, bA)
  {
    RatioChain(input, aA, bA, ScaleForMultiDivi, q, m, u, o);
  }

  lemma RatioChain(input: nat, aA: nat, bA: nat, S: nat, q: nat, m: nat, u: nat, o: nat)
    requires bA > 0 && u > 0 && S > 0
    requires q * bA <= aA * S < q * bA + bA
    requires m * S <= input * q < m * S + S
    requires o * u <= m < o * u + u
    ensures o * u * bA <= input * aA
    ensures input * aA * S < ((o + 1) * u * S + input) * bA
  {
    RatioLow(input, aA, bA, S, q, m, o * u);
    RatioHigh(input, aA, bA, S, q, m, (o + 1) * u);
    assert (o + 1) * u == o * u + u;
  }

  lemma RatioLow(input: nat, aA: nat, bA: nat, S: nat, q: nat, m: nat, w: nat)
    requires bA > 0 && S > 0
    requires q * bA <= aA * S
    requires m * S <= input * q
    requires w <= m
    ensures w * bA <= input * aA
  {
    MulMonotone(w, m, S * bA);
    MulMonotone(m * S, input * q, bA);
    MulMonotone(q * bA, aA * S, input);
    MulAssoc(w, S, bA);
    MulRotate(w, bA, S);
    MulAssoc(m, S, bA);
    MulAssoc(input, q, bA);
    MulAssoc(input, aA, S);
    MulCancel(w * bA, input * aA, S);
  }

  lemma RatioHigh(input: nat, aA: nat, bA: nat, S: nat, q: nat, m: nat, w: nat)
    requires bA > 0 && S > 0
    requires aA * S < q * bA + bA
    requires input * q < m * S + S
    requires m < w
    ensures input * aA * S < (w * S + input) * bA
  {
    MulMonotone(aA * S, q * bA + bA, input);
    MulStrict(input * q, m * S + S, bA);
    MulMonotone(m + 1, w, S * bA);
    MulAssoc(input, aA, S);
    MulAddRight(q * bA, bA, input);
    MulAssoc(input, q, bA);
    MulAddRight(m * S, S, bA);
    MulAddRight(m, 1, S * bA);
    MulAssoc(m, S, bA);
    MulAddRight(w * S, input, bA);
    MulAssoc(w, S, bA);
  }

  lemma WholeQuotient(x: int, y: int, k: int)
    requires y != 0 && x == k * y
    ensures Precision.From(x).Div(Precision.From(y)) == Ok(Precision.From(k))
  {
    var P := Pow10(InternalScale);
    DivByWhole(x, 0, y);
    MulRotate(k, y, P);
    TDivExact(k * P, y);
  }

  /** The calculateFn test: 100 units at 8 decimals, in a pool 30000 to 1. */
  lemma CalculateFnTest()
    ensures CalculateFn(100, Token("", 8), Token("", 8), Forward,
                        TestPool("BTC_USD", 30_000 * 1_000_000, 1 * 1_000_000)) == Ok((3000000, ()))
  {
    WholeRatio(100, Token("", 8), Token("", 8), Forward,
               TestPool("BTC_USD", 30_000 * 1_000_000, 1 * 1_000_000), 30_000);
  }

  /** The pools of makeEngine: the first amount belongs to the id that sorts
      first. */
  const TestPools: map<string, (int, int)> := map[
    "BTC_USD" := (1 * 1_000_000, 30_000 * 1_000_000),
    "ETH_USD" := (1 * 1_000_000, 2_000 * 1_000_000),
    "BTC_ETH" := (1 * 1_000_000, 15 * 1_000_000)]

  /** makeEngine's getRates: `[poolId, ...pools[poolId]]`, which throws when
      the table has no such pool. */
  function GetRates(pools: map<string, (int, int)>, a: Token, b: Token): (r: Result<TestPool>)
    ensures var id := PoolCalculator.PoolId(a.id, b.id);
      && (r.Err? <==> id !in pools)
      && (r.Err? ==> r.error == UnknownPool(id))
      && (r.Ok? ==> r.value == TestPool(id, pools[id].0, pools[id].1))
  {
    var poolId := PoolCalculator.PoolId(a.id, b.id);
    if poolId !in pools then Err(UnknownPool(poolId))
    else Ok(TestPool(poolId, pools[poolId].0, pools[poolId].1))
  }

  /** getRates(a, b) and getRates(b, a) agree. */
  lemma GetRatesSymmetric(pools: map<string, (int, int)>, a: Token, b: Token)
    ensures GetRates(pools, a, b) == GetRates(pools, b, a)
  {
    PoolCalculator.SortIdsSymmetric(a.id, b.id);
  }

  /** The engine tests' calculator and pool table disagree on which way the
      ratio goes: with makeEngine's BTC_USD pool, one bitcoin (at the tests' 8
      decimals) converts to 1/30000 of a dollar, truncated. The calculateFn test
      passes its pool the other way round, 30000 to 1. */
  lemma EnginePoolsRatio()
    ensures var btc, usd := Token("BTC", 8), Token("USD", 8);
      var pool := GetRates(TestPools, btc, usd);
      pool.Ok? && CalculateFn(1_00000000, btc, usd, Forward, pool.value) == Ok((3333, ()))
  {
    var btc, usd := Token("BTC", 8), Token("USD", 8);
    assert !Less("USD", "BTC") && "BTC" + "_" + "USD" == "BTC_USD";
    var pool := TestPool("BTC_USD", 1_000_000, 30_000_000_000);
    assert GetRates(TestPools, btc, usd) == Ok(pool);
    DivByWhole(1_000_000, 0, 30_000_000_000);
    ScaleIsPow10();
    Pow10Of25();
    TDivOfBracket(1_000_000 * Pow10(InternalScale), 30_000_000_000, 33_333_333_333_333_333_333_333_333_333);
    TDivOfBracket(33_333_333_333_333_333_333_333_333_333 * Pow10(InternalScale), Pow10(InternalScale), 33_333_333_333_333_333_333_333_333_333);
  }
}
