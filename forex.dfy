/** The scalar-rate calculator of the forex example: the quote currency's rate
    against the base currency, from a table of rates keyed by currency id, with
    the fee layer on top; and the expiring cache the example keeps its fetched
    rate tables in. */
module ForexCalculator {
  import opened Results
  import opened Arith
  import opened FixedPoint
  import opened Tokens
  import opened Fees

  /** calculateFn: the output amount and its fee breakdown. Going forward the
      input is `amount` of a and the output is in b's decimals; going backward
      the input is the fee-inclusive `amount` of b and the output is in a's
      decimals, the fee always in b's. A missing rate is "No rate returned";
      a precision above 33 raises a RangeError where the source first reaches
      it; a zero rate makes the backward division fail. */
  function CalculateFn(amount: int, a: Token, b: Token, dir: Direction, rates: map<string, Precision>)
    : (r: Result<(int, Breakdown)>)
    ensures b.id !in rates ==> r == Err(NoRateReturned)
    ensures b.id in rates && a.decimals <= InternalScale && b.decimals <= InternalScale ==>
      (r.Err? <==> dir == Backward && rates[b.id].scaled == 0)
    ensures b.id in rates && b.decimals > InternalScale ==> r == Err(RangeError)
    ensures b.id in rates && a.decimals > InternalScale && !(dir == Backward && rates[b.id].scaled == 0) ==>
      r == Err(RangeError)
    ensures r.Err? && b.id in rates ==> r.error != NoRateReturned
    ensures r.Ok? ==> r.value.1.feePerc == FeePercInt
    ensures r.Ok? && dir == Forward ==>
      && b.id in rates && a.decimals <= InternalScale && b.decimals <= InternalScale
      && r.value.0 == Forwards(Precision.From(amount, a.decimals), rates[b.id], FeePerc).total.Unscale(b.decimals)
      && r.value.1.feeAmt == Forwards(Precision.From(amount, a.decimals), rates[b.id], FeePerc).fee.Unscale(b.decimals)
    ensures r.Ok? && dir == Backward ==>
      && b.id in rates && a.decimals <= InternalScale && b.decimals <= InternalScale
      && Backwards(Precision.From(amount, b.decimals), rates[b.id], FeePerc).Ok?
      && r.value.0 == Backwards(Precision.From(amount, b.decimals), rates[b.id], FeePerc).value.input.Unscale(a.decimals)
      && r.value.1.feeAmt == Backwards(Precision.From(amount, b.decimals), rates[b.id], FeePerc).value.fee.Unscale(b.decimals)
  {
    if b.id !in rates then Err(NoRateReturned)
    else
      var rate := rates[b.id];
      match dir
      case Forward =>
        if a.decimals > InternalScale then Err(RangeError)
        else
          var parts := Forwards(Precision.From(amount, a.decimals), rate, FeePerc);
          if b.decimals > InternalScale then Err(RangeError)
          else Ok((parts.total.Unscale(b.decimals), Breakdown(FeePercInt, parts.fee.Unscale(b.decimals))))
      case Backward =>
        if b.decimals > InternalScale then Err(RangeError)
        else
          var parts :- Backwards(Precision.From(amount, b.decimals), rate, FeePerc);
          if a.decimals > InternalScale then Err(RangeError)
          else Ok((parts.input.Unscale(a.decimals), Breakdown(FeePercInt, parts.fee.Unscale(b.decimals))))
  }

  /** Going forward from a non-negative amount at a non-negative rate, the fee
      is non-negative and never exceeds the fee-inclusive output. */
  lemma ForwardFeeWithinOutput(amount: int, a: Token, b: Token, rates: map<string, Precision>)
    requires b.id in rates && rates[b.id].scaled >= 0 && amount >= 0
    requires a.decimals <= InternalScale && b.decimals <= InternalScale
    ensures var r := CalculateFn(amount, a, b, Forward, rates);
      r.Ok? && 0 <= r.value.1.feeAmt <= r.value.0
  {
    var input := Precision.From(amount, a.decimals);
    NonNegativeProduct(amount, Pow10(InternalScale - a.decimals));
    var parts := Forwards(input, rates[b.id], FeePerc);
    assert 0 <= parts.fee.scaled <= parts.total.scaled by {
      var preFee := input.Mul(rates[b.id]);
      NonNegativeProduct(input.scaled, rates[b.id].scaled);
      assert preFee.scaled >= 0;
      assert parts.total == preFee.Add(parts.fee);
    }
    TDivMonotone(parts.fee.scaled, parts.total.scaled, Pow10(InternalScale - b.decimals));
    ForwardValue(amount, a, b, rates, parts.total.Unscale(b.decimals), parts.fee.Unscale(b.decimals));
  }

  /** Forward against the exact conversion. The exact output is amount·10^-ad
      of a, times the rate, times 1 + 0.005, in units of 10^-bd of b: the
      output never exceeds it and falls short of it by less than
      1 + 2·10^(bd-33) units. The fee likewise against the exact fee, within
      1 + 10^(bd-33) units. */
  lemma ForwardOutputBracket(amount: int, a: Token, b: Token, rates: map<string, Precision>)
    returns (output: int, feeAmt: int)
    requires b.id in rates && rates[b.id].scaled >= 0 && amount >= 0
    requires a.decimals <= InternalScale && b.decimals <= InternalScale
    ensures CalculateFn(amount, a, b, Forward, rates) == Ok((output, Breakdown(FeePercInt, feeAmt)))
    ensures ForwardTotalRead(output, Pow10(InternalScale - b.decimals),
      Precision.From(amount, a.decimals).scaled * rates[b.id].scaled, FeePerc.scaled)
    ensures ForwardFeeRead(feeAmt, Pow10(InternalScale - b.decimals),
      Precision.From(amount, a.decimals).scaled * rates[b.id].scaled, FeePerc.scaled)
  {
    NonNegativeProduct(amount, Pow10(InternalScale - a.decimals));
    output, feeAmt := ForwardsRead(Precision.From(amount, a.decimals), rates[b.id], FeePerc, b.decimals);
    ForwardValue(amount, a, b, rates, output, feeAmt);
  }

  /** Forward success in terms of the fee layer: the unscaled total and fee. */
  lemma ForwardValue(amount: int, a: Token, b: Token, rates: map<string, Precision>, output: int, feeAmt: int)
    requires b.id in rates && a.decimals <= InternalScale && b.decimals <= InternalScale
    requires output == Forwards(Precision.From(amount, a.decimals), rates[b.id], FeePerc).total.Unscale(b.decimals)
    requires feeAmt == Forwards(Precision.From(amount, a.decimals), rates[b.id], FeePerc).fee.Unscale(b.decimals)
    ensures CalculateFn(amount, a, b, Forward, rates) == Ok((output, Breakdown(FeePercInt, feeAmt)))
  {
  }

  /** Backward against the exact conversion. The exact output is the
      fee-inclusive amount·10^-bd of b, divided by 1 + 0.005 and by the rate,
      in units of 10^-ad of a: the output never exceeds it and falls short of
      it by less than 1 + S/(R·10^(33-ad)) units, R the rate at scale
      S = 10^33. The exact fee, in units of 10^-bd, lies between
      feeAmt - 10^(bd-33) and feeAmt + 1. */
  lemma BackwardOutputBracket(amount: int, a: Token, b: Token, rates: map<string, Precision>)
    returns (output: int, feeAmt: int)
    requires b.id in rates && rates[b.id].scaled > 0 && amount >= 0
    requires a.decimals <= InternalScale && b.decimals <= InternalScale
    ensures CalculateFn(amount, a, b, Backward, rates) == Ok((output, Breakdown(FeePercInt, feeAmt)))
    ensures BackwardInputRead(output, Pow10(InternalScale - a.decimals),
      Precision.From(amount, b.decimals).scaled, rates[b.id].scaled, FeePerc.scaled)
    ensures BackwardFeeRead(feeAmt, Pow10(InternalScale - b.decimals),
      Precision.From(amount, b.decimals).scaled, FeePerc.scaled)
  {
    var total := Precision.From(amount, b.decimals);
    NonNegativeProduct(amount, Pow10(InternalScale - b.decimals));
    output, feeAmt := BackwardsRead(total, rates[b.id], FeePerc, a.decimals, b.decimals);
    BackwardValue(amount, a, b, rates, output, feeAmt);
  }

  /** Backward success in terms of the fee layer: the unscaled input and fee. */
  lemma BackwardValue(amount: int, a: Token, b: Token, rates: map<string, Precision>, output: int, feeAmt: int)
    requires b.id in rates && a.decimals <= InternalScale && b.decimals <= InternalScale
    requires Backwards(Precision.From(amount, b.decimals), rates[b.id], FeePerc).Ok?
    requires output == Backwards(Precision.From(amount, b.decimals), rates[b.id], FeePerc).value.input.Unscale(a.decimals)
    requires feeAmt == Backwards(Precision.From(amount, b.decimals), rates[b.id], FeePerc).value.fee.Unscale(b.decimals)
    ensures CalculateFn(amount, a, b, Backward, rates) == Ok((output, Breakdown(FeePercInt, feeAmt)))
  {
  }

  /** A zero amount converts to zero at no fee, in both directions. */
  lemma ZeroAmount(a: Token, b: Token, dir: Direction, rates: map<string, Precision>)
    requires b.id in rates && rates[b.id].scaled != 0
    requires a.decimals <= InternalScale && b.decimals <= InternalScale
    ensures CalculateFn(0, a, b, dir, rates) == Ok((0, Breakdown(FeePercInt, 0)))
  {
    FromZero(a.decimals);
    FromZero(b.decimals);
    TDivZero(Pow10(InternalScale - a.decimals));
    TDivZero(Pow10(InternalScale - b.decimals));
    if dir == Forward {
      ZeroForwards(rates[b.id], FeePerc);
    } else {
      ZeroBackwards(rates[b.id], FeePerc);
    }
  }

  /** A cached value and the instant after which it is stale. */
  datatype CacheEntry<T> = CacheEntry(expiry: int, data: T)

  /** getFutureDate(10): an entry lives ten minutes, counted in milliseconds. */
  const CacheLifetime: int := 10 * 60 * 1000

  /** The data cached under key, unless missing or expired at `now`. */
  function Lookup<T>(entries: map<string, CacheEntry<T>>, key: string, now: int): (r: Option<T>)
    ensures r.Some? <==> key in entries && now < entries[key].expiry
    ensures r.Some? ==> r.value == entries[key].data
  {
    if key in entries && entries[key].expiry > now then Some(entries[key].data) else None
  }

  /** Cache: a map from key to data with an expiry; the clock reading the
      source takes from `new Date()` is the parameter `now`. */
  class Cache<T> {
    var entries: map<string, CacheEntry<T>>

    constructor ()
      ensures entries == map[]
    {
      entries := map[];
    }

    /** getCache(key) */
    method GetCache(key: string, now: int) returns (r: Option<T>)
      ensures r == Lookup(entries, key, now)
    {
      r := None;
      if key in entries {
        var entry := entries[key];
        if entry.expiry > now {
          r := Some(entry.data);
        }
      }
    }

    /** setCache(key, data): replaces the entry for key with one that expires
        ten minutes from now, leaving every other key alone. */
    method SetCache(key: string, data: T, now: int)
      modifies this
      ensures entries == old(entries)[key := CacheEntry(now + CacheLifetime, data)]
    {
      entries := entries[key := CacheEntry(now + CacheLifetime, data)];
    }
  }

  /** What setCache stores is served for exactly ten minutes, and every other
      key is served as before. */
  lemma SetThenLookup<T>(entries: map<string, CacheEntry<T>>, key: string, data: T, now: int, later: int, other: string)
    requires other != key
    ensures var stored := entries[key := CacheEntry(now + CacheLifetime, data)];
      && Lookup(stored, key, later) == (if later < now + CacheLifetime then Some(data) else None)
      && Lookup(stored, other, later) == Lookup(entries, other, later)
  {
  }
}
