/** The fee layer every example calculator shares: an amount converted at a
    rate, with a fee of 50 basis points charged on top of it. The forward
    direction adds the fee to the converted amount; the backward direction
    recovers the pre-fee amount from a fee-inclusive total. */
module Fees {
  import opened Results
  import opened Arith
  import opened FixedPoint

  /** feePercInt: the fee in basis points, reported in every breakdown. */
  const FeePercInt: int := 50

  /** fPerc = Precision.from(50n).div(Precision.from(10000n)), that is 0.005. */
  const FeePerc: Precision := Precision(5_000_000_000_000_000_000_000_000_000_000)

  /** What a fee-charging calculator reports beside its output. */
  datatype Breakdown = Breakdown(feePerc: int, feeAmt: int)

  /** The three amounts of a forward calculation. */
  datatype ForwardParts = ForwardParts(fee: Precision, total: Precision, preFee: Precision)

  /** The three amounts of a backward calculation. */
  datatype BackwardParts = BackwardParts(preFee: Precision, fee: Precision, input: Precision)

  lemma FeePercIsFiftyBasisPoints()
    ensures Precision.From(FeePercInt).Div(Precision.From(10000)) == Ok(FeePerc)
    ensures FeePerc.Value() == 50.0 / 10000.0
  {
    DivByWhole(FeePercInt, 0, 10000);
    ScaleIsPow10();
    TDivExact(FeePerc.scaled, 10000);
  }

  /** calculateForwards: convert the input at `rate`, then add `fPerc` of the
      converted amount as the fee. The converted amount and the fee are the
      exact products truncated toward zero, and the total is the converted
      amount plus the fee. */
  function Forwards(input: Precision, rate: Precision, fPerc: Precision): (r: ForwardParts)
    ensures Abs(r.preFee.scaled) * ScaleForMultiDivi <= Abs(input.scaled * rate.scaled)
              < (Abs(r.preFee.scaled) + 1) * ScaleForMultiDivi
    ensures input.scaled * rate.scaled >= 0 ==> r.preFee.scaled >= 0
    ensures input.scaled * rate.scaled <= 0 ==> r.preFee.scaled <= 0
    ensures Abs(r.fee.scaled) * ScaleForMultiDivi <= Abs(r.preFee.scaled * fPerc.scaled)
              < (Abs(r.fee.scaled) + 1) * ScaleForMultiDivi
    ensures r.preFee.scaled * fPerc.scaled >= 0 ==> r.fee.scaled >= 0
    ensures r.preFee.scaled * fPerc.scaled <= 0 ==> r.fee.scaled <= 0
    ensures r.total.scaled == r.preFee.scaled + r.fee.scaled
    ensures input.scaled >= 0 && rate.scaled >= 0 && fPerc.scaled >= 0 ==>
      0 <= r.fee.scaled && r.preFee.scaled <= r.total.scaled
  {
    var preFee := input.Mul(rate);
    var fee := preFee.Mul(fPerc);
    NonNegativeProduct(input.scaled, rate.scaled);
    NonNegativeProduct(preFee.scaled, fPerc.scaled);
    ForwardParts(fee, preFee.Add(fee), preFee)
  }

  /** calculateBackwards: divide the fee-inclusive total by 1 + fPerc to get
      the pre-fee amount, take the rest of the total as the fee, and convert the
      pre-fee amount back at `rate`, each quotient truncated toward zero.
      Pre-fee amount and fee always add up to the total exactly; the
      calculation fails only on a zero rate (or on fPerc == -1, which no caller
      passes). */
  function Backwards(total: Precision, rate: Precision, fPerc: Precision): (r: Result<BackwardParts>)
    ensures fPerc.scaled + ScaleForMultiDivi != 0 ==> (r.Err? <==> rate.scaled == 0)
    ensures r.Err? ==> r.error == DivisionByZero
    ensures r.Ok? ==>
      var p := r.value.preFee.scaled;
      var d := fPerc.scaled + ScaleForMultiDivi;
      && Abs(p) * Abs(d) <= Abs(total.scaled * ScaleForMultiDivi) < (Abs(p) + 1) * Abs(d)
      && (total.scaled * d >= 0 ==> p >= 0) && (total.scaled * d <= 0 ==> p <= 0)
    ensures r.Ok? ==>
      var p := r.value.preFee.scaled;
      var i := r.value.input.scaled;
      && Abs(i) * Abs(rate.scaled) <= Abs(p * ScaleForMultiDivi) < (Abs(i) + 1) * Abs(rate.scaled)
      && (p * rate.scaled >= 0 ==> i >= 0) && (p * rate.scaled <= 0 ==> i <= 0)
    ensures r.Ok? ==> r.value.preFee.scaled + r.value.fee.scaled == total.scaled
  {
    var preFee :- total.Div(fPerc.Add(One));
    var fee := total.Sub(preFee);
    var input :- preFee.Div(rate);
    Ok(BackwardParts(preFee, fee, input))
  }

  /** Undoing the fee: the backward calculation applied to a forward total
      recovers the forward pre-fee amount to within one unit of the last of the
      33 digits (the forward fee was truncated), and the fee to within one unit. */
  lemma FeeRoundTrip(input: Precision, rate: Precision, fPerc: Precision)
    requires input.scaled >= 0 && rate.scaled > 0 && fPerc.scaled >= 0
    ensures var fw := Forwards(input, rate, fPerc);
      var bw := Backwards(fw.total, rate, fPerc);
      && bw.Ok?
      && fw.preFee.scaled - 1 <= bw.value.preFee.scaled <= fw.preFee.scaled
      && fw.fee.scaled <= bw.value.fee.scaled <= fw.fee.scaled + 1
  {
    var fw := Forwards(input, rate, fPerc);
    var p, f, F, S := fw.preFee.scaled, fw.fee.scaled, fPerc.scaled, ScaleForMultiDivi;
    ForwardsNonNegative(input, rate, fPerc);
    FeeLayerBracket(p, f, F, S);
    BackwardsQuotients(fw.total, rate, fPerc);
  }

  /** On non-negative inputs the forward amounts are non-negative, and the fee
      is the truncated share of the pre-fee amount. */
  lemma ForwardsNonNegative(input: Precision, rate: Precision, fPerc: Precision)
    requires input.scaled >= 0 && rate.scaled >= 0 && fPerc.scaled >= 0
    ensures Forwards(input, rate, fPerc).preFee.scaled >= 0 && Forwards(input, rate, fPerc).fee.scaled >= 0
    ensures Forwards(input, rate, fPerc).total.scaled
      == Forwards(input, rate, fPerc).preFee.scaled + Forwards(input, rate, fPerc).fee.scaled
    ensures Forwards(input, rate, fPerc).preFee.scaled * ScaleForMultiDivi <= input.scaled * rate.scaled
      < Forwards(input, rate, fPerc).preFee.scaled * ScaleForMultiDivi + ScaleForMultiDivi
    ensures Forwards(input, rate, fPerc).fee.scaled * ScaleForMultiDivi
      <= Forwards(input, rate, fPerc).preFee.scaled * fPerc.scaled
      < Forwards(input, rate, fPerc).fee.scaled * ScaleForMultiDivi + ScaleForMultiDivi
  {
    var fw := Forwards(input, rate, fPerc);
    var p, f := fw.preFee.scaled, fw.fee.scaled;
    NonNegativeProduct(input.scaled, rate.scaled);
    assert p >= 0;
    assert Abs(input.scaled * rate.scaled) == input.scaled * rate.scaled;
    NonNegativeProduct(p, fPerc.scaled);
    assert Abs(p * fPerc.scaled) == p * fPerc.scaled;
    assert f >= 0;
  }

  /** The pre-fee amount and the fee of a backward calculation, spelled out. */
  lemma BackwardsQuotients(total: Precision, rate: Precision, fPerc: Precision)
    requires rate.scaled != 0 && fPerc.scaled >= 0
    ensures var bw := Backwards(total, rate, fPerc);
      var p := TDiv(total.scaled * ScaleForMultiDivi, fPerc.scaled + ScaleForMultiDivi);
      && bw.Ok?
      && bw.value.preFee.scaled == p
      && bw.value.fee.scaled == total.scaled - p
  {
  }

  // ---------------------------------------------------------------------------
  // The computed amounts against the exact calculation. With S = 10^33, an
  // amount x at the internal scale stands for x / S; each bound below is
  // stated on integers, multiplied out so that no division is left.

  /** The forward total t against the exact total P·(S + F)/S³ of a product
      P = input × rate (scale S²) and a fee share F (scale S): t never exceeds
      it and falls short of it by less than 2 + F/S units of 10^-33. */
  predicate ForwardTotalBounds(t: int, P: int, F: int) {
    var S := ScaleForMultiDivi;
    t * S * S <= P * (S + F) < (t + 2) * S * S + F * S
  }

  /** The forward fee f against the exact fee P·F/S³: f never exceeds it and
      falls short of it by less than 1 + F/S units of 10^-33. */
  predicate ForwardFeeBounds(f: int, P: int, F: int) {
    var S := ScaleForMultiDivi;
    f * S * S <= P * F < (f + 1) * S * S + F * S
  }

  /** The backward input i against the exact input T·S²/((S + F)·R) of a
      total T at rate R: i never exceeds it and falls short of it by less than
      1 + S/R units of 10^-33. */
  predicate BackwardInputBounds(i: int, T: int, R: int, F: int) {
    var S := ScaleForMultiDivi;
    i * R * (S + F) <= T * S * S < ((i + 1) * R + S) * (S + F)
  }

  /** The backward fee e against the exact fee T·F/(S + F): e is at least it
      and less than one unit of 10^-33 above it. */
  predicate BackwardFeeBounds(e: int, T: int, F: int) {
    var S := ScaleForMultiDivi;
    T * F <= e * (S + F) < T * F + (S + F)
  }

  /** The forward total read as o digits of u units of 10^-33 each: o·u
      never exceeds the exact total and falls short of it by less than u + 2. */
  predicate ForwardTotalRead(o: int, u: int, P: int, F: int) {
    var S := ScaleForMultiDivi;
    o * u * S * S <= P * (S + F) < ((o + 1) * u + 2) * S * S
  }

  /** The forward fee read as o digits of u units: short of the exact fee by
      less than u + 1 units of 10^-33. */
  predicate ForwardFeeRead(o: int, u: int, P: int, F: int) {
    var S := ScaleForMultiDivi;
    o * u * S * S <= P * F < ((o + 1) * u + 1) * S * S
  }

  /** The backward input read as o digits of u units: o·u never exceeds the
      exact input and falls short of it by less than u + S/R units of 10^-33. */
  predicate BackwardInputRead(o: int, u: int, T: int, R: int, F: int) {
    var S := ScaleForMultiDivi;
    o * u * R * (S + F) <= T * S * S < ((o + 1) * u * R + S) * (S + F)
  }

  /** The backward fee read as o digits of u units: the exact fee lies between
      o·u - 1 and (o + 1)·u units of 10^-33. */
  predicate BackwardFeeRead(o: int, u: int, T: int, F: int) {
    var S := ScaleForMultiDivi;
    o * u * (S + F) - (S + F) <= T * F < (o + 1) * u * (S + F)
  }

  /** Forward against the exact calculation, for the fee-inclusive total. */
  lemma ForwardsTotalBracket(input: Precision, rate: Precision, fPerc: Precision)
    requires input.scaled >= 0 && rate.scaled >= 0 && fPerc.scaled >= 0
    ensures Forwards(input, rate, fPerc).total.scaled >= 0
    ensures ForwardTotalBounds(Forwards(input, rate, fPerc).total.scaled, input.scaled * rate.scaled, fPerc.scaled)
  {
    ForwardsNonNegative(input, rate, fPerc);
    NonNegativeProduct(input.scaled, rate.scaled);
    ForwardTotalArith(input.scaled * rate.scaled, Forwards(input, rate, fPerc).preFee.scaled,
      Forwards(input, rate, fPerc).fee.scaled, Forwards(input, rate, fPerc).total.scaled, fPerc.scaled);
  }

  /** Forward against the exact calculation, for the fee. */
  lemma ForwardsFeeBracket(input: Precision, rate: Precision, fPerc: Precision)
    requires input.scaled >= 0 && rate.scaled >= 0 && fPerc.scaled >= 0
    ensures Forwards(input, rate, fPerc).fee.scaled >= 0
    ensures ForwardFeeBounds(Forwards(input, rate, fPerc).fee.scaled, input.scaled * rate.scaled, fPerc.scaled)
  {
    ForwardsNonNegative(input, rate, fPerc);
    NonNegativeProduct(input.scaled, rate.scaled);
    ForwardFeeArith(input.scaled * rate.scaled, Forwards(input, rate, fPerc).preFee.scaled,
      Forwards(input, rate, fPerc).fee.scaled, fPerc.scaled);
  }

  /** The integer core of ForwardsTotalBracket: p = ⌊P / S⌋, f = ⌊p·F / S⌋
      and t = p + f. */
  lemma ForwardTotalArith(P: nat, p: nat, f: nat, t: nat, F: nat)
    requires t == p + f
    requires p * ScaleForMultiDivi <= P < p * ScaleForMultiDivi + ScaleForMultiDivi
    requires f * ScaleForMultiDivi <= p * F < f * ScaleForMultiDivi + ScaleForMultiDivi
    ensures ForwardTotalBounds(t, P, F)
  {
    ForwardTotalLow(P, p, f, F, ScaleForMultiDivi);
    ForwardTotalHigh(P, p, f, F, ScaleForMultiDivi);
  }

  /** The integer core of ForwardsFeeBracket. */
  lemma ForwardFeeArith(P: nat, p: nat, f: nat, F: nat)
    requires p * ScaleForMultiDivi <= P < p * ScaleForMultiDivi + ScaleForMultiDivi
    requires f * ScaleForMultiDivi <= p * F < f * ScaleForMultiDivi + ScaleForMultiDivi
    ensures ForwardFeeBounds(f, P, F)
  {
    ForwardFeeLow(P, p, f, F, ScaleForMultiDivi);
    ForwardFeeHigh(P, p, f, F, ScaleForMultiDivi);
  }

  lemma ForwardTotalLow(P: nat, p: nat, f: nat, F: nat, S: nat)
    requires p * S <= P && f * S <= p * F
    ensures (p + f) * S * S <= P * (S + F)
  {
    MulMonotone(f * S, p * F, S);
    MulMonotone(p * S, P, S + F);
    assert (p * S) * (S + F) == p * S * S + (p * F) * S;
    assert (p + f) * S * S == p * S * S + (f * S) * S;
  }

  lemma ForwardTotalHigh(P: nat, p: nat, f: nat, F: nat, S: nat)
    requires S > 0 && P < p * S + S && p * F < f * S + S
    ensures P * (S + F) < (p + f + 2) * S * S + F * S
  {
    MulStrict(P, p * S + S, S + F);
    MulAddRight(p * S, S, S + F);
    MulAddLeft(p * S, S, F);
    MulAddLeft(S, S, F);
    MulRotate(p, S, F);
    MulStrict(p * F, f * S + S, S);
    MulAddRight(f * S, S, S);
    MulAddRight(p + f, 2, S);
    MulAddRight((p + f) * S, 2 * S, S);
    MulAddRight(p, f, S);
    MulAddRight(p * S, f * S, S);
  }

  lemma ForwardFeeLow(P: nat, p: nat, f: nat, F: nat, S: nat)
    requires p * S <= P && f * S <= p * F
    ensures f * S * S <= P * F
  {
    MulMonotone(f * S, p * F, S);
    MulMonotone(p * S, P, F);
    assert (p * S) * F == (p * F) * S;
  }

  lemma ForwardFeeHigh(P: nat, p: nat, f: nat, F: nat, S: nat)
    requires P < p * S + S && p * F < f * S + S
    ensures P * F < (f + 1) * S * S + F * S
  {
    MulMonotone(P, p * S + S, F);
    assert (p * S + S) * F == (p * F) * S + F * S;
    if S > 0 {
      MulStrict(p * F, f * S + S, S);
    }
    assert (f * S + S) * S == (f + 1) * S * S;
  }

  /** Backward against the exact calculation, for the input and the fee. */
  lemma BackwardsBracket(total: Precision, rate: Precision, fPerc: Precision)
    requires total.scaled >= 0 && rate.scaled > 0 && fPerc.scaled >= 0
    ensures Backwards(total, rate, fPerc).Ok?
    ensures Backwards(total, rate, fPerc).value.input.scaled >= 0
    ensures Backwards(total, rate, fPerc).value.fee.scaled >= 0
    ensures BackwardInputBounds(Backwards(total, rate, fPerc).value.input.scaled, total.scaled, rate.scaled, fPerc.scaled)
    ensures BackwardFeeBounds(Backwards(total, rate, fPerc).value.fee.scaled, total.scaled, fPerc.scaled)
  {
    var bw := Backwards(total, rate, fPerc);
    var T, R, F, S := total.scaled, rate.scaled, fPerc.scaled, ScaleForMultiDivi;
    var p, i := bw.value.preFee.scaled, bw.value.input.scaled;
    NonNegativeProduct(T, S);
    NonNegativeProduct(T * S, F + S);
    assert p >= 0;
    assert p * (S + F) <= T * S < (p + 1) * (S + F);
    NonNegativeProduct(p, S);
    NonNegativeProduct(p * S, R);
    assert i >= 0;
    assert i * R <= p * S < (i + 1) * R;
    BackwardArith(T, R, F, p, i, bw.value.fee.scaled);
  }

  /** The integer core of BackwardsBracket: p = ⌊T·S / (S + F)⌋,
      i = ⌊p·S / R⌋ and e = T - p. */
  lemma BackwardArith(T: nat, R: nat, F: nat, p: nat, i: nat, e: int)
    requires R > 0 && e == T - p
    requires p * (ScaleForMultiDivi + F) <= T * ScaleForMultiDivi < (p + 1) * (ScaleForMultiDivi + F)
    requires i * R <= p * ScaleForMultiDivi < (i + 1) * R
    ensures e >= 0
    ensures BackwardInputBounds(i, T, R, F)
    ensures BackwardFeeBounds(e, T, F)
  {
    BackwardInputLow(T, R, F, ScaleForMultiDivi, p, i);
    BackwardInputHigh(T, R, F, ScaleForMultiDivi, p, i);
    BackwardFee(T, F, ScaleForMultiDivi, p);
  }

  lemma BackwardInputLow(T: nat, R: nat, F: nat, S: nat, p: nat, i: nat)
    requires p * (S + F) <= T * S && i * R <= p * S
    ensures i * R * (S + F) <= T * S * S
  {
    MulMonotone(i * R, p * S, S + F);
    MulMonotone(p * (S + F), T * S, S);
    assert (p * S) * (S + F) == (p * (S + F)) * S;
  }

  lemma BackwardInputHigh(T: nat, R: nat, F: nat, S: nat, p: nat, i: nat)
    requires S > 0 && T * S < (p + 1) * (S + F) && p * S < (i + 1) * R
    ensures T * S * S < ((i + 1) * R + S) * (S + F)
  {
    MulStrict(T * S, (p + 1) * (S + F), S);
    assert (p + 1) * (S + F) * S == (p * S) * (S + F) + S * (S + F);
    MulStrict(p * S, (i + 1) * R, S + F);
    assert ((i + 1) * R + S) * (S + F) == ((i + 1) * R) * (S + F) + S * (S + F);
  }

  lemma BackwardFee(T: nat, F: nat, S: nat, p: nat)
    requires S > 0 && p * (S + F) <= T * S < (p + 1) * (S + F)
    ensures p <= T
    ensures T * F <= (T - p) * (S + F) < T * F + (S + F)
  {
    MulMonotone(S, S + F, T);
    MulCancel(p, T, S + F);
    assert (T - p) * (S + F) == T * F + (T * S - p * (S + F));
    assert (p + 1) * (S + F) == p * (S + F) + (S + F);
  }

  /** The forward amounts read at `precision` digits, each against the exact
      amount it truncates. */
  lemma ForwardsRead(input: Precision, rate: Precision, fPerc: Precision, precision: nat)
    returns (output: nat, feeAmt: nat)
    requires input.scaled >= 0 && rate.scaled >= 0 && 0 <= fPerc.scaled < ScaleForMultiDivi
    requires precision <= InternalScale
    ensures output == Forwards(input, rate, fPerc).total.Unscale(precision)
    ensures feeAmt == Forwards(input, rate, fPerc).fee.Unscale(precision)
    ensures ForwardTotalRead(output, Pow10(InternalScale - precision), input.scaled * rate.scaled, fPerc.scaled)
    ensures ForwardFeeRead(feeAmt, Pow10(InternalScale - precision), input.scaled * rate.scaled, fPerc.scaled)
  {
    ForwardsTotalBracket(input, rate, fPerc);
    ForwardsFeeBracket(input, rate, fPerc);
    output := UnscaleNonNegative(Forwards(input, rate, fPerc).total, precision);
    feeAmt := UnscaleNonNegative(Forwards(input, rate, fPerc).fee, precision);
    ForwardTotalUnscale(Forwards(input, rate, fPerc).total.scaled, Pow10(InternalScale - precision), output,
      input.scaled * rate.scaled, fPerc.scaled);
    ForwardFeeUnscale(Forwards(input, rate, fPerc).fee.scaled, Pow10(InternalScale - precision), feeAmt,
      input.scaled * rate.scaled, fPerc.scaled);
  }

  lemma ForwardTotalUnscale(t: nat, u: nat, o: nat, P: int, F: nat)
    requires u > 0 && F < ScaleForMultiDivi && o * u <= t < o * u + u
    requires ForwardTotalBounds(t, P, F)
    ensures ForwardTotalRead(o, u, P, F)
  {
    UnscaleBracket(t, u, o, P * (ScaleForMultiDivi + F), 2, F, ScaleForMultiDivi);
  }

  lemma ForwardFeeUnscale(f: nat, u: nat, o: nat, P: int, F: nat)
    requires u > 0 && F < ScaleForMultiDivi && o * u <= f < o * u + u
    requires ForwardFeeBounds(f, P, F)
    ensures ForwardFeeRead(o, u, P, F)
  {
    UnscaleBracket(f, u, o, P * F, 1, F, ScaleForMultiDivi);
  }

  /** Reading a value t that sits within k + F/S units below Y/S² at u units
      per digit: the digits o bracket Y/(u·S²) to within u + k units. */
  lemma UnscaleBracket(t: nat, u: nat, o: nat, Y: int, k: nat, F: nat, S: nat)
    requires u > 0 && F < S && o * u <= t < o * u + u
    requires t * S * S <= Y < (t + k) * S * S + F * S
    ensures o * u * S * S <= Y < ((o + 1) * u + k) * S * S
  {
    MulMonotone(o * u, t, S);
    MulMonotone((o * u) * S, t * S, S);
    MulStrict(F, S, S);
    MulAddRight(o, 1, u);
    MulMonotone(t + k + 1, (o + 1) * u + k, S * S);
    MulAddRight(t + k, 1, S * S);
    MulAssoc(t + k, S, S);
    MulAssoc(t + k + 1, S, S);
    MulAssoc((o + 1) * u + k, S, S);
    assert Y < (t + k + 1) * (S * S);
  }

  /** The backward amounts read at `inPrecision` digits (the input) and
      `feePrecision` digits (the fee), each against the exact amount. */
  lemma BackwardsRead(total: Precision, rate: Precision, fPerc: Precision, inPrecision: nat, feePrecision: nat)
    returns (output: nat, feeAmt: nat)
    requires total.scaled >= 0 && rate.scaled > 0 && fPerc.scaled >= 0
    requires inPrecision <= InternalScale && feePrecision <= InternalScale
    ensures Backwards(total, rate, fPerc).Ok?
    ensures output == Backwards(total, rate, fPerc).value.input.Unscale(inPrecision)
    ensures feeAmt == Backwards(total, rate, fPerc).value.fee.Unscale(feePrecision)
    ensures BackwardInputRead(output, Pow10(InternalScale - inPrecision), total.scaled, rate.scaled, fPerc.scaled)
    ensures BackwardFeeRead(feeAmt, Pow10(InternalScale - feePrecision), total.scaled, fPerc.scaled)
  {
    BackwardsBracket(total, rate, fPerc);
    output := UnscaleNonNegative(Backwards(total, rate, fPerc).value.input, inPrecision);
    feeAmt := UnscaleNonNegative(Backwards(total, rate, fPerc).value.fee, feePrecision);
    BackwardInputUnscale(Backwards(total, rate, fPerc).value.input.scaled, Pow10(InternalScale - inPrecision),
      output, total.scaled, rate.scaled, fPerc.scaled);
    BackwardFeeUnscale(Backwards(total, rate, fPerc).value.fee.scaled, Pow10(InternalScale - feePrecision),
      feeAmt, total.scaled, fPerc.scaled);
  }

  /** Reading the input i at u units per digit keeps the backward bracket. */
  lemma BackwardInputUnscale(i: nat, u: nat, o: nat, T: int, R: nat, F: nat)
    requires u > 0 && o * u <= i < o * u + u
    requires BackwardInputBounds(i, T, R, F)
    ensures BackwardInputRead(o, u, T, R, F)
  {
    var S := ScaleForMultiDivi;
    MulMonotone(o * u, i, R);
    MulMonotone((o * u) * R, i * R, S + F);
    MulAddRight(o, 1, u);
    MulMonotone(i + 1, (o + 1) * u, R);
    MulMonotone((i + 1) * R + S, (o + 1) * u * R + S, S + F);
  }

  /** Reading the fee e at u units per digit. */
  lemma BackwardFeeUnscale(e: nat, u: nat, fa: nat, T: int, F: nat)
    requires u > 0 && fa * u <= e < fa * u + u
    requires BackwardFeeBounds(e, T, F)
    ensures BackwardFeeRead(fa, u, T, F)
  {
    var D := ScaleForMultiDivi + F;
    MulMonotone(fa * u, e, D);
    MulAddRight(fa, 1, u);
    MulStrict(e, (fa + 1) * u, D);
  }

  /** Dividing p + f, where f is the fee truncated from p * F / S, by 1 + F / S
      at scale S gives back p or p - 1. */
  lemma FeeLayerBracket(p: int, f: int, F: int, S: int)
    requires p >= 0 && f >= 0 && F >= 0 && S > 0
    requires f * S <= p * F < f * S + S
    ensures TDiv((p + f) * S, F + S) == p || TDiv((p + f) * S, F + S) == p - 1
  {
    var T := (p + f) * S;
    assert T == p * S + f * S;
    assert p * (F + S) == p * F + p * S;
    NonNegativeProduct(p + f, S);
    if T == p * (F + S) {
      TDivOfBracket(T, F + S, p);
    } else {
      assert T < p * (F + S);
      assert p >= 1;
      assert (p - 1) * (F + S) == p * (F + S) - (F + S);
      TDivOfBracket(T, F + S, p - 1);
    }
  }

  /** A zero amount costs no fee going forward ... */
  lemma ZeroForwards(rate: Precision, fPerc: Precision)
    ensures Forwards(Precision(0), rate, fPerc) == ForwardParts(Precision(0), Precision(0), Precision(0))
  {
    TDivZero(ScaleForMultiDivi);
  }

  /** ... nor going backward, at any rate but zero. */
  lemma ZeroBackwards(rate: Precision, fPerc: Precision)
    requires rate.scaled != 0 && fPerc.scaled >= 0
    ensures Backwards(Precision(0), rate, fPerc) == Ok(BackwardParts(Precision(0), Precision(0), Precision(0)))
  {
    TDivZero(fPerc.scaled + ScaleForMultiDivi);
    TDivZero(rate.scaled);
  }
}
