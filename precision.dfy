/** The `Precision` fixed-point decimal of libs/precision: one integer
    mantissa `scaled` standing for scaled / 10^33. Every operation returns a new
    value, so a datatype models it; a JavaScript exception becomes either a
    precondition (a negative power of ten, which only a programmer error can
    reach) or an `Err` (division by a zero-valued Precision). */
module FixedPoint {
  import opened Results
  import opened Arith

  /** INTERNAL_SCALE: the number of fractional digits every Precision keeps. */
  const InternalScale: nat := 33

  /** SCALE_FOR_MULTI_DIVI, that is 10^INTERNAL_SCALE. */
  const ScaleForMultiDivi: nat := 1_000_000_000_000_000_000_000_000_000_000_000

  /** The powers of ten a Precision can be rescaled by, 10^0 to 10^33. */
  const Powers: seq<nat> := [
    1, 10, 100, 1000, 10000, 100000, 1000000, 10000000, 100000000, 1000000000,
    10000000000, 100000000000, 1000000000000, 10000000000000, 100000000000000,
    1000000000000000, 10000000000000000, 100000000000000000, 1000000000000000000,
    10000000000000000000, 100000000000000000000, 1000000000000000000000,
    10000000000000000000000, 100000000000000000000000, 1000000000000000000000000,
    10000000000000000000000000, 100000000000000000000000000,
    1000000000000000000000000000, 10000000000000000000000000000,
    100000000000000000000000000000, 1000000000000000000000000000000,
    10000000000000000000000000000000, 100000000000000000000000000000000,
    1000000000000000000000000000000000]

  lemma {:induction false} PowersTable(n: nat)
    requires n < |Powers|
    ensures Pow10(n) == Powers[n]
  {
    if n > 0 {
      PowersTable(n - 1);
    }
  }

  /** The entries of the table the worked values below use, one at a time. */
  lemma Pow10Of2()
    ensures Pow10(2) == 100
  {
    PowersTable(2);
  }

  lemma Pow10Of3()
    ensures Pow10(3) == 1_000
  {
    PowersTable(3);
  }

  lemma Pow10Of12()
    ensures Pow10(12) == 1_000_000_000_000
  {
    PowersTable(12);
  }

  lemma Pow10Of15()
    ensures Pow10(15) == 1_000_000_000_000_000
  {
    PowersTable(15);
  }

  lemma Pow10Of25()
    ensures Pow10(25) == 10_000_000_000_000_000_000_000_000
  {
    PowersTable(25);
  }

  lemma Pow10Of28()
    ensures Pow10(28) == 10_000_000_000_000_000_000_000_000_000
  {
    PowersTable(28);
  }

  lemma Pow10Of29()
    ensures Pow10(29) == 100_000_000_000_000_000_000_000_000_000
  {
    PowersTable(29);
  }

  lemma Pow10Of30()
    ensures Pow10(30) == 1_000_000_000_000_000_000_000_000_000_000
  {
    PowersTable(30);
  }

  lemma Pow10Of31()
    ensures Pow10(31) == 10_000_000_000_000_000_000_000_000_000_000
  {
    PowersTable(31);
  }

  lemma Pow10Of32()
    ensures Pow10(32) == 100_000_000_000_000_000_000_000_000_000_000
  {
    PowersTable(32);
  }

  lemma ScaleIsPow10()
    ensures ScaleForMultiDivi == Pow10(InternalScale)
  {
    PowersTable(InternalScale);
  }

  /** A fixed-point number at the internal scale. */
  datatype Precision = Precision(scaled: int) {

    /** The exact number a Precision stands for. */
    ghost function Value(): real {
      scaled as real / ScaleForMultiDivi as real
    }

    /** Precision.from / the constructor: `value` counted in units of 10^-exponent.
        The source throws a RangeError for an exponent above 33. */
    static function From(value: int, exponent: nat := 0): (r: Precision)
      requires exponent <= InternalScale
      ensures r.Value() == value as real / Pow10(exponent) as real
      ensures r.Unscale(exponent) == value
    {
      FromUnscale(value, exponent);
      Precision(value * Pow10(InternalScale - exponent))
    }

    /** unscale(precision): the value in units of 10^-precision, the digits
        below that truncated toward zero. */
    function Unscale(precision: nat): (r: int)
      requires precision <= InternalScale
      ensures Abs(r) * Pow10(InternalScale - precision) <= Abs(scaled)
                < (Abs(r) + 1) * Pow10(InternalScale - precision)
      ensures r == 0 || ((r > 0) <==> (scaled > 0))
    {
      TDiv(scaled, Pow10(InternalScale - precision))
    }

    function Add(other: Precision): (r: Precision)
      ensures r.Value() == Value() + other.Value()
    {
      Precision(scaled + other.scaled)
    }

    function Sub(other: Precision): (r: Precision)
      ensures r.Value() == Value() - other.Value()
    {
      Precision(scaled - other.scaled)
    }

    /** The exact product truncated toward zero to 33 fractional digits. */
    function Mul(other: Precision): (r: Precision)
      ensures Abs(r.scaled) * ScaleForMultiDivi <= Abs(scaled * other.scaled)
                < (Abs(r.scaled) + 1) * ScaleForMultiDivi
      ensures r.scaled == 0 || ((r.scaled > 0) <==> (scaled * other.scaled > 0))
      ensures scaled * other.scaled >= 0 ==> r.scaled >= 0
      ensures scaled * other.scaled <= 0 ==> r.scaled <= 0
    {
      Precision(TDiv(scaled * other.scaled, ScaleForMultiDivi))
    }

    /** The exact quotient truncated toward zero to 33 fractional digits; BN
        throws when the divisor is zero. */
    function Div(other: Precision): (r: Result<Precision>)
      ensures r.Err? <==> other.scaled == 0
      ensures r.Err? ==> r.error == DivisionByZero
      ensures r.Ok? ==> Abs(r.value.scaled) * Abs(other.scaled) <= Abs(scaled * ScaleForMultiDivi)
                          < (Abs(r.value.scaled) + 1) * Abs(other.scaled)
      ensures r.Ok? ==> r.value.scaled == 0 || ((r.value.scaled > 0) <==> (scaled * other.scaled > 0))
      ensures r.Ok? && scaled * other.scaled >= 0 ==> r.value.scaled >= 0
      ensures r.Ok? && scaled * other.scaled <= 0 ==> r.value.scaled <= 0
    {
      if other.scaled == 0 then Err(DivisionByZero)
      else
        SignMul(scaled, ScaleForMultiDivi);
        ProductPositive(scaled, other.scaled);
        ProductPositive(-scaled, other.scaled);
        Ok(Precision(TDiv(scaled * ScaleForMultiDivi, other.scaled)))
    }
  }

  /** unscale of a non-negative value: its digits o, with o·u <= scaled < (o + 1)·u. */
  lemma UnscaleNonNegative(p: Precision, precision: nat) returns (o: nat)
    requires p.scaled >= 0 && precision <= InternalScale
    ensures o == p.Unscale(precision)
    ensures o * Pow10(InternalScale - precision) <= p.scaled < o * Pow10(InternalScale - precision) + Pow10(InternalScale - precision)
  {
    var r := p.Unscale(precision);
    assert r >= 0;
    o := r;
  }

  /** Precision.from(1n): the unit. */
  const One: Precision := Precision(ScaleForMultiDivi)

  lemma OneIsFromOne()
    ensures One == Precision.From(1) && One.Value() == 1.0
  {
    ScaleIsPow10();
  }

  lemma FromUnscale(value: int, exponent: nat)
    requires exponent <= InternalScale
    ensures Precision(value * Pow10(InternalScale - exponent)).Unscale(exponent) == value
    ensures Precision(value * Pow10(InternalScale - exponent)).Value()
              == value as real / Pow10(exponent) as real
  {
    TDivExact(value, Pow10(InternalScale - exponent));
    FromValue(value, exponent);
  }

  /** A Precision built from a value is zero exactly when the value is. */
  lemma FromIsZero(value: int, exponent: nat)
    requires exponent <= InternalScale
    ensures Precision.From(value, exponent).scaled == 0 <==> value == 0
  {
    SignMul(value, Pow10(InternalScale - exponent));
  }

  lemma FromZero(exponent: nat)
    requires exponent <= InternalScale
    ensures Precision.From(0, exponent) == Precision(0)
  {
  }

  lemma FromValue(value: int, exponent: nat)
    requires exponent <= InternalScale
    ensures (value * Pow10(InternalScale - exponent)) as real / ScaleForMultiDivi as real
              == value as real / Pow10(exponent) as real
  {
    Pow10Add(InternalScale - exponent, exponent);
    ScaleIsPow10();
    ScaledRatio(value, Pow10(InternalScale - exponent), Pow10(exponent), ScaleForMultiDivi);
  }

  // ---------------------------------------------------------------------------
  // Laws of the arithmetic

  /** Rescaling: a value built at `exponent` digits and read at `precision`
      digits gains zeros, or loses digits truncated toward zero. */
  lemma FromRescale(value: int, exponent: nat, precision: nat)
    requires exponent <= InternalScale && precision <= InternalScale
    ensures Precision.From(value, exponent).Unscale(precision) ==
      if precision >= exponent then value * Pow10(precision - exponent)
      else TDiv(value, Pow10(exponent - precision))
  {
    if precision >= exponent {
      RescaleUp(value, exponent, precision);
    } else {
      RescaleDown(value, exponent, precision);
    }
  }

  lemma RescaleUp(value: int, exponent: nat, precision: nat)
    requires exponent <= precision <= InternalScale
    ensures Precision.From(value, exponent).Unscale(precision) == value * Pow10(precision - exponent)
  {
    var up, low := precision - exponent, InternalScale - precision;
    var a, b := Pow10(up), Pow10(low);
    Pow10Add(up, low);
    assert Pow10(InternalScale - exponent) == a * b;
    MulAssoc(value, a, b);
    TDivExact(value * a, b);
  }

  lemma RescaleDown(value: int, exponent: nat, precision: nat)
    requires precision < exponent <= InternalScale
    ensures Precision.From(value, exponent).Unscale(precision) == TDiv(value, Pow10(exponent - precision))
  {
    var down, low := exponent - precision, InternalScale - exponent;
    Pow10Add(down, low);
    assert InternalScale - precision == down + low;
    assert Pow10(down + low) == Pow10(down) * Pow10(low);
    TDivCancel(value, Pow10(down), Pow10(low));
  }

  /** Values built at one exponent add digit by digit. */
  lemma AddFrom(x: int, y: int, exponent: nat)
    requires exponent <= InternalScale
    ensures Precision.From(x, exponent).Add(Precision.From(y, exponent)) == Precision.From(x + y, exponent)
  {
    var a := Pow10(InternalScale - exponent);
    assert x * a + y * a == (x + y) * a;
  }

  /** sub undoes add. */
  lemma AddSubInverse(p: Precision, q: Precision)
    ensures p.Add(q).Sub(q) == p
  {
  }

  /** The product of values with e and f fractional digits is exact while
      e + f stays within the internal scale. */
  lemma MulFrom(x: int, e: nat, y: int, f: nat)
    requires e + f <= InternalScale
    ensures Precision.From(x, e).Mul(Precision.From(y, f)) == Precision.From(x * y, e + f)
  {
    var a, b, c := Pow10(InternalScale - e), Pow10(InternalScale - f), Pow10(InternalScale - e - f);
    Pow10Add(InternalScale - e - f, InternalScale);
    assert InternalScale - e + (InternalScale - f) == InternalScale - e - f + InternalScale;
    Pow10Add(InternalScale - e, InternalScale - f);
    ScaleIsPow10();
    assert a * b == c * ScaleForMultiDivi;
    MulShuffle(x, a, y, b);
    MulAssoc(x * y, c, ScaleForMultiDivi);
    TDivExact((x * y) * c, ScaleForMultiDivi);
  }

  /** Dividing by a whole number y: the dividend's digits over y, truncated
      toward zero at 33 fractional digits. */
  lemma DivByWhole(x: int, e: nat, y: int)
    requires e <= InternalScale && y != 0
    ensures Precision.From(x, e).Div(Precision.From(y)) ==
      Ok(Precision(TDiv(x * Pow10(InternalScale - e), y)))
  {
    var a := Pow10(InternalScale - e);
    ScaleIsPow10();
    assert Precision.From(y).scaled == y * ScaleForMultiDivi;
    TDivCancel(x * a, y, ScaleForMultiDivi);
  }

  /** Precision.from(1n) is neutral for mul and div. */
  lemma MulDivOne(p: Precision)
    ensures p.Mul(One) == p && p.Div(One) == Ok(p)
  {
    TDivExact(p.scaled, ScaleForMultiDivi);
  }

  // ---------------------------------------------------------------------------
  // The worked values of the Precision tests

  /** One million at 6 digits is 1: 10^18 at 18 digits, 10^4 at 4 digits. */
  lemma UnscaleExamples()
    ensures Precision.From(1_000000, 6).Unscale(18) == 1_000_000_000_000_000_000
    ensures Precision.From(1_000000, 6).Unscale(4) == 1_0000
    ensures Precision.From(100_000000, 6).Unscale(4) == 100_0000
  {
    FromRescale(1_000000, 6, 18);
    FromRescale(1_000000, 6, 4);
    FromRescale(100_000000, 6, 4);
    Pow10Of12();
    Pow10Of2();
  }

  /** 2.0 + 1.14159 read at 5 digits. */
  lemma AddExample()
    ensures Precision.From(2_0, 1).Add(Precision.From(1_14159, 5)).Unscale(5) == 3_14159
  {
    Pow10Of32();
    Pow10Of28();
    assert Precision.From(2_0, 1) == Precision.From(2_00000, 5);
    AddFrom(2_00000, 1_14159, 5);
  }

  /** 10.00 - 6.8584 read at 4 digits. */
  lemma SubExample()
    ensures Precision.From(10_00, 2).Sub(Precision.From(6_8584, 4)).Unscale(4) == 3_1416
  {
    Pow10Of31();
    Pow10Of29();
    assert Precision.From(10_00, 2) == Precision.From(10_0000, 4);
    AddFrom(3_1416, 6_8584, 4);
    AddSubInverse(Precision.From(3_1416, 4), Precision.From(6_8584, 4));
  }

  /** 300.00000 * 5 read at 2 digits. */
  lemma MulExample()
    ensures Precision.From(300_00000, 5).Mul(Precision.From(5)).Unscale(2) == 1500_00
  {
    MulFrom(300_00000, 5, 5, 0);
    FromRescale(1500_00000, 5, 2);
    Pow10Of3();
  }

  /** A rational approximation of pi, divided and read at 18 digits. */
  lemma DivExample()
    ensures var q := Precision.From(233546921420225777694970883318153571_000, 3)
                      .Div(Precision.From(74340293968115785654927455866388593));
      q.Ok? && q.value.Unscale(18) == 3_141592653916501746
  {
    PiQuotient();
    Pow10Of15();
    TDivOfBracket(3141592653916501746110257955677954, Pow10(15), 3_141592653916501746);
  }

  lemma PiQuotient()
    ensures Precision.From(233546921420225777694970883318153571_000, 3)
              .Div(Precision.From(74340293968115785654927455866388593))
            == Ok(Precision(3141592653916501746110257955677954))
  {
    var x, y := 233546921420225777694970883318153571_000, 74340293968115785654927455866388593;
    var q := 3141592653916501746110257955677954;
    DivByWhole(x, 3, y);
    Pow10Of30();
    var a := 233546921420225777694970883318153571000_000000000000000000000000000000;
    assert x * Pow10(30) == a;
    assert q * y == 233546921420225777694970883318153501603080923504064825913948927178722;
    assert q * y + y == 233546921420225777694970883318153575943374891619850480841404793567315;
    TDivOfBracket(a, y, q);
  }
}
