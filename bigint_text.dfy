/** JavaScript's conversions between `bigint` and text: `n.toString()` and
    `BigInt(text)`, restricted to plain decimal literals. */
module BigIntText {
  import opened Results
  import opened Arith
  import opened Strings

  predicate IsDigit(c: char) {
    '0' <= c <= '9'
  }

  predicate AllDigits(s: string) {
    forall i :: 0 <= i < |s| ==> IsDigit(s[i])
  }

  function DigitValue(c: char): (d: nat)
    requires IsDigit(c)
    ensures d < 10
  {
    c as int - '0' as int
  }

  function DigitChar(d: nat): (c: char)
    requires d < 10
    ensures IsDigit(c) && DigitValue(c) == d
  {
    ('0' as int + d) as char
  }

  /** The number a string of decimal digits spells, most significant first. */
  function DigitsValue(s: string): nat
    requires AllDigits(s)
  {
    if s == [] then 0 else DigitsValue(s[..|s| - 1]) * 10 + DigitValue(s[|s| - 1])
  }

  /** bigint.toString() of a non-negative value: its digits with no leading zero. */
  function NatToString(n: nat): (s: string)
    ensures |s| >= 1 && AllDigits(s)
    ensures DigitsValue(s) == n
    ensures |s| > 1 ==> s[0] != '0'
  {
    if n < 10 then [DigitChar(n)]
    else
      var s := NatToString(n / 10) + [DigitChar(n % 10)];
      assert s[..|s| - 1] == NatToString(n / 10);
      s
  }

  /** bigint.toString(): a '-' in front of the digits of a negative value. */
  function IntToString(n: int): string {
    if n < 0 then "-" + NatToString(-n) else NatToString(n)
  }

  /** The text BigInt accepts here: the empty string, or an optional sign
      before at least one decimal digit. */
  predicate SignedInteger(s: string) {
    AllDigits(s) || (|s| > 1 && (s[0] == '-' || s[0] == '+') && AllDigits(s[1..]))
  }

  /** BigInt(text) on a string: the empty string is 0n; otherwise an optional
      sign and at least one decimal digit, anything else a SyntaxError. */
  function ParseBigInt(s: string): (r: Result<int>)
    ensures r.Ok? <==> SignedInteger(s)
    ensures r.Err? ==> r.error == SyntaxError
    ensures AllDigits(s) ==> r == Ok(DigitsValue(s))
    ensures |s| > 1 && s[0] == '-' && AllDigits(s[1..]) ==> r == Ok(-(DigitsValue(s[1..]) as int))
    ensures |s| > 1 && s[0] == '+' && AllDigits(s[1..]) ==> r == Ok(DigitsValue(s[1..]))
  {
    if s == [] then Ok(0)
    else if s[0] == '-' || s[0] == '+' then
      var body := s[1..];
      if body != [] && AllDigits(body) then
        Ok(if s[0] == '-' then -(DigitsValue(body) as int) else DigitsValue(body))
      else Err(SyntaxError)
    else if AllDigits(s) then Ok(DigitsValue(s))
    else Err(SyntaxError)
  }

  /** BigInt(n.toString()) == n */
  lemma ParseIntToString(n: int)
    ensures ParseBigInt(IntToString(n)) == Ok(n)
  {
    if n < 0 {
      assert IntToString(n)[1..] == NatToString(-n);
    }
  }

  /** Reading x + y as one numeral shifts x by |y| digits. */
  lemma {:induction false} DigitsValueConcat(x: string, y: string)
    requires AllDigits(x) && AllDigits(y)
    ensures AllDigits(x + y)
    ensures DigitsValue(x + y) == DigitsValue(x) * Pow10(|y|) + DigitsValue(y)
    decreases |y|
  {
    if y == [] {
      assert x + y == x;
    } else {
      var y' := y[..|y| - 1];
      DigitsValueConcat(x, y');
      assert (x + y)[..|x + y| - 1] == x + y';
      var a, p, b, c := DigitsValue(x), Pow10(|y'|), DigitsValue(y'), DigitValue(y[|y| - 1]);
      assert DigitsValue(x + y) == (a * p + b) * 10 + c;
      assert DigitsValue(y) == b * 10 + c;
      assert Pow10(|y|) == p * 10;
      ShiftDigit(a, p, b, c);
    }
  }

  lemma ShiftDigit(a: int, p: int, b: int, c: int)
    ensures (a * p + b) * 10 + c == a * (p * 10) + (b * 10 + c)
  {
  }

  /** A string of zeros spells 0. */
  lemma {:induction false} ZerosValue(n: nat)
    ensures AllDigits(Repeat('0', n)) && DigitsValue(Repeat('0', n)) == 0
  {
    if n > 0 {
      ZerosValue(n - 1);
      assert Repeat('0', n)[..n - 1] == Repeat('0', n - 1);
    }
  }

  /** Leading zeros do not change the value of a numeral. */
  lemma LeadingZeros(n: nat, s: string)
    requires AllDigits(s)
    ensures AllDigits(Repeat('0', n) + s)
    ensures DigitsValue(Repeat('0', n) + s) == DigitsValue(s)
  {
    ZerosValue(n);
    DigitsValueConcat(Repeat('0', n), s);
  }

  /** Trailing zeros multiply a numeral by a power of ten. */
  lemma TrailingZeros(s: string, n: nat)
    requires AllDigits(s)
    ensures AllDigits(s + Repeat('0', n))
    ensures DigitsValue(s + Repeat('0', n)) == DigitsValue(s) * Pow10(n)
  {
    ZerosValue(n);
    DigitsValueConcat(s, Repeat('0', n));
  }

  /** The value of a numeral is below 10 to the power of its length. */
  lemma {:induction false} DigitsValueBound(s: string)
    requires AllDigits(s)
    ensures DigitsValue(s) < Pow10(|s|)
  {
    if s != [] {
      DigitsValueBound(s[..|s| - 1]);
    }
  }
}
