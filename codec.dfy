/** The amount codec of libs/core: `strToInt` reads a decimal string as an
    integer count of 10^-decimals units, truncating extra fractional digits;
    `intToStr` writes such a count back as decimal text, with a three-way
    switch on how many fractional digits to show. */
module AmountCodec {
  import opened Results
  import opened Arith
  import opened Strings
  import opened BigIntText

  /** strToInt(decimals, amount): the text before the first '.', then the text
      between the first and the second '.' cut to `decimals` characters and
      right-padded with '0' to exactly `decimals`, read together by BigInt. */
  function StrToInt(decimals: nat, amount: string): Result<int> {
    var parts := Split(amount, '.');
    var integerStr := parts[0];
    var decimalStr := if |parts| >= 2 then parts[1] else "";
    ParseBigInt(integerStr + PadEnd(Slice(decimalStr, 0, decimals), decimals, '0'))
  }

  /** `integer || "0"`: everything but the last `decimals` characters of the
      digits, or "0" when nothing is left. */
  function IntegerText(decimals: nat, aStr: string): string {
    var integer := Slice(aStr, 0, -(decimals as int));
    if integer == [] then "0" else integer
  }

  /** The last `decimals` characters of the digits, left-padded with '0'. */
  function PaddedDecimal(decimals: nat, aStr: string): string {
    PadStart(Slice(aStr, -(decimals as int), |aStr|), decimals, '0')
  }

  /** The fraction as `fixed` selects it: unset keeps it, -1 strips trailing
      zeros, any other N cuts or zero-pads it to N characters. */
  function FixedDecimal(padded: string, fixedNum: Option<int>): string {
    match fixedNum
    case None => padded
    case Some(n) =>
      if n == -1 then TrimTrailing(padded, '0') else PadEnd(Slice(padded, 0, n), n, '0')
  }

  /** intToStr(decimals, amount, fixed); `fixed` 0n is falsy and so counts as unset. */
  function IntToStr(decimals: nat, amount: int, fixed: Option<int> := None): string {
    var fixedNum := if fixed.Some? && fixed.value != 0 then fixed else None;
    var aStr := IntToString(amount);
    if decimals == 0 then aStr
    else
      JoinNonEmpty([IntegerText(decimals, aStr), FixedDecimal(PaddedDecimal(decimals, aStr), fixedNum)], '.')
  }

  /** The whole units in an amount of 10^-decimals units. */
  function Whole(decimals: nat, n: nat): nat {
    var p := Pow10(decimals);
    DivNat(n, p);
    n / p
  }

  /** The atomic units left over below one whole unit. */
  function Atoms(decimals: nat, n: nat): nat {
    n % Pow10(decimals)
  }

  // ---------------------------------------------------------------------------
  // Numerals: canonical digit strings

  /** A digit string that starts with a non-zero digit is at least 10^(length-1). */
  lemma LeadingDigitBound(s: string)
    requires AllDigits(s) && |s| >= 1 && s[0] != '0'
    ensures DigitsValue(s) >= Pow10(|s| - 1)
  {
    assert s == [s[0]] + s[1..];
    DigitsValueConcat([s[0]], s[1..]);
    assert DigitsValue([s[0]]) == DigitValue(s[0]) by {
      assert [s[0]][..0] == [];
    }
  }

  /** Two digit strings of one length with one value are the same string. */
  lemma {:induction false} FixedWidthUnique(x: string, y: string)
    requires AllDigits(x) && AllDigits(y) && |x| == |y|
    requires DigitsValue(x) == DigitsValue(y)
    ensures x == y
  {
    if x != [] {
      var x', dx := LastDigit(x);
      var y', dy := LastDigit(y);
      DivBracketUnique(DigitsValue(x'), dx, DigitsValue(y'), dy);
      FixedWidthUnique(x', y');
    }
  }

  /** A non-empty digit string is its other digits followed by its last one. */
  lemma LastDigit(s: string) returns (s': string, d: nat)
    requires AllDigits(s) && s != []
    ensures AllDigits(s') && d < 10 && s == s' + [DigitChar(d)]
    ensures DigitsValue(s) == DigitsValue(s') * 10 + d
  {
    s', d := s[..|s| - 1], DigitValue(s[|s| - 1]);
    assert DigitChar(d) == s[|s| - 1];
    assert s == s' + [s[|s| - 1]];
  }

  /** The last decimal digit and the rest are determined by the value. */
  lemma DivBracketUnique(a: nat, d: nat, b: nat, e: nat)
    requires d < 10 && e < 10 && a * 10 + d == b * 10 + e
    ensures a == b && d == e
  {
    BracketUnique(a * 10 + d, 10, a, b);
  }

  /** A digit string with no leading zero is the toString of its value. */
  lemma {:induction false} CanonicalNumeral(s: string)
    requires AllDigits(s) && |s| >= 1 && (|s| > 1 ==> s[0] != '0')
    ensures s == NatToString(DigitsValue(s))
  {
    var m := DigitsValue(s);
    var n := |s|;
    if n == 1 {
      assert s[..0] == [];
      assert m == DigitsValue(s[..0]) * 10 + DigitValue(s[0]);
      assert NatToString(m) == [DigitChar(m)];
      assert DigitChar(m) == s[0] by {
        FixedWidthUnique([DigitChar(m)], [s[0]]);
      }
    } else {
      var p := s[..n - 1];
      LeadingDigitBound(p);
      assert DigitsValue(p) >= 1;
      CanonicalNumeral(p);
      var d := DigitValue(s[n - 1]);
      assert m == DigitsValue(p) * 10 + d;
      assert m / 10 == DigitsValue(p) && m % 10 == d by {
        DivBracketUnique(m / 10, m % 10, DigitsValue(p), d);
      }
      assert DigitChar(d) == s[n - 1] by {
        FixedWidthUnique([DigitChar(d)], [s[n - 1]]);
      }
      assert s == p + [s[n - 1]];
    }
  }

  /** toString of a value below 10^k has at most k digits. */
  lemma NatToStringWidth(r: nat, k: nat)
    requires r < Pow10(k)
    ensures |NatToString(r)| <= k || (r == 0 && k == 0)
  {
    var s := NatToString(r);
    if |s| > 1 {
      LeadingDigitBound(s);
      if |s| - 1 >= k {
        Pow10Add(k, |s| - 1 - k);
      }
    }
  }

  /** Where intToStr cuts digits longer than `decimals`. */
  lemma CutLong(d: nat, aStr: string)
    requires 0 < d < |aStr|
    ensures IntegerText(d, aStr) == aStr[..|aStr| - d]
    ensures PaddedDecimal(d, aStr) == aStr[|aStr| - d..]
  {
  }

  /** Digits no longer than `decimals` are all fraction. */
  lemma CutShort(d: nat, aStr: string)
    requires |aStr| <= d
    ensures IntegerText(d, aStr) == "0"
    ensures PaddedDecimal(d, aStr) == Repeat('0', d - |aStr|) + aStr
  {
  }

  /** The two pieces intToStr cuts the digits of a non-negative amount into:
      the quotient by 10^decimals in canonical form, and the remainder as
      exactly `decimals` digits. */
  lemma NumeralParts(d: nat, n: nat)
    requires d > 0
    ensures var aStr := NatToString(n);
      var i, f := IntegerText(d, aStr), PaddedDecimal(d, aStr);
      && AllDigits(i) && AllDigits(f) && |f| == d
      && '.' !in i && '.' !in f
      && DigitsValue(i) == n / Pow10(d) && DigitsValue(f) == n % Pow10(d)
      && i == NatToString(Whole(d, n))
  {
    var aStr := NatToString(n);
    var L := |aStr|;
    var i, f := IntegerText(d, aStr), PaddedDecimal(d, aStr);
    if L > d {
      CutLong(d, aStr);
      NumeralPartsLong(d, n, aStr);
    } else {
      CutShort(d, aStr);
      NumeralPartsShort(d, n, aStr);
    }
    NoDot(i);
    NoDot(f);
  }

  lemma NumeralPartsShort(d: nat, n: nat, aStr: string)
    requires aStr == NatToString(n) && |aStr| <= d
    ensures var f := Repeat('0', d - |aStr|) + aStr;
      && AllDigits(f) && DigitsValue(f) == n % Pow10(d)
      && n / Pow10(d) == 0 && AllDigits("0") && DigitsValue("0") == 0
      && NatToString(0) == "0"
  {
    var L := |aStr|;
    LeadingZeros(d - L, aStr);
    DigitsValueBound(aStr);
    Pow10Monotone(L, d);
    SmallQuotient(n, Pow10(d));
    assert DigitsValue("0") == 0 by {
      assert "0"[..0] == [];
    }
  }

  lemma NumeralPartsLong(d: nat, n: nat, aStr: string)
    requires aStr == NatToString(n) && 0 < d < |aStr|
    ensures var hi, lo := aStr[..|aStr| - d], aStr[|aStr| - d..];
      && AllDigits(hi) && AllDigits(lo)
      && DigitsValue(hi) == n / Pow10(d) && DigitsValue(lo) == n % Pow10(d)
      && hi == NatToString(Whole(d, n))
  {
    var L := |aStr|;
    var hi, lo := aStr[..L - d], aStr[L - d..];
    assert aStr == hi + lo;
    assert AllDigits(hi) && AllDigits(lo);
    DigitsValueConcat(hi, lo);
    DigitsValueBound(lo);
    DivModUnique(n, Pow10(d), DigitsValue(hi), DigitsValue(lo));
    CanonicalNumeral(hi);
  }

  lemma SmallQuotient(n: nat, p: nat)
    requires n < p
    ensures n / p == 0 && n % p == n
  {
  }

  /** q * p + r with r < p is the quotient and remainder of the division by p. */
  lemma DivModUnique(n: nat, p: nat, q: nat, r: nat)
    requires p > 0 && r < p && n == q * p + r
    ensures n / p == q && n % p == r
  {
    DivBracket(n, p);
    BracketUnique(n, p, q, n / p);
  }

  lemma NoDot(s: string)
    requires AllDigits(s)
    ensures '.' !in s
  {
    assert forall k :: 0 <= k < |s| ==> s[k] != '.';
  }

  /** Joining two non-empty pieces with '.', after filtering out empties. */
  lemma JoinTwo(a: string, b: string)
    requires a != []
    ensures JoinNonEmpty([a, b], '.') == if b == [] then a else a + "." + b
  {
    if b == [] {
      assert NonEmpty([a, b]) == [a] by {
        assert [a, b][1..] == [b];
        assert NonEmpty([b]) == [] by { assert [b][1..] == []; }
      }
    } else {
      assert NonEmpty([a, b]) == [a, b] by {
        assert [a, b][1..] == [b];
        assert NonEmpty([b]) == [b] by { assert [b][1..] == []; }
      }
      assert Join([a, b], '.') == a + ['.'] + Join([b], '.') by {
        assert [a, b][1..] == [b];
      }
    }
  }

  // ---------------------------------------------------------------------------
  // intToStr

  /** For a non-negative amount and decimals above 0, intToStr joins the
      integer text and the selected fraction. */
  lemma IntToStrUnfold(d: nat, n: nat, fixed: Option<int>)
    requires d > 0
    ensures var aStr := NatToString(n);
      var fixedNum := if fixed.Some? && fixed.value != 0 then fixed else None;
      IntToStr(d, n, fixed) ==
        JoinNonEmpty([IntegerText(d, aStr), FixedDecimal(PaddedDecimal(d, aStr), fixedNum)], '.')
  {
  }

  /** With decimals 0, intToStr writes the plain digits whatever `fixed` is. */
  lemma IntToStrWhole(n: nat, fixed: Option<int>)
    ensures IntToStr(0, n, fixed) == NatToString(n)
  {
  }

  /** With `fixed` unset, intToStr writes the quotient by 10^decimals, a '.',
      and the remainder as exactly `decimals` digits. */
  lemma IntToStrDefault(d: nat, n: nat)
    requires d > 0
    ensures IntToStr(d, n) == NatToString(Whole(d, n)) + "." + PadStart(NatToString(Atoms(d, n)), d, '0')
  {
    var aStr := NatToString(n);
    NumeralParts(d, n);
    var i, f := IntegerText(d, aStr), PaddedDecimal(d, aStr);
    PaddedRemainder(d, n % Pow10(d), f);
    IntToStrUnfold(d, n, None);
    JoinTwo(i, f);
  }

  /** The only `decimals`-digit string worth r is r's digits padded with '0'. */
  lemma PaddedRemainder(d: nat, r: nat, f: string)
    requires d > 0 && AllDigits(f) && |f| == d && DigitsValue(f) == r
    ensures f == PadStart(NatToString(r), d, '0')
  {
    DigitsValueBound(f);
    PaddedText(d, r);
    FixedWidthUnique(f, PadStart(NatToString(r), d, '0'));
  }

  /** `fixed` 0n is falsy: the same text as with `fixed` unset. */
  lemma IntToStrFixedZero(d: nat, n: int)
    ensures IntToStr(d, n, Some(0)) == IntToStr(d, n)
  {
  }

  /** `fixed` -1 strips the trailing zeros of the fraction and drops the '.'
      when no fractional digit is left. */
  lemma IntToStrTrimmed(d: nat, n: nat)
    requires d > 0
    ensures var i, f := NatToString(Whole(d, n)), PadStart(NatToString(Atoms(d, n)), d, '0');
      var t := TrimTrailing(f, '0');
      IntToStr(d, n, Some(-1)) == if t == [] then i else i + "." + t
  {
    var aStr := NatToString(n);
    NumeralParts(d, n);
    var i, f := IntegerText(d, aStr), PaddedDecimal(d, aStr);
    PaddedRemainder(d, n % Pow10(d), f);
    IntToStrUnfold(d, n, Some(-1));
    JoinTwo(i, TrimTrailing(f, '0'));
  }

  // ---------------------------------------------------------------------------
  // strToInt

  /** The first two pieces `split('.')` yields for i + "." + f + rest. */
  lemma SplitFirstTwo(i: string, f: string, rest: string)
    requires '.' !in i && '.' !in f
    requires rest == [] || rest[0] == '.'
    ensures var parts := Split(i + "." + f + rest, '.');
      |parts| >= 2 && parts[0] == i && parts[1] == f
  {
    assert i + "." + f + rest == i + ['.'] + (f + rest);
    SplitAfter(i, '.', f + rest);
    SplitHead(f, rest);
  }

  /** split('.') of digits, a '.' and digits: the two digit strings. */
  lemma SplitTwo(i: string, f: string)
    requires AllDigits(i) && AllDigits(f)
    ensures Split(i + "." + f, '.') == [i, f]
  {
    NoDot(i);
    NoDot(f);
    assert i + "." + f == i + ['.'] + f;
    SplitAfter(i, '.', f);
    assert Split(f, '.') == [f];
  }

  /** split('.') of f + rest, with rest empty or starting at a '.', begins with f. */
  lemma SplitHead(f: string, rest: string)
    requires '.' !in f
    requires rest == [] || rest[0] == '.'
    ensures Split(f + rest, '.')[0] == f
  {
    if rest == [] {
      assert f + rest == f;
    } else {
      assert f + rest == f + ['.'] + rest[1..];
      SplitAfter(f, '.', rest[1..]);
    }
  }

  /** The fraction strToInt reads: cut to `decimals` digits or padded with zeros. */
  lemma FractionDigits(d: nat, f: string)
    requires AllDigits(f)
    ensures var g := PadEnd(Slice(f, 0, d), d, '0');
      && |g| == d && AllDigits(g)
      && DigitsValue(g) == if |f| >= d then DigitsValue(f[..d]) else DigitsValue(f) * Pow10(d - |f|)
  {
    var cut := Slice(f, 0, d);
    var g := PadEnd(cut, d, '0');
    if |f| >= d {
      assert cut == f[..d];
      assert g == f[..d];
    } else {
      assert cut == f;
      assert g == f + Repeat('0', d - |f|);
      TrailingZeros(f, d - |f|);
    }
  }

  /** strToInt truncates the fraction to `decimals` digits and pads a short one
      with zeros; text after a second '.' is never read. */
  lemma StrToIntDigits(d: nat, i: string, f: string, rest: string)
    requires AllDigits(i) && AllDigits(f)
    requires rest == [] || rest[0] == '.'
    ensures StrToInt(d, i + "." + f + rest) == Ok(DigitsValue(i) * Pow10(d) +
      if |f| >= d then DigitsValue(f[..d]) else DigitsValue(f) * Pow10(d - |f|))
  {
    NoDot(i);
    NoDot(f);
    SplitFirstTwo(i, f, rest);
    StrToIntParts(d, i + "." + f + rest, i, f, DigitsValue(i) * Pow10(d) +
      if |f| >= d then DigitsValue(f[..d]) else DigitsValue(f) * Pow10(d - |f|));
  }

  /** strToInt reads the first two pieces split('.') yields: the fraction cut
      to `decimals` digits or padded with zeros, after the integer digits. */
  lemma StrToIntParts(d: nat, amount: string, i: string, f: string, v: int)
    requires |Split(amount, '.')| >= 2 && Split(amount, '.')[0] == i && Split(amount, '.')[1] == f
    requires AllDigits(i) && AllDigits(f)
    requires v == DigitsValue(i) * Pow10(d) +
      if |f| >= d then DigitsValue(f[..d]) else DigitsValue(f) * Pow10(d - |f|)
    ensures StrToInt(d, amount) == Ok(v)
  {
    FractionDigits(d, f);
    DigitsValueConcat(i, PadEnd(Slice(f, 0, d), d, '0'));
  }

  /** Without a '.', strToInt appends `decimals` zeros. */
  lemma StrToIntWhole(d: nat, i: string, v: int)
    requires AllDigits(i) && v == DigitsValue(i) * Pow10(d)
    ensures StrToInt(d, i) == Ok(v)
  {
    assert '.' !in i by { assert forall k :: 0 <= k < |i| ==> i[k] != '.'; }
    assert Split(i, '.') == [i];
    assert Slice("", 0, d) == "";
    assert PadEnd("", d, '0') == Repeat('0', d);
    TrailingZeros(i, d);
  }

  /** A character that cannot start or continue a BigInt literal in the part
      before the '.' makes strToInt fail. */
  lemma StrToIntRejects(d: nat, i: string, f: string, k: nat)
    requires '.' !in i && '.' !in f
    requires k < |i| && !IsDigit(i[k]) && !(k == 0 && (i[0] == '-' || i[0] == '+'))
    ensures StrToInt(d, i + "." + f) == Err(SyntaxError)
  {
    assert i + "." + f == i + ['.'] + f;
    SplitAfter(i, '.', f);
    assert Split(f, '.') == [f];
    var text := i + PadEnd(Slice(f, 0, d), d, '0');
    assert text[k] == i[k];
    assert k > 0 ==> text[1..][k - 1] == i[k];
  }

  /** "1.239" at 2 decimals: the third fractional digit is dropped. */
  lemma StrToIntCutExample()
    ensures StrToInt(2, "1.239") == Ok(123)
  {
    assert DigitsValue("1") == 1 by { assert "1"[..0] == []; }
    assert DigitsValue("23") == 23 by {
      assert "23"[..1] == "2" && "2"[..0] == [];
    }
    assert "239"[..2] == "23";
    assert Pow10(2) == 100;
    assert "1" + "." + "239" == "1.239";
    StrToIntLong(2, "1", "239", 123);
  }

  /** "5" at 2 decimals: two zeros are appended. */
  lemma StrToIntPadExample()
    ensures StrToInt(2, "5") == Ok(500)
  {
    assert DigitsValue("5") == 5 by { assert "5"[..0] == []; }
    StrToIntWhole(2, "5", 500);
  }

  // ---------------------------------------------------------------------------
  // Round trips

  /** The fraction intToStr writes for a remainder r below 10^decimals:
      exactly `decimals` digits worth r. */
  lemma PaddedText(d: nat, r: nat)
    requires d > 0 && r < Pow10(d)
    ensures var f := PadStart(NatToString(r), d, '0');
      |f| == d && AllDigits(f) && DigitsValue(f) == r
  {
    var s := NatToString(r);
    NatToStringWidth(r, d);
    var f := PadStart(s, d, '0');
    if |s| < d {
      LeadingZeros(d - |s|, s);
      assert f == Repeat('0', d - |s|) + s;
    } else {
      assert f == s;
    }
    assert AllDigits(f) && DigitsValue(f) == r;
  }

  /** strToInt on i.f with f at most `decimals` digits long: f is padded back
      to `decimals` digits. */
  lemma StrToIntShort(d: nat, i: string, f: string, v: int)
    requires AllDigits(i) && AllDigits(f) && |f| <= d
    requires v == DigitsValue(i) * Pow10(d) + DigitsValue(f) * Pow10(d - |f|)
    ensures StrToInt(d, i + "." + f) == Ok(v)
  {
    SplitTwo(i, f);
    if |f| == d {
      assert f[..d] == f;
    }
    StrToIntParts(d, i + "." + f, i, f, v);
  }

  /** strToInt on i.f with f at least `decimals` digits long: f is cut. */
  lemma StrToIntLong(d: nat, i: string, f: string, v: int)
    requires AllDigits(i) && AllDigits(f) && |f| >= d
    requires v == DigitsValue(i) * Pow10(d) + DigitsValue(f[..d])
    ensures StrToInt(d, i + "." + f) == Ok(v)
  {
    SplitTwo(i, f);
    StrToIntParts(d, i + "." + f, i, f, v);
  }

  /** intToStr with `fixed` unset, cut into its integer text and its fraction. */
  lemma DefaultPieces(d: nat, n: nat) returns (i: string, f: string)
    requires d > 0
    ensures IntToStr(d, n) == i + "." + f
    ensures AllDigits(i) && AllDigits(f) && |f| == d
    ensures DigitsValue(i) == n / Pow10(d) && DigitsValue(f) == n % Pow10(d)
  {
    var aStr := NatToString(n);
    NumeralParts(d, n);
    i, f := IntegerText(d, aStr), PaddedDecimal(d, aStr);
    IntToStrUnfold(d, n, None);
    JoinTwo(i, f);
  }

  /** intToStr with `fixed` -1, cut into its integer text and its trimmed fraction. */
  lemma TrimmedPieces(d: nat, n: nat) returns (i: string, t: string)
    requires d > 0
    ensures IntToStr(d, n, Some(-1)) == if t == [] then i else i + "." + t
    ensures AllDigits(i) && AllDigits(t) && |t| <= d
    ensures DigitsValue(i) == n / Pow10(d) && DigitsValue(t) * Pow10(d - |t|) == n % Pow10(d)
  {
    var aStr := NatToString(n);
    NumeralParts(d, n);
    i := IntegerText(d, aStr);
    var f := PaddedDecimal(d, aStr);
    t := TrimTrailing(f, '0');
    IntToStrUnfold(d, n, Some(-1));
    JoinTwo(i, t);
    TrimmedFraction(f, t);
  }

  /** An amount is its quotient times the divisor plus its remainder. */
  lemma Recompose(n: nat, p: nat, q: int, r: int)
    requires p > 0 && q == n / p && r == n % p
    ensures n == q * p + r
  {
  }

  lemma FixedDecimalCut(f: string, fixedDigits: nat)
    requires fixedDigits > 0
    ensures FixedDecimal(f, Some(fixedDigits)) == PadEnd(Slice(f, 0, fixedDigits), fixedDigits, '0')
  {
  }

  /** intToStr with `fixed` N, cut into its integer text and the fraction
      cut or zero-padded to N digits. */
  lemma FixedPieces(d: nat, n: nat, fixedDigits: nat) returns (i: string, f: string, g: string)
    requires d > 0 && fixedDigits > 0
    ensures IntToStr(d, n, Some(fixedDigits)) == i + "." + g
    ensures g == PadEnd(Slice(f, 0, fixedDigits), fixedDigits, '0')
    ensures AllDigits(i) && AllDigits(f) && |f| == d
    ensures DigitsValue(i) == n / Pow10(d) && DigitsValue(f) == n % Pow10(d)
  {
    var aStr := NatToString(n);
    NumeralParts(d, n);
    i, f := IntegerText(d, aStr), PaddedDecimal(d, aStr);
    g := PadEnd(Slice(f, 0, fixedDigits), fixedDigits, '0');
    FixedDecimalCut(f, fixedDigits);
    IntToStrUnfold(d, n, Some(fixedDigits));
    JoinTwo(i, g);
  }

  /** strToInt reads back what intToStr writes with `fixed` unset. */
  lemma RoundTrip(d: nat, n: nat)
    ensures StrToInt(d, IntToStr(d, n)) == Ok(n)
  {
    if d == 0 {
      RoundTripWhole(n, None);
    } else {
      var p := Pow10(d);
      var q, r := n / p, n % p;
      assert n == q * p + r;
      var i, f := DefaultPieces(d, n);
      assert Pow10(d - |f|) == 1;
      StrToIntShort(d, i, f, n);
    }
  }

  /** With decimals 0, strToInt reads back the plain digits. */
  lemma RoundTripWhole(n: nat, fixed: Option<int>)
    ensures StrToInt(0, IntToStr(0, n, fixed)) == Ok(n)
  {
    IntToStrWhole(n, fixed);
    StrToIntWhole(0, NatToString(n), n);
  }

  /** strToInt reads back what intToStr writes with `fixed` -1: the zeros it
      strips are the ones strToInt pads back. */
  lemma RoundTripTrimmed(d: nat, n: nat)
    ensures StrToInt(d, IntToStr(d, n, Some(-1))) == Ok(n)
  {
    if d == 0 {
      RoundTripWhole(n, Some(-1));
    } else {
      var i, t := TrimmedPieces(d, n);
      var q, r := DigitsValue(i), DigitsValue(t) * Pow10(d - |t|);
      Recompose(n, Pow10(d), q, r);
      if t == [] {
        assert r == 0;
        StrToIntWhole(d, i, n);
      } else {
        StrToIntShort(d, i, t, n);
      }
    }
  }

  /** Stripping trailing zeros keeps the digits and, padded back, the value. */
  lemma TrimmedFraction(f: string, t: string)
    requires AllDigits(f) && t == TrimTrailing(f, '0')
    ensures AllDigits(t) && DigitsValue(t) * Pow10(|f| - |t|) == DigitsValue(f)
  {
    assert f == t + Repeat('0', |f| - |t|);
    assert AllDigits(t) by { assert forall k :: 0 <= k < |t| ==> t[k] == f[k]; }
    TrailingZeros(t, |f| - |t|);
  }

  /** With `fixed` N at or beyond `decimals`, the extra digits are zeros and
      strToInt still reads back the amount. */
  lemma RoundTripFixedWide(d: nat, n: nat, fixedDigits: nat)
    requires 0 < d <= fixedDigits
    ensures StrToInt(d, IntToStr(d, n, Some(fixedDigits))) == Ok(n)
  {
    var p := Pow10(d);
    var q, r := n / p, n % p;
    assert n == q * p + r;
    var i, f, g := FixedPieces(d, n, fixedDigits);
    FractionDigits(fixedDigits, f);
    FixedWide(d, f, fixedDigits);
    StrToIntLong(d, i, g, n);
  }

  /** With `fixed` N below `decimals`, strToInt reads back the amount
      truncated to N fractional digits. */
  lemma RoundTripFixedNarrow(d: nat, n: nat, fixedDigits: nat)
    requires 0 < fixedDigits < d
    ensures StrToInt(d, IntToStr(d, n, Some(fixedDigits))) ==
      Ok(n / Pow10(d - fixedDigits) * Pow10(d - fixedDigits))
  {
    var i, f, g := FixedPieces(d, n, fixedDigits);
    var hv, tv := NarrowFraction(d, f, g, fixedDigits);
    NarrowValue(n, d, fixedDigits, hv, tv);
    StrToIntShort(d, i, g, n / Pow10(d - fixedDigits) * Pow10(d - fixedDigits));
  }

  /** `fixed` N below `decimals` keeps the first N digits of the fraction:
      worth hv, the dropped digits worth tv. */
  lemma NarrowFraction(d: nat, f: string, g: string, fixedDigits: nat) returns (hv: nat, tv: nat)
    requires 0 < fixedDigits < d && AllDigits(f) && |f| == d
    requires g == PadEnd(Slice(f, 0, fixedDigits), fixedDigits, '0')
    ensures AllDigits(g) && |g| == fixedDigits && DigitsValue(g) == hv
    ensures DigitsValue(f) == hv * Pow10(d - fixedDigits) + tv
    ensures hv < Pow10(fixedDigits) && tv < Pow10(d - fixedDigits)
  {
    assert g == f[..fixedDigits];
    hv, tv := SplitFraction(f, fixedDigits);
  }

  /** Zeroing the last k = decimals - N fractional digits of an amount truncates
      it to a multiple of 10^k. */
  lemma NarrowValue(n: nat, d: nat, fixedDigits: nat, hv: nat, tv: nat)
    requires fixedDigits <= d
    requires n % Pow10(d) == hv * Pow10(d - fixedDigits) + tv
    requires hv < Pow10(fixedDigits) && tv < Pow10(d - fixedDigits)
    ensures n / Pow10(d) * Pow10(d) + hv * Pow10(d - fixedDigits)
      == n / Pow10(d - fixedDigits) * Pow10(d - fixedDigits)
  {
    var k := d - fixedDigits;
    var p := Pow10(d);
    DivNat(n, p);
    var q: nat := n / p;
    Pow10Add(fixedDigits, k);
    TruncatedQuotient(n, p, Pow10(k), Pow10(fixedDigits), q, hv, tv);
  }

  /** `fixed` at or beyond `decimals` appends zeros that strToInt cuts again. */
  lemma FixedWide(d: nat, f: string, fixedDigits: nat)
    requires AllDigits(f) && |f| == d <= fixedDigits
    ensures var g := PadEnd(Slice(f, 0, fixedDigits), fixedDigits, '0');
      g[..d] == f
  {
  }

  /** The first N digits of a numeral and the rest, as numbers. */
  lemma SplitFraction(f: string, n: nat) returns (hv: nat, tv: nat)
    requires AllDigits(f) && n <= |f|
    ensures AllDigits(f[..n]) && DigitsValue(f[..n]) == hv
    ensures DigitsValue(f) == hv * Pow10(|f| - n) + tv
    ensures hv < Pow10(n) && tv < Pow10(|f| - n)
  {
    var g, t := f[..n], f[n..];
    assert f == g + t;
    DigitsValueConcat(g, t);
    DigitsValueBound(t);
    DigitsValueBound(g);
    hv, tv := DigitsValue(g), DigitsValue(t);
  }

  /** n = q * (a * b) + g * a + t with t < a and g < b truncates to
      q * (a * b) + g * a at a multiple of a. */
  lemma TruncatedQuotient(n: nat, p: nat, a: nat, b: nat, q: nat, g: nat, t: nat)
    requires a > 0 && b > 0 && p == b * a
    requires n / p == q && n % p == g * a + t && t < a && g < b
    ensures q * p + g * a == n / a * a
  {
    assert n == q * p + n % p;
    assert q * p == (q * b) * a;
    assert n == (q * b + g) * a + t;
    BracketUnique(n, a, q * b + g, n / a);
  }
}
