/** Integer facts the fixed-point arithmetic and the amount codec share:
    powers of ten and the truncating division of JavaScript's BigInt. */
module Arith {

  function Pow10(n: nat): (r: nat)
    ensures r >= 1
  {
    if n == 0 then 1 else 10 * Pow10(n - 1)
  }

  lemma {:induction false} Pow10Add(m: nat, n: nat)
    ensures Pow10(m + n) == Pow10(m) * Pow10(n)
  {
    if n > 0 {
      Pow10Add(m, n - 1);
      assert Pow10(m + n) == 10 * Pow10(m + n - 1);
    }
  }

  lemma {:induction false} Pow10Monotone(m: nat, n: nat)
    requires m <= n
    ensures Pow10(m) <= Pow10(n)
  {
    if m < n {
      Pow10Monotone(m, n - 1);
    }
  }

  function Abs(x: int): nat {
    if x < 0 then -x else x
  }

  lemma AbsMul(x: int, y: int)
    ensures Abs(x * y) == Abs(x) * Abs(y)
  {
    if x < 0 && y < 0 {
      assert x * y == (-x) * (-y);
    } else if x < 0 {
      assert -(x * y) == (-x) * y;
    } else if y < 0 {
      assert -(x * y) == x * (-y);
    }
  }

  /** Euclidean division of naturals brackets the dividend. */
  lemma DivBracket(x: nat, y: nat)
    requires y > 0
    ensures (x / y) * y <= x < (x / y) * y + y
  {
    assert x == (x / y) * y + x % y;
  }

  lemma DivNat(n: nat, p: nat)
    requires p > 0
    ensures n / p >= 0
  {
  }

  lemma MulAtLeast(a: int, y: nat)
    ensures a >= 1 ==> a * y >= y
  {
    if a >= 1 {
      assert a * y == (a - 1) * y + y;
    }
  }

  lemma NonNegativeProduct(x: int, y: int)
    ensures x >= 0 && y >= 0 ==> x * y >= 0
  {
    if x >= 0 && y >= 0 {
      MulAtLeast(x, y);
    }
  }

  /** Only one natural q satisfies q * y <= x < q * y + y. */
  lemma BracketUnique(x: nat, y: nat, q: nat, q': nat)
    requires y > 0
    requires q * y <= x < q * y + y
    requires q' * y <= x < q' * y + y
    ensures q == q'
  {
    MulAtLeast(q - q', y);
    MulAtLeast(q' - q, y);
    assert (q - q') * y == q * y - q' * y;
    assert (q' - q) * y == q' * y - q * y;
  }

  /** Integer division truncating toward zero, the rule of BigInt `/` and of
      BN's `div`; Dafny's own `/` is Euclidean and differs on negative operands. */
  function TDiv(a: int, b: int): (q: int)
    requires b != 0
    ensures Abs(q) * Abs(b) <= Abs(a) < Abs(q) * Abs(b) + Abs(b)
    ensures q == 0 || ((q > 0) <==> ((a > 0) == (b > 0)))
  {
    var q0 := Abs(a) / Abs(b);
    DivBracket(Abs(a), Abs(b));
    if (a >= 0) == (b > 0) then q0 else -q0
  }

  lemma TDivZero(b: int)
    requires b != 0
    ensures TDiv(0, b) == 0
  {
  }

  /** A non-negative quotient pinned between q * b and q * b + b is q. */
  lemma TDivOfBracket(a: int, b: int, q: nat)
    requires a >= 0 && b > 0 && q * b <= a < q * b + b
    ensures TDiv(a, b) == q
  {
    DivBracket(a, b);
    BracketUnique(a, b, q, a / b);
  }

  /** On non-negative dividends truncating division is monotone. */
  lemma TDivMonotone(x: int, y: int, b: int)
    requires 0 <= x <= y && b > 0
    ensures 0 <= TDiv(x, b) <= TDiv(y, b)
  {
    var qx, qy := TDiv(x, b), TDiv(y, b);
    if qx > qy {
      MulMonotone(qy + 1, qx, b);
    }
  }

  /** Truncating division is exact on multiples. */
  lemma TDivExact(k: int, b: int)
    requires b != 0
    ensures TDiv(k * b, b) == k
  {
    var q := TDiv(k * b, b);
    AbsMul(k, b);
    BracketUnique(Abs(k * b), Abs(b), Abs(q), Abs(k));
  }

  lemma ScaledRatio(v: int, k: nat, p: nat, s: nat)
    requires k > 0 && p > 0 && s == k * p
    ensures (v * k) as real / s as real == v as real / p as real
  {
    IntToRealMul(k, p);
    IntToRealMul(v, k);
    RealCancel(v as real, k as real, p as real);
  }

  lemma IntToRealMul(x: int, y: int)
    ensures (x * y) as real == x as real * y as real
  {
  }

  lemma RealCancel(v: real, k: real, p: real)
    requires k > 0.0 && p > 0.0
    ensures (v * k) / (k * p) == v / p
  {
  }

  /** Truncating division is unchanged when both operands are scaled by c > 0. */
  lemma TDivCancel(a: int, b: int, c: nat)
    requires b != 0 && c > 0
    ensures TDiv(a * c, b * c) == TDiv(a, b)
  {
    AbsMul(a, c);
    AbsMul(b, c);
    NatDivCancel(Abs(a), Abs(b), c);
    SignMul(a, c);
    SignMul(b, c);
  }

  lemma NatDivCancel(x: nat, y: nat, c: nat)
    requires y > 0 && c > 0
    ensures (x * c) / (y * c) == x / y
  {
    var q := x / y;
    DivBracket(x, y);
    MulMonotone(q * y, x, c);
    MulStrict(x, q * y + y, c);
    assert (q * y) * c == q * (y * c);
    assert (q * y + y) * c == q * (y * c) + y * c;
    DivBracket(x * c, y * c);
    BracketUnique(x * c, y * c, q, (x * c) / (y * c));
  }

  lemma MulAddRight(a: int, b: int, c: int)
    ensures (a + b) * c == a * c + b * c
  {
  }

  lemma MulAddLeft(a: int, b: int, c: int)
    ensures a * (b + c) == a * b + a * c
  {
  }

  lemma MulAssoc(x: int, y: int, z: int)
    ensures x * (y * z) == (x * y) * z
  {
  }

  lemma MulRotate(x: int, y: int, z: int)
    ensures (x * y) * z == (x * z) * y
  {
  }

  lemma MulShuffle(x: int, a: int, y: int, b: int)
    ensures (x * a) * (y * b) == (x * y) * (a * b)
  {
  }

  lemma MulMonotone(x: nat, y: nat, c: nat)
    requires x <= y
    ensures x * c <= y * c
  {
    MulAtLeast(y - x, c);
    assert y * c - x * c == (y - x) * c;
  }

  lemma MulStrict(x: nat, y: nat, c: nat)
    requires x < y && c > 0
    ensures x * c < y * c
  {
    MulAtLeast(y - x, c);
    assert y * c - x * c == (y - x) * c;
  }

  lemma MulCancel(x: nat, y: nat, c: nat)
    requires c > 0 && x * c <= y * c
    ensures x <= y
  {
    if x > y {
      MulStrict(y, x, c);
    }
  }

  /** A product is positive exactly when its factors are non-zero and share a sign. */
  lemma ProductPositive(x: int, y: int)
    ensures x * y > 0 <==> (x > 0 && y > 0) || (x < 0 && y < 0)
  {
    if x > 0 {
      SignMul(y, x);
    } else if x < 0 {
      SignMul(-y, -x);
      assert (-y) * (-x) == x * y;
    }
  }

  lemma SignMul(a: int, c: nat)
    requires c > 0
    ensures (a * c > 0) == (a > 0) && (a * c >= 0) == (a >= 0)
  {
    MulAtLeast(a, c);
    MulAtLeast(-a, c);
    assert -a * c == -(a * c);
  }
}
