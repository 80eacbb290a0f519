/**
 * Fixed-point decimals with 18 fractional digits, the number type in which
 * every amount of the airdrop is computed (the SDK's `Dec`).
 *
 * A decimal is an unbounded integer read as `value / One`. Addition and
 * subtraction are exact; multiplication and division compute the exact
 * product or quotient at 36 digits and chop it back to 18 digits, rounding
 * half to even. The properties proved elsewhere only use the rounding
 * bounds stated in the contracts below, never the tie rule.
 */
module Decimal {
  import opened Results

  /** Number of fractional decimal digits. */
  const Precision: nat := 18

  /** The integer that represents 1.0, that is 10^18. */
  const One: int := 1_000_000_000_000_000_000

  const MinInt64: int := -0x8000_0000_0000_0000
  const MaxInt64: int := 0x7FFF_FFFF_FFFF_FFFF

  type Dec = int

  function Abs(x: int): nat
  {
    if x < 0 then -x else x
  }

  function Pow10(n: nat): nat
  {
    if n == 0 then 1 else 10 * Pow10(n - 1)
  }

  lemma {:induction false} Pow10Precision()
    ensures Pow10(Precision) == One
  {
    assert Pow10(0) == 1;
    assert Pow10(6) == 1_000_000;
    assert Pow10(12) == 1_000_000_000_000;
  }

  /** `NewDec(n)`: the integer `n` as a decimal. */
  function NewDec(n: int): (r: Dec)
    ensures r / One == n && r % One == 0
  {
    n * One
  }

  /** `NewDecWithPrec(n, prec)`: the decimal `n * 10^-prec`. */
  function NewDecWithPrec(n: int, prec: nat): (r: Dec)
    requires prec <= Precision
    ensures r * Pow10(prec) == n * One
  {
    Pow10Split(prec, Precision - prec);
    Pow10Precision();
    MulAssoc(n, Pow10(Precision - prec), Pow10(prec));
    n * Pow10(Precision - prec)
  }

  lemma MulAssoc(x: int, y: int, z: int)
    ensures (x * y) * z == x * (z * y)
  {
  }

  lemma {:induction false} Pow10Split(a: nat, b: nat)
    ensures Pow10(a) * Pow10(b) == Pow10(a + b)
  {
    if a > 0 {
      Pow10Split(a - 1, b);
    }
  }

  /** Rounds `n / One` to the nearest integer, ties to even, for `n >= 0`. */
  function ChopNat(n: nat): (r: nat)
    ensures 2 * Abs(r * One - n) <= One
  {
    var q, rem := n / One, n % One;
    if 2 * rem < One then q
    else if 2 * rem > One then q + 1
    else if q % 2 == 0 then q
    else q + 1
  }

  /**
   * Removes the 18 fractional digits of `n`, rounding half to even and
   * symmetrically around zero (`chopPrecisionAndRound`).
   */
  function ChopRound(n: int): (r: int)
    ensures 2 * Abs(r * One - n) <= One
    ensures n >= 0 ==> r >= 0
    ensures n <= 0 ==> r <= 0
  {
    if n < 0 then var c: int := ChopNat(-n); -c else ChopNat(n)
  }

  /** Integer division truncated toward zero, as `big.Int.Quo` does. */
  function TruncDiv(a: int, b: int): (r: int)
    requires b != 0
    ensures Abs(a - r * b) < Abs(b)
    ensures Abs(r * b) <= Abs(a)
    ensures a >= 0 && b > 0 ==> r >= 0
  {
    var q := Abs(a) / Abs(b);
    TruncDivFacts(a, b, q);
    if (a < 0) == (b < 0) then q else -q
  }

  lemma TruncDivFacts(a: int, b: int, q: int)
    requires b != 0 && q == Abs(a) / Abs(b)
    ensures var r := if (a < 0) == (b < 0) then q else -q;
      Abs(a - r * b) < Abs(b) && Abs(r * b) <= Abs(a)
  {
    var A, B := Abs(a), Abs(b);
    var m: int := A % B;
    DivModNat(A, B, q, m);
    var r := if (a < 0) == (b < 0) then q else -q;
    SignedProduct(a, b, q, r);
    if a >= 0 {
      assert a - r * b == A - q * B;
    } else {
      assert a - r * b == -(A - q * B);
    }
  }

  lemma DivModNat(A: nat, B: nat, q: int, m: int)
    requires B > 0 && q == A / B && m == A % B
    ensures A - q * B == m && 0 <= m < B && 0 <= q * B <= A
  {
  }

  /** The truncated quotient has the sign that makes `r * b` carry the sign of `a`. */
  lemma SignedProduct(a: int, b: int, q: int, r: int)
    requires b != 0 && q >= 0
    requires r == if (a < 0) == (b < 0) then q else -q
    ensures a >= 0 ==> r * b == q * Abs(b)
    ensures a < 0 ==> r * b == -(q * Abs(b))
  {
    NegMul(q, b);
  }

  lemma NegMul(x: int, y: int)
    ensures (-x) * y == -(x * y) && x * (-y) == -(x * y)
  {
  }

  /** `Mul`: the product of two decimals, rounded to 18 digits. */
  function Mul(a: Dec, b: Dec): (r: Dec)
    ensures a >= 0 && b >= 0 ==> r >= 0
  {
    ChopRound(a * b)
  }

  /** `Mul(a, b)` is the exact product `a * b / One` to within half a unit of the last digit. */
  lemma MulRounding(a: Dec, b: Dec)
    ensures 2 * Abs(Mul(a, b) * One - a * b) <= One
  {
  }

  lemma MulOne(a: Dec)
    ensures Mul(a, One) == a && Mul(One, a) == a
  {
  }

  lemma MulZero(a: Dec)
    ensures Mul(a, 0) == 0 && Mul(0, a) == 0
  {
  }

  /**
   * `Quo`: the quotient of two decimals rounded to 18 digits: `r * b / One`
   * is within about half a unit of the last digit of `a`.
   */
  function Quo(a: Dec, b: Dec): (r: Dec)
    requires b != 0
  {
    ChopRound(TruncDiv(a * One * One, b))
  }

  /** `Quo(a, b) * b` is `a` to within about half a unit of the last digit, scaled by `b`. */
  lemma QuoRounding(a: Dec, b: Dec)
    requires b != 0
    ensures 2 * Abs(Quo(a, b) * b - a * One) * One <= Abs(b) * (One + 2)
  {
    var q := TruncDiv(a * One * One, b);
    QuoBound(a, b, q, ChopRound(q));
  }

  lemma QuoBound(a: int, b: int, q: int, r: int)
    requires b != 0
    requires Abs(a * One * One - q * b) < Abs(b)
    requires 2 * Abs(r * One - q) <= One
    ensures 2 * Abs(r * b - a * One) * One <= Abs(b) * (One + 2)
  {
    var e1, e2, x := r * One - q, q * b - a * One * One, r * b - a * One;
    QuoIdentity(a, b, q, r);
    AbsMul(x, One);
    AbsMul(e1, b);
    MulLe(2 * Abs(e1), One, Abs(b));
    Scale(Abs(e1), Abs(b));
    Scale(Abs(x), One);
    Spread(Abs(b), One);
    QuoBoundLinear(Abs(x) * One, Abs(e1) * Abs(b), Abs(e2), Abs(b), Abs(b) * One);
  }

  /** `2 * x * y` computed either way round. */
  lemma Scale(x: int, y: int)
    ensures (2 * x) * y == 2 * (x * y)
  {
  }

  lemma Spread(b: int, c: int)
    ensures b * (c + 2) == b * c + 2 * b
  {
  }

  /** The linear core of the quotient bound, with its products named. */
  lemma QuoBoundLinear(xOne: int, e1b: int, e2: int, b: int, bOne: int)
    requires xOne <= e1b + e2 && e2 < b && 2 * e1b <= bOne
    ensures 2 * xOne <= bOne + 2 * b
  {
  }

  lemma QuoIdentity(a: int, b: int, q: int, r: int)
    ensures (r * b - a * One) * One == (r * One - q) * b + (q * b - a * One * One)
  {
  }

  lemma AbsMul(x: int, y: int)
    ensures Abs(x * y) == Abs(x) * Abs(y)
  {
    if x < 0 && y < 0 {
      assert x * y == (-x) * (-y);
    } else if x < 0 {
      assert -(x * y) == (-x) * y;
    } else if y < 0 {
      assert -(x * y) == x * (-y);
    }
  }

  lemma MulLe(a: int, b: int, c: nat)
    requires a <= b
    ensures a * c <= b * c
  {
    assert b * c - a * c == (b - a) * c;
  }

  /** `RoundInt`: the nearest integer, ties to even. */
  function RoundInt(d: Dec): (r: int)
    ensures 2 * Abs(r * One - d) <= One
  {
    ChopRound(d)
  }

  /** The integer part of `d`, truncated toward zero. */
  function TruncateInt(d: Dec): (r: int)
    ensures Abs(d - r * One) < One
    ensures d >= 0 ==> 0 <= r * One <= d
    ensures d < 0 ==> d <= r * One <= 0
  {
    TruncDiv(d, One)
  }

  /** `TruncateInt64`: the integer part of `d`, or `None` where the SDK panics because it does not fit in 64 bits. */
  function TruncateInt64(d: Dec): (r: Option<int>)
    ensures r.Some? <==> MinInt64 <= TruncateInt(d) <= MaxInt64
    ensures r.Some? ==> r.value == TruncateInt(d)
    ensures r.Some? ==> Abs(d - r.value * One) < One
  {
    var t := TruncateInt(d);
    if MinInt64 <= t <= MaxInt64 then Some(t) else None
  }
}
