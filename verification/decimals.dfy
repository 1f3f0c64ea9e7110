/**
 * java.math.BigDecimal, as far as the report generator uses it.
 *
 * A BigDecimal is an unscaled integer together with a scale: the number it
 * stands for is unscaled * 10^-scale. Two BigDecimals are `equals` only when
 * both parts agree (so 0 and 0.0 differ), which is exactly Dafny's `==` on
 * the datatype below; `compareTo` compares the numbers, which is `Value`.
 */
module Decimals {
  import opened Results

  datatype Decimal = Decimal(unscaled: int, scale: nat)

  /** BigDecimal.ZERO: unscaled value 0 at scale 0. */
  const Zero: Decimal := Decimal(0, 0)

  function Pow10(n: nat): (p: nat)
    ensures p > 0
  {
    if n == 0 then 1 else 10 * Pow10(n - 1)
  }

  lemma {:induction false} Pow10Add(i: nat, j: nat)
    ensures Pow10(i + j) == Pow10(i) * Pow10(j)
  {
    if j > 0 {
      Pow10Add(i, j - 1);
      calc {
        Pow10(i + j);
        10 * Pow10(i + j - 1);
        10 * (Pow10(i) * Pow10(j - 1));
        Pow10(i) * (10 * Pow10(j - 1));
      }
    }
  }

  function Max(a: nat, b: nat): nat { if a < b then b else a }

  /** The number a decimal stands for. */
  function Value(d: Decimal): real {
    d.unscaled as real / Pow10(d.scale) as real
  }

  /** A decimal is numerically zero (signum() == 0) exactly when its unscaled value is. */
  lemma ValueIsZero(d: Decimal)
    ensures Value(d) == 0.0 <==> d.unscaled == 0
  {
    var x, p := d.unscaled as real, Pow10(d.scale) as real;
    assert x == (x / p) * p;
  }

  /** The BigDecimal(Int) constructor: the integer at scale 0. */
  function FromInt(n: int): (d: Decimal)
    ensures d.scale == 0 && Value(d) == n as real
  {
    Decimal(n, 0)
  }

  /** The unscaled value `d` has once it is brought to the larger scale `s`. */
  function Rescale(d: Decimal, s: nat): int
    requires d.scale <= s
  {
    d.unscaled * Pow10(s - d.scale)
  }

  lemma RealOfProduct(x: int, y: int)
    ensures (x * y) as real == x as real * y as real
  {
  }

  lemma RealQuotientScale(x: real, p: real, q: real)
    requires p > 0.0 && q > 0.0
    ensures (x * q) / (p * q) == x / p
  {
  }

  lemma IntQuotientScale(x: int, p: int, q: int)
    requires p > 0 && q > 0
    ensures (x * q) as real / (p * q) as real == x as real / p as real
  {
    RealOfProduct(x, q);
    RealOfProduct(p, q);
    RealQuotientScale(x as real, p as real, q as real);
  }

  lemma RescaleValue(d: Decimal, s: nat)
    requires d.scale <= s
    ensures Rescale(d, s) as real / Pow10(s) as real == Value(d)
  {
    var k := s - d.scale;
    Pow10Add(d.scale, k);
    IntQuotientScale(d.unscaled, Pow10(d.scale), Pow10(k));
  }

  lemma RescaleTwice(d: Decimal, s1: nat, s2: nat)
    requires d.scale <= s1 <= s2
    ensures Rescale(Decimal(Rescale(d, s1), s1), s2) == Rescale(d, s2)
  {
    Pow10Add(s1 - d.scale, s2 - s1);
    assert s2 - d.scale == (s1 - d.scale) + (s2 - s1);
    calc {
      Rescale(Decimal(Rescale(d, s1), s1), s2);
      d.unscaled * Pow10(s1 - d.scale) * Pow10(s2 - s1);
      { assert Pow10(s1 - d.scale) * Pow10(s2 - s1) == Pow10(s2 - d.scale); }
      d.unscaled * Pow10(s2 - d.scale);
    }
  }

  /**
   * BigDecimal.add: both operands brought to the larger scale, then their
   * unscaled values added; the scale of the sum is the larger of the two.
   */
  function Add(a: Decimal, b: Decimal): (r: Decimal)
    ensures r.scale == Max(a.scale, b.scale)
  {
    var s := Max(a.scale, b.scale);
    Decimal(Rescale(a, s) + Rescale(b, s), s)
  }

  lemma SumOfQuotients(x: real, y: real, p: real)
    requires p > 0.0
    ensures (x + y) / p == x / p + y / p
  {
  }

  /** BigDecimal addition is exact: the sum stands for the sum of the numbers. */
  lemma AddIsExact(a: Decimal, b: Decimal)
    ensures Value(Add(a, b)) == Value(a) + Value(b)
  {
    var s := Max(a.scale, b.scale);
    var x, y := Rescale(a, s), Rescale(b, s);
    RescaleValue(a, s);
    RescaleValue(b, s);
    assert (x + y) as real == x as real + y as real;
    SumOfQuotients(x as real, y as real, Pow10(s) as real);
  }

  lemma AddZero(d: Decimal)
    ensures Add(Zero, d) == d && Add(d, Zero) == d
  {
  }

  lemma AddCommutes(a: Decimal, b: Decimal)
    ensures Add(a, b) == Add(b, a)
  {
  }

  lemma RescaleSum(x: int, y: int, s1: nat, s2: nat)
    requires s1 <= s2
    ensures Rescale(Decimal(x + y, s1), s2) == Rescale(Decimal(x, s1), s2) + Rescale(Decimal(y, s1), s2)
  {
    var p := Pow10(s2 - s1);
    assert (x + y) * p == x * p + y * p;
  }

  /** The sum of `a` and `b` rescaled to `s` is the sum of their rescaled values. */
  lemma RescaleAdd(a: Decimal, b: Decimal, s: nat)
    requires Max(a.scale, b.scale) <= s
    ensures Rescale(Add(a, b), s) == Rescale(a, s) + Rescale(b, s)
  {
    var m := Max(a.scale, b.scale);
    RescaleSum(Rescale(a, m), Rescale(b, m), m, s);
    RescaleTwice(a, m, s);
    RescaleTwice(b, m, s);
  }

  /** Addition of BigDecimals is exactly associative, scale included. */
  lemma AddAssociates(a: Decimal, b: Decimal, c: Decimal)
    ensures Add(Add(a, b), c) == Add(a, Add(b, c))
  {
    var s := Max(Max(a.scale, b.scale), c.scale);
    RescaleAdd(a, b, s);
    RescaleAdd(b, c, s);
    assert Rescale(c, s) == Rescale(Decimal(Rescale(c, s), s), s);
  }

  function Abs(x: int): nat { if x < 0 then -x else x }

  /**
   * `r` is num / den rounded to an integer away from zero
   * (java.math.RoundingMode.UP): its magnitude is the smallest whole number
   * not below |num / den|, and it is negative exactly when the quotient is.
   * Unlike HALF_UP, any nonzero remainder moves the result one step outwards.
   */
  predicate IsRoundedAwayFromZero(r: int, num: int, den: int)
    requires den != 0
  {
    && (Abs(r) - 1) * Abs(den) < Abs(num) <= Abs(r) * Abs(den)
    && (r < 0 <==> num != 0 && (num < 0) != (den < 0))
  }

  lemma MultiplyMonotone(x: int, y: int, d: nat)
    requires x <= y
    ensures x * d <= y * d
  {
  }

  /** At most one integer is num / den rounded away from zero. */
  lemma RoundedAwayFromZeroIsUnique(r1: int, r2: int, num: int, den: int)
    requires den != 0
    requires IsRoundedAwayFromZero(r1, num, den) && IsRoundedAwayFromZero(r2, num, den)
    ensures r1 == r2
  {
    var d := Abs(den);
    if Abs(r1) < Abs(r2) {
      MultiplyMonotone(Abs(r1), Abs(r2) - 1, d);
    } else if Abs(r2) < Abs(r1) {
      MultiplyMonotone(Abs(r2), Abs(r1) - 1, d);
    }
  }

  lemma DivideBounds(x: real, a: real, d: real)
    requires d > 0.0
    ensures x < a / d <==> x * d < a
    ensures a / d <= x <==> a <= x * d
  {
    var q := a / d;
    assert a == q * d;
    if x < q { assert x * d < q * d; }
    if x * d < a { assert x < q; }
    if q <= x { assert q * d <= x * d; }
    if a <= x * d { assert q <= x; }
  }

  /** Integer bounds on n/d carry over to the real quotient. */
  lemma IntDivideBounds(k: int, n: int, d: int)
    requires d > 0
    ensures k * d < n <==> k as real < n as real / d as real
    ensures n <= k * d <==> n as real / d as real <= k as real
  {
    RealOfProduct(k, d);
    DivideBounds(k as real, n as real, d as real);
  }

  lemma NegQuotient(a: real, d: real)
    requires d != 0.0
    ensures (-a) / d == -(a / d) && a / (-d) == -(a / d) && (-a) / (-d) == a / d
  {
  }

  lemma NonNegQuotient(a: real, d: real)
    requires a >= 0.0 && d > 0.0
    ensures a / d >= 0.0
  {
  }

  /** The quotient of two integers, in terms of the quotient of their magnitudes. */
  lemma QuotientOfMagnitudes(num: int, den: int)
    requires den != 0
    ensures Abs(num) as real / Abs(den) as real >= 0.0
    ensures (num < 0) == (den < 0) ==> num as real / den as real == Abs(num) as real / Abs(den) as real
    ensures (num < 0) != (den < 0) ==> num as real / den as real == -(Abs(num) as real / Abs(den) as real)
  {
    var an, ad := Abs(num) as real, Abs(den) as real;
    NonNegQuotient(an, ad);
    NegQuotient(an, ad);
  }

  /**
   * Read over the reals: a non-negative quotient is rounded up to its
   * ceiling, a negative one down to its floor.
   */
  lemma RoundedAwayFromZeroBracketsQuotient(r: int, num: int, den: int)
    requires den != 0 && IsRoundedAwayFromZero(r, num, den)
    ensures var q := num as real / den as real;
      if q >= 0.0 then (r - 1) as real < q <= r as real
      else r as real <= q < (r + 1) as real
  {
    var n, d := Abs(num), Abs(den);
    IntDivideBounds(Abs(r) - 1, n, d);
    IntDivideBounds(Abs(r), n, d);
    QuotientOfMagnitudes(num, den);
  }

  lemma MagnitudeBounds(n: nat, d: nat)
    requires d > 0
    ensures var mag := n / d + (if n % d == 0 then 0 else 1);
      (mag - 1) * d < n <= mag * d
  {
    var q, r := n / d, n % d;
    assert n == q * d + r;
    assert (q + 1) * d == q * d + d;
    assert (q - 1) * d == q * d - d;
  }

  /**
   * Integer division rounded away from zero, the way BigDecimal.divide rounds
   * with RoundingMode.UP: divide the magnitudes, step the magnitude up when
   * there is a remainder, then give it the sign of the quotient.
   */
  function DivideAwayFromZero(num: int, den: int): (r: int)
    requires den != 0
    ensures IsRoundedAwayFromZero(r, num, den)
  {
    var n, d := Abs(num), Abs(den);
    var mag := n / d + (if n % d == 0 then 0 else 1);
    MagnitudeBounds(n, d);
    SignedMagnitudeRounds(num, den, mag);
    if (num < 0) == (den < 0) then mag else -mag
  }

  /** A magnitude that brackets |num / den|, given the sign of the quotient. */
  lemma SignedMagnitudeRounds(num: int, den: int, mag: int)
    requires den != 0
    requires (mag - 1) * Abs(den) < Abs(num) <= mag * Abs(den)
    ensures mag >= 0
    ensures IsRoundedAwayFromZero(if (num < 0) == (den < 0) then mag else -mag, num, den)
  {
    var d := Abs(den);
    if mag < 0 {
      MultiplyMonotone(mag, 0, d);
    }
    if mag > 0 {
      MultiplyMonotone(0, mag - 1, d);
    }
    var r := if (num < 0) == (den < 0) then mag else -mag;
    assert Abs(r) == mag;
  }

  /**
   * (a / b) * 10^n as a fraction of two integers: the numerator and the
   * denominator BigDecimal.divide rounds to give a quotient at scale n.
   */
  function ScaledQuotient(a: Decimal, b: Decimal, n: nat): (nd: (int, int))
    requires b.unscaled != 0
    ensures nd.1 != 0
  {
    (a.unscaled * Pow10(b.scale + n), b.unscaled * Pow10(a.scale))
  }

  lemma FieldQuotient(x: real, y: real, pa: real, pb: real, pn: real)
    requires y != 0.0 && pa > 0.0 && pb > 0.0
    ensures (x * pb * pn) / (y * pa) == (x / pa) / (y / pb) * pn
  {
  }

  lemma IntFieldQuotient(x: int, y: int, pa: int, pb: int, pn: int)
    requires y != 0 && pa > 0 && pb > 0
    ensures (x * (pb * pn)) as real / (y * pa) as real
         == (x as real / pa as real) / (y as real / pb as real) * pn as real
  {
    var pbn := pb * pn;
    RealOfProduct(x, pbn);
    RealOfProduct(pb, pn);
    RealOfProduct(y, pa);
    assert (x * pbn) as real == x as real * pb as real * pn as real;
    FieldQuotient(x as real, y as real, pa as real, pb as real, pn as real);
  }

  /** The fraction ScaledQuotient gives is exactly (a / b) * 10^n. */
  lemma ScaledQuotientIsExact(a: Decimal, b: Decimal, n: nat)
    requires b.unscaled != 0
    ensures Value(b) != 0.0
    ensures ScaledQuotient(a, b, n).0 as real / ScaledQuotient(a, b, n).1 as real
         == Value(a) / Value(b) * Pow10(n) as real
  {
    ValueIsZero(b);
    var x, y, pa, pb, pn := a.unscaled, b.unscaled, Pow10(a.scale), Pow10(b.scale), Pow10(n);
    Pow10Add(b.scale, n);
    assert ScaledQuotient(a, b, n) == (x * (pb * pn), y * pa);
    IntFieldQuotient(x, y, pa, pb, pn);
  }

  /** `r` is a / b at scale n, rounded away from zero. */
  predicate IsQuotientRoundedUp(r: Decimal, a: Decimal, b: Decimal, n: nat) {
    && b.unscaled != 0
    && r.scale == n
    && var nd := ScaledQuotient(a, b, n);
       IsRoundedAwayFromZero(r.unscaled, nd.0, nd.1)
  }

  /**
   * Read over the reals: the number a rounded quotient stands for is within
   * one unit of its last place of the exact quotient, on the side away from
   * zero.
   */
  lemma QuotientRoundedUpIsNearQuotient(r: Decimal, a: Decimal, b: Decimal, n: nat)
    requires IsQuotientRoundedUp(r, a, b, n)
    ensures Value(b) != 0.0
    ensures var q := Value(a) / Value(b) * Pow10(n) as real;
      if q >= 0.0 then (r.unscaled - 1) as real < q <= r.unscaled as real
      else r.unscaled as real <= q < (r.unscaled + 1) as real
  {
    var nd := ScaledQuotient(a, b, n);
    RoundedAwayFromZeroBracketsQuotient(r.unscaled, nd.0, nd.1);
    ScaledQuotientIsExact(a, b, n);
  }

  /**
   * BigDecimal.divide(divisor, n, RoundingMode.UP): the quotient at scale `n`,
   * rounded away from zero; ArithmeticException when the divisor is
   * numerically zero, whatever its scale.
   */
  function Divide(a: Decimal, b: Decimal, n: nat): (r: Result<Decimal>)
    ensures r.Err? <==> b.unscaled == 0
    ensures r.Err? ==> r.error == Arithmetic
    ensures r.Ok? ==> IsQuotientRoundedUp(r.value, a, b, n)
  {
    if b.unscaled == 0 then Err(Arithmetic)
    else
      var nd := ScaledQuotient(a, b, n);
      Ok(Decimal(DivideAwayFromZero(nd.0, nd.1), n))
  }
}
