/** java.math.BigDecimal as an unscaled integer and a scale (the value is unscaled × 10^-scale), with
    the arithmetic ExpressionEvaluator performs in MathContext(34, RoundingMode.HALF_UP). */
module Decimals {

  datatype Decimal = Decimal(unscaled: int, scale: int)

  /** The significant digits kept by MathContext(34, HALF_UP). */
  const PRECISION: nat := 34

  function Abs(x: int): nat {
    if x < 0 then -x else x
  }

  function Max(a: int, b: int): int {
    if a >= b then a else b
  }

  function Pow10(n: nat): (p: nat)
    ensures p >= 1
  {
    if n == 0 then 1 else 10 * Pow10(n - 1)
  }

  lemma {:induction false} Pow10Add(a: nat, b: nat)
    ensures Pow10(a + b) == Pow10(a) * Pow10(b)
  {
    if a > 0 {
      Pow10Add(a - 1, b);
      assert Pow10(a + b) == 10 * (Pow10(a - 1) * Pow10(b));
    }
  }

  lemma {:induction false} Pow10Monotone(a: nat, b: nat)
    requires a < b
    ensures Pow10(a) < Pow10(b)
  {
    if b - 1 > a {
      Pow10Monotone(a, b - 1);
    }
  }

  /** The precision of an unscaled value: how many decimal digits it has (zero has one). */
  function NumDigits(n: nat): (k: nat)
    ensures k >= 1
    ensures n < Pow10(k)
    ensures k == 1 || Pow10(k - 1) <= n
  {
    if n < 10 then 1 else 1 + NumDigits(n / 10)
  }

  /** The number a Decimal stands for: unscaled / 10^scale, or unscaled × 10^-scale for a negative scale. */
  function Value(d: Decimal): real {
    if d.scale >= 0 then d.unscaled as real / Pow10(d.scale) as real
    else (d.unscaled * Pow10(-d.scale)) as real
  }

  lemma {:induction false} MulAsReal(x: int, y: nat)
    ensures (x * y) as real == x as real * y as real
  {
    if y > 0 {
      MulAsReal(x, y - 1);
      assert x * y == x * (y - 1) + x;
    }
  }

  lemma {:induction false} MulAssoc(a: int, b: int, c: int)
    ensures a * (b * c) == (a * b) * c
  {
  }

  lemma {:induction false} CancelFactor(u: int, p: nat, q: nat)
    requires p >= 1 && q >= 1
    ensures (u * p) as real / (q * p) as real == u as real / q as real
  {
    MulAsReal(u, p);
    MulAsReal(q, p);
    var x, y, z := u as real, p as real, q as real;
    assert (x * y) / (z * y) == x / z;
  }

  lemma {:induction false} MoveFactor(u: int, q: nat, r: nat)
    requires r >= 1
    ensures (u * (q * r)) as real / r as real == (u * q) as real
  {
    MulAssoc(u, q, r);
    MulAsReal(u * q, r);
  }

  lemma {:induction false} RescaleNonNegative(u: int, s: int, k: nat)
    requires s >= 0
    ensures Value(Decimal(u * Pow10(k), s + k)) == Value(Decimal(u, s))
  {
    Pow10Add(s, k);
    CancelFactor(u, Pow10(k), Pow10(s));
  }

  lemma {:induction false} RescaleAcrossZero(u: int, s: int, k: nat)
    requires s < 0 <= s + k
    ensures Value(Decimal(u * Pow10(k), s + k)) == Value(Decimal(u, s))
  {
    var j: nat := -s;
    var i: nat := s + k;
    Pow10Add(j, i);
    assert j + i == k;
    MoveFactor(u, Pow10(j), Pow10(i));
  }

  lemma {:induction false} RescaleNegative(u: int, s: int, k: nat)
    requires s + k < 0
    ensures Value(Decimal(u * Pow10(k), s + k)) == Value(Decimal(u, s))
  {
    var i: nat := -(s + k);
    var j: nat := -s;
    assert j == k + i;
    Pow10Add(k, i);
    MulAssoc(u, Pow10(k), Pow10(i));
  }

  /** Appending k zeros to the unscaled value and adding k to the scale keeps the value. */
  lemma {:induction false} Rescale(u: int, s: int, k: nat)
    ensures Value(Decimal(u * Pow10(k), s + k)) == Value(Decimal(u, s))
  {
    if s >= 0 {
      RescaleNonNegative(u, s, k);
    } else if s + k >= 0 {
      RescaleAcrossZero(u, s, k);
    } else {
      RescaleNegative(u, s, k);
    }
  }

  lemma {:induction false} SignOfValue(d: Decimal)
    ensures Value(d) < 0.0 <==> d.unscaled < 0
    ensures Value(d) == 0.0 <==> d.unscaled == 0
  {
    if d.scale >= 0 {
      QuotientSign(d.unscaled as real, Pow10(d.scale) as real);
    } else {
      ProductSign(d.unscaled, Pow10(-d.scale));
    }
  }

  lemma {:induction false} QuotientSign(x: real, p: real)
    requires p > 0.0
    ensures x / p < 0.0 <==> x < 0.0
    ensures x / p == 0.0 <==> x == 0.0
  {
    assert (x / p) * p == x;
  }

  lemma {:induction false} ProductSign(u: int, p: int)
    requires p >= 1
    ensures u * p < 0 <==> u < 0
    ensures u * p == 0 <==> u == 0
  {
    if u < 0 {
      MulMonotone(u, -1, p);
    } else if u > 0 {
      MulMonotone(1, u, p);
    }
  }

  /** One more unit of scale divides the value by ten. */
  lemma {:induction false} ScaleUp(u: int, s: int)
    ensures Value(Decimal(u, s + 1)) == Value(Decimal(u, s)) / 10.0
  {
    if s >= 0 {
      var p := Pow10(s);
      assert Pow10(s + 1) == p * 10;
      MulAsReal(p, 10);
      DivideTwice(u as real, p as real);
    } else {
      var j: nat := -s - 1;
      var v := u * Pow10(j);
      assert u * Pow10(j + 1) == v * 10 by {
        MulAssoc(u, 10, Pow10(j));
      }
      MulAsReal(v, 10);
    }
  }

  lemma {:induction false} DivideTwice(x: real, p: real)
    requires p > 0.0
    ensures x / (p * 10.0) == (x / p) / 10.0
  {
  }

  /** BigDecimal.negate: exact. */
  function Negate(d: Decimal): (r: Decimal)
    ensures Value(r) == -Value(d)
  {
    NegateValue(d.unscaled, d.scale);
    Decimal(-d.unscaled, d.scale)
  }

  lemma {:induction false} NegateValue(u: int, s: int)
    ensures Value(Decimal(-u, s)) == -Value(Decimal(u, s))
  {
    if s < 0 {
      assert -u * Pow10(-s) == -(u * Pow10(-s));
    }
  }

  lemma {:induction false} AddAtScale(x: int, y: int, s: int)
    ensures Value(Decimal(x + y, s)) == Value(Decimal(x, s)) + Value(Decimal(y, s))
  {
    if s >= 0 {
      var p := Pow10(s) as real;
      assert (x + y) as real / p == x as real / p + y as real / p;
    } else {
      assert (x + y) * Pow10(-s) == x * Pow10(-s) + y * Pow10(-s);
    }
  }

  /** The exact sum, at the larger of the two scales. */
  function Add(a: Decimal, b: Decimal): (r: Decimal)
    ensures Value(r) == Value(a) + Value(b)
  {
    var s := Max(a.scale, b.scale);
    var x := a.unscaled * Pow10(s - a.scale);
    var y := b.unscaled * Pow10(s - b.scale);
    Rescale(a.unscaled, a.scale, s - a.scale);
    Rescale(b.unscaled, b.scale, s - b.scale);
    AddAtScale(x, y, s);
    Decimal(x + y, s)
  }

  /** The exact difference: BigDecimal.subtract adds the negated subtrahend. */
  function Subtract(a: Decimal, b: Decimal): (r: Decimal)
    ensures Value(r) == Value(a) - Value(b)
  {
    Add(a, Negate(b))
  }

  lemma {:induction false} QuotientProduct(a: real, b: real, p: real, q: real)
    requires p > 0.0 && q > 0.0
    ensures (a * b) / (p * q) == (a / p) * (b / q)
  {
  }

  lemma {:induction false} IntMulAsReal(x: int, y: int)
    ensures (x * y) as real == x as real * y as real
  {
    if y >= 0 {
      MulAsReal(x, y);
    } else {
      MulAsReal(x, -y);
      assert x * y == -(x * -y);
    }
  }

  lemma {:induction false} MultiplyNonNegativeScales(x: int, s: nat, y: int, t: nat)
    ensures Value(Decimal(x * y, s + t)) == Value(Decimal(x, s)) * Value(Decimal(y, t))
  {
    var p, q := Pow10(s), Pow10(t);
    Pow10Add(s, t);
    IntMulAsReal(x, y);
    MulAsReal(p, q);
    QuotientProduct(x as real, y as real, p as real, q as real);
  }

  /** The scale that brings s up to at least zero. */
  function Lift(s: int): nat {
    if s < 0 then -s else 0
  }

  lemma {:induction false} Rearrange(u: int, p: int, v: int, q: int)
    ensures (u * p) * (v * q) == (u * v) * (p * q)
  {
  }

  /** Two factors whose values are known: the product of the representations has their product value. */
  lemma {:induction false} ProductOfEquals(x: int, s: nat, y: int, t: nat, va: real, vb: real)
    requires Value(Decimal(x, s)) == va && Value(Decimal(y, t)) == vb
    ensures Value(Decimal(x * y, s + t)) == va * vb
  {
    MultiplyNonNegativeScales(x, s, y, t);
    SubstituteFactors(Value(Decimal(x * y, s + t)), Value(Decimal(x, s)), Value(Decimal(y, t)), va, vb);
  }

  /** The same number at a non-negative scale: as many zeros appended to the unscaled value as the
      scale is below zero. */
  function Lifted(d: Decimal): (r: Decimal)
    ensures r.scale >= 0 && Value(r) == Value(d)
  {
    Rescale(d.unscaled, d.scale, Lift(d.scale));
    Decimal(d.unscaled * Pow10(Lift(d.scale)), d.scale + Lift(d.scale))
  }

  /** The product of the two operands once both are lifted to a non-negative scale. */
  lemma {:induction false} MultiplyLifted(a: Decimal, b: Decimal)
    ensures Value(Decimal(Lifted(a).unscaled * Lifted(b).unscaled, Lifted(a).scale + Lifted(b).scale)) ==
            Value(a) * Value(b)
  {
    var p, q := Lifted(a), Lifted(b);
    ProductOfEquals(p.unscaled, p.scale, q.unscaled, q.scale, Value(a), Value(b));
  }

  lemma {:induction false} MultiplyValue(a: Decimal, b: Decimal)
    ensures Value(Decimal(a.unscaled * b.unscaled, a.scale + b.scale)) == Value(a) * Value(b)
  {
    var i, j := Lift(a.scale), Lift(b.scale);
    var w := a.unscaled * b.unscaled;
    Pow10Add(i, j);
    Rearrange(a.unscaled, Pow10(i), b.unscaled, Pow10(j));
    Rescale(w, a.scale + b.scale, i + j);
    MultiplyLifted(a, b);
    assert Decimal(w * Pow10(i + j), a.scale + b.scale + (i + j)) ==
           Decimal(Lifted(a).unscaled * Lifted(b).unscaled, Lifted(a).scale + Lifted(b).scale);
  }

  lemma {:induction false} SubstituteFactors(p: real, q: real, r: real, q': real, r': real)
    requires p == q * r && q == q' && r == r'
    ensures p == q' * r'
  {
  }

  /** The exact product: unscaled values multiply, scales add. */
  function Multiply(a: Decimal, b: Decimal): (r: Decimal)
    ensures Value(r) == Value(a) * Value(b)
  {
    MultiplyValue(a, b);
    Decimal(a.unscaled * b.unscaled, a.scale + b.scale)
  }

  /** r is num / (den × p) rounded to a whole number, a tie going to the larger magnitude (HALF_UP). */
  ghost predicate HalfUp(num: int, den: int, p: int, r: int) {
    -(p * den) < 2 * (r * p * den - num) <= p * den
  }

  lemma {:induction false} DivBounds(x: int, m: int)
    requires m > 0
    ensures m * (x / m) <= x < m * (x / m) + m
  {
  }

  lemma {:induction false} MulMonotone(a: int, b: int, m: int)
    requires a <= b && m >= 0
    ensures m * a <= m * b
  {
  }

  lemma {:induction false} DivAtLeast(x: int, m: int, b: int)
    requires m > 0 && m * b <= x
    ensures b <= x / m
  {
    DivBounds(x, m);
    if x / m < b {
      MulMonotone(x / m + 1, b, m);
    }
  }

  lemma {:induction false} DivAtMost(x: int, m: int, b: int)
    requires m > 0 && x < m * (b + 1)
    ensures x / m <= b
  {
    DivBounds(x, m);
    if x / m > b {
      MulMonotone(b + 1, x / m, m);
    }
  }

  /** Round half-up of n / p for p >= 1, computed as floor((2n + p) / 2p). */
  lemma {:induction false} RoundingStep(n: nat, p: nat)
    requires p >= 1
    ensures var q := (2 * n + p) / (2 * p); q >= 0 && HalfUp(n, 1, p, q)
  {
    var q := (2 * n + p) / (2 * p);
    DivBounds(2 * n + p, 2 * p);
    assert 2 * p * q <= 2 * n + p < 2 * p * q + 2 * p;
  }

  /** A MathContext(precision, HALF_UP) applied to an exact result: an unscaled value of at most
      `precision` digits is kept as it is; otherwise the surplus low digits are dropped and the kept
      part rounded half-up. */
  function Round(d: Decimal, precision: nat): (r: Decimal)
    requires precision >= 1
    ensures NumDigits(Abs(d.unscaled)) <= precision ==> r == d
    ensures NumDigits(Abs(d.unscaled)) > precision ==>
      var k := NumDigits(Abs(d.unscaled)) - precision;
      r.scale == d.scale - k &&
      (r.unscaled < 0 <==> d.unscaled < 0) &&
      Pow10(precision - 1) <= Abs(r.unscaled) <= Pow10(precision) &&
      HalfUp(Abs(d.unscaled), 1, Pow10(k), Abs(r.unscaled))
  {
    var n := Abs(d.unscaled);
    var digits := NumDigits(n);
    if digits <= precision then d
    else
      var k := digits - precision;
      var p := Pow10(k);
      var q := (2 * n + p) / (2 * p);
      RoundingStep(n, p);
      RoundedDigits(n, k, precision);
      Decimal(if d.unscaled < 0 then -q else q, d.scale - k)
  }

  lemma {:induction false} RoundedAtLeast(n: int, p: int, low: int)
    requires p >= 1 && low * p <= n
    ensures low <= (2 * n + p) / (2 * p)
  {
    assert (2 * p) * low == 2 * (low * p);
    DivAtLeast(2 * n + p, 2 * p, low);
  }

  lemma {:induction false} RoundedAtMost(n: int, p: int, high: int)
    requires p >= 1 && n < high * p
    ensures (2 * n + p) / (2 * p) <= high
  {
    assert (2 * p) * (high + 1) == 2 * (high * p) + 2 * p;
    DivAtMost(2 * n + p, 2 * p, high);
  }

  /** Rounding away k digits from a value of t + k digits leaves t digits (or 10^t after a carry). */
  lemma {:induction false} RoundedDigits(n: nat, k: nat, t: nat)
    requires t >= 1 && Pow10(t - 1 + k) <= n < Pow10(t + k)
    ensures var p := Pow10(k); Pow10(t - 1) <= (2 * n + p) / (2 * p) <= Pow10(t)
  {
    Pow10Add(t - 1, k);
    Pow10Add(t, k);
    RoundedAtLeast(n, Pow10(k), Pow10(t - 1));
    RoundedAtMost(n, Pow10(k), Pow10(t));
  }

  /** How far the dividend is scaled up so that the truncated quotient has more than `precision`
      digits before it is rounded. */
  function QuotientShift(divisor: nat, precision: nat): nat {
    precision + NumDigits(divisor)
  }

  /** `r` is the quotient a / b rounded half-up to `precision` significant digits. In units of
      10^-(k + a.scale - b.scale), k being QuotientShift, the exact magnitude is |a| × 10^k / |b|.
      It has `precision + dropped` digits before the point, and rounding drops the last `dropped` of
      them: the result's sign is the product of the signs, and its magnitude keeps `precision`
      digits (or is 10^precision after a carry). */
  ghost predicate RoundedQuotient(a: Decimal, b: Decimal, precision: nat, r: Decimal)
    requires precision >= 1
  {
    var n, m := Abs(a.unscaled), Abs(b.unscaled);
    var k := QuotientShift(m, precision);
    var dropped := k + a.scale - b.scale - r.scale;
    dropped >= 1 &&
    m * Pow10(precision - 1 + dropped) <= n * Pow10(k) < m * Pow10(precision + dropped) &&
    (r.unscaled < 0 <==> (a.unscaled < 0) != (b.unscaled < 0)) &&
    Pow10(precision - 1) <= Abs(r.unscaled) <= Pow10(precision) &&
    HalfUp(n * Pow10(k), m, Pow10(dropped), Abs(r.unscaled))
  }

  /** BigDecimal.divide(divisor, MathContext(precision, HALF_UP)) by a non-zero divisor: zero for a
      zero dividend, otherwise the exact quotient rounded half-up to `precision` significant digits,
      which `RoundedQuotientUnique` shows to be one number only. */
  function Divide(a: Decimal, b: Decimal, precision: nat): (r: Decimal)
    requires b.unscaled != 0 && precision >= 1
    ensures a.unscaled == 0 ==> r.unscaled == 0
    ensures a.unscaled != 0 ==> RoundedQuotient(a, b, precision, r)
  {
    if a.unscaled == 0 then Decimal(0, a.scale - b.scale)
    else
      var n := Abs(a.unscaled);
      var m := Abs(b.unscaled);
      var k := QuotientShift(m, precision);
      var e := n * Pow10(k);
      var q := e / m;
      ScaledDividend(n, m, precision);
      ExceedsDigits(e, m, precision);
      var t := Round(Decimal(q, k + a.scale - b.scale), precision);
      var p := Pow10(NumDigits(q) - precision);
      Pow10Even(NumDigits(q) - precision);
      StickyRounding(e, m, q, p, Abs(t.unscaled));
      QuotientDigits(e, m, NumDigits(q));
      if (a.unscaled < 0) != (b.unscaled < 0) then Decimal(-t.unscaled, t.scale) else t
  }

  /** A truncated quotient of j >= 2 digits places the exact quotient between 10^(j-1) and 10^j. */
  lemma {:induction false} QuotientDigits(e: nat, m: nat, j: nat)
    requires m >= 1 && j >= 2 && NumDigits(e / m) == j
    ensures m * Pow10(j - 1) <= e < m * Pow10(j)
  {
    var q := e / m;
    var lo, hi := Pow10(j - 1), Pow10(j);
    assert lo <= q < hi;
    assert m * q <= e < m * q + m by { DivBounds(e, m); }
    assert m * lo <= m * q by { MulMonotone(lo, q, m); }
    assert m * q + m <= m * hi by {
      MulMonotone(q + 1, hi, m);
      assert m * (q + 1) == m * q + m;
    }
  }

  /** At most one whole number is num / den rounded half-up. */
  lemma {:induction false} HalfUpUnique(num: int, den: int, x: int, y: int)
    requires den >= 1 && HalfUp(num, 1, den, x) && HalfUp(num, 1, den, y)
    ensures x == y
  {
    if x < y {
      MulMonotone(x + 1, y, den);
    } else if y < x {
      MulMonotone(y + 1, x, den);
    }
  }

  /** The number of digits the exact quotient has, and so how many rounding drops, is fixed. */
  lemma {:induction false} DroppedUnique(e: int, m: int, t: nat, d1: nat, d2: nat)
    requires m >= 1 && t >= 1
    requires m * Pow10(t - 1 + d1) <= e < m * Pow10(t + d1)
    requires m * Pow10(t - 1 + d2) <= e < m * Pow10(t + d2)
    ensures d1 == d2
  {
    if d1 < d2 {
      if t + d1 < t - 1 + d2 { Pow10Monotone(t + d1, t - 1 + d2); }
      MulMonotone(Pow10(t + d1), Pow10(t - 1 + d2), m);
    } else if d2 < d1 {
      if t + d2 < t - 1 + d1 { Pow10Monotone(t + d2, t - 1 + d1); }
      MulMonotone(Pow10(t + d2), Pow10(t - 1 + d1), m);
    }
  }

  /** `RoundedQuotient` admits one result only, so `Divide`'s contract fixes it exactly. */
  lemma {:induction false} RoundedQuotientUnique(a: Decimal, b: Decimal, precision: nat, r: Decimal, r': Decimal)
    requires precision >= 1
    requires RoundedQuotient(a, b, precision, r) && RoundedQuotient(a, b, precision, r')
    ensures r == r'
  {
    var n, m := Abs(a.unscaled), Abs(b.unscaled);
    var k := QuotientShift(m, precision);
    var e := n * Pow10(k);
    var d1 := k + a.scale - b.scale - r.scale;
    var d2 := k + a.scale - b.scale - r'.scale;
    assert m >= 1;
    DroppedUnique(e, m, precision, d1, d2);
    var p := Pow10(d1);
    assert HalfUp(e, 1, p * m, Abs(r.unscaled)) && HalfUp(e, 1, p * m, Abs(r'.unscaled)) by {
      MulAssoc(Abs(r.unscaled), p, m);
      MulAssoc(Abs(r'.unscaled), p, m);
    }
    assert p * m >= 1 by { MulMonotone(1, p, m); }
    HalfUpUnique(e, p * m, Abs(r.unscaled), Abs(r'.unscaled));
  }

  lemma {:induction false} DivideDetermined(a: Decimal, b: Decimal, precision: nat, r: Decimal)
    requires b.unscaled != 0 && precision >= 1 && a.unscaled != 0
    requires RoundedQuotient(a, b, precision, r)
    ensures r == Divide(a, b, precision)
  {
    RoundedQuotientUnique(a, b, precision, r, Divide(a, b, precision));
  }

  lemma {:induction false} Pow10Even(j: nat)
    requires j >= 1
    ensures Pow10(j) >= 2 && Pow10(j) % 2 == 0
  {
    var half := 5 * Pow10(j - 1);
    assert Pow10(j) == 2 * half;
  }

  /** The scaled quotient has more than `precision` digits, so rounding always drops at least one. */
  lemma {:induction false} ExceedsDigits(e: nat, m: nat, precision: nat)
    requires m >= 1 && m * Pow10(precision) <= e
    ensures NumDigits(e / m) > precision
  {
    DivAtLeast(e, m, Pow10(precision));
    if NumDigits(e / m) < precision {
      Pow10Monotone(NumDigits(e / m), precision);
    }
  }

  lemma {:induction false} ScaledDividend(n: nat, m: nat, precision: nat)
    requires n >= 1 && m >= 1
    ensures m * Pow10(precision) <= n * Pow10(QuotientShift(m, precision))
  {
    Pow10Add(precision, NumDigits(m));
    CoveringProduct(n, m, Pow10(precision), Pow10(NumDigits(m)));
  }

  lemma {:induction false} CoveringProduct(n: int, m: int, high: int, bound: int)
    requires n >= 1 && 0 <= m < bound && high >= 0
    ensures m * high <= n * (high * bound)
  {
    MulMonotone(m, bound, high);
    MulMonotone(1, n, high * bound);
  }

  /** Rounding the truncated quotient e / m at an even p gives the same answer as rounding the exact
      one: the discarded fraction below one unit cannot carry the dropped digits across one half. */
  lemma {:induction false} StickyRounding(e: nat, m: nat, q: nat, p: nat, r: nat)
    requires m >= 1 && q == e / m && p >= 2 && p % 2 == 0
    requires HalfUp(q, 1, p, r)
    ensures HalfUp(e, m, p, r)
  {
    DivBounds(e, m);
    var x: int := r * p - q;
    assert -(p as int) < 2 * x <= p;
    assert 2 * x >= -(p as int) + 2;
    MulMonotone(2 * x, p, m);
    MulMonotone(-(p as int), 2 * x - 2, m);
    assert r * p * m - e == m * x + (m * q - e);
  }

  /** BigDecimal.divide(new BigDecimal("100")) without a MathContext: the exact quotient, which
      always exists for this divisor; the same unscaled value two places further right. */
  function DivideByHundred(d: Decimal): (r: Decimal)
    ensures Value(r) == Value(d) / 100.0
  {
    ScaleUp(d.unscaled, d.scale);
    ScaleUp(d.unscaled, d.scale + 1);
    Decimal(d.unscaled, d.scale + 2)
  }
}
