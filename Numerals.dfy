/** Decimal numerals: the BigDecimal(String) constructor on the characters the calculator produces,
    and the canonical text `stripTrailingZeros().toPlainString()` that the calculator writes back into
    its buffer after `calculate`, `negate` and `percentage`. */
module Numerals {
  import opened Chars
  import opened Outcomes
  import opened Decimals

  /** The number a run of decimal digits spells, most significant first. */
  function DigitsValue(s: string): nat
    requires AllDigits(s)
  {
    if s == [] then 0 else 10 * DigitsValue(s[..|s| - 1]) + DigitValue(s[|s| - 1])
  }

  lemma {:induction false} DigitsValueConcat(a: string, b: string)
    requires AllDigits(a) && AllDigits(b)
    ensures AllDigits(a + b)
    ensures DigitsValue(a + b) == DigitsValue(a) * Pow10(|b|) + DigitsValue(b)
  {
    AllDigitsConcat(a, b);
    if b == [] {
      assert a + b == a;
    } else {
      var b' := b[..|b| - 1];
      assert (a + b)[..|a + b| - 1] == a + b';
      assert (a + b)[|a + b| - 1] == b[|b| - 1];
      DigitsValueConcat(a, b');
      calc {
        DigitsValue(a + b);
        10 * DigitsValue(a + b') + DigitValue(b[|b| - 1]);
        10 * (DigitsValue(a) * Pow10(|b'|) + DigitsValue(b')) + DigitValue(b[|b| - 1]);
        { ShiftDigit(DigitsValue(a), Pow10(|b'|), DigitsValue(b'), DigitValue(b[|b| - 1])); }
        DigitsValue(a) * (10 * Pow10(|b'|)) + (10 * DigitsValue(b') + DigitValue(b[|b| - 1]));
        DigitsValue(a) * Pow10(|b|) + DigitsValue(b);
      }
    }
  }

  lemma {:induction false} AllDigitsConcat(a: string, b: string)
    requires AllDigits(a) && AllDigits(b)
    ensures AllDigits(a + b)
  {
    forall i | 0 <= i < |a + b| ensures IsDigit((a + b)[i]) {
      if i >= |a| {
        assert (a + b)[i] == b[i - |a|];
      }
    }
  }

  lemma {:induction false} ShiftDigit(x: int, p: int, y: int, d: int)
    ensures 10 * (x * p + y) + d == x * (10 * p) + (10 * y + d)
  {
  }

  function Zeros(k: nat): (z: string)
    ensures |z| == k && AllDigits(z)
  {
    seq(k, _ => '0')
  }

  lemma {:induction false} ZerosValue(k: nat)
    ensures DigitsValue(Zeros(k)) == 0
  {
    if k > 0 {
      assert Zeros(k)[..k - 1] == Zeros(k - 1);
      ZerosValue(k - 1);
    }
  }

  /** Leading zeros do not change the number a digit run spells. */
  lemma {:induction false} LeadingZeros(k: nat, d: string)
    requires AllDigits(d)
    ensures AllDigits(Zeros(k) + d) && DigitsValue(Zeros(k) + d) == DigitsValue(d)
  {
    DigitsValueConcat(Zeros(k), d);
    ZerosValue(k);
  }

  /** BigInteger.toString of a non-negative number: its decimal digits without leading zeros. */
  function NatDigits(n: nat): (r: string)
    ensures AllDigits(r) && |r| == NumDigits(n)
    ensures DigitsValue(r) == n
    ensures r[0] != '0' || n == 0
    ensures n % 10 != 0 ==> r[|r| - 1] != '0'
  {
    if n < 10 then [DigitChar(n)]
    else
      var r := NatDigits(n / 10) + [DigitChar(n % 10)];
      assert r[..|r| - 1] == NatDigits(n / 10);
      r
  }

  /** The position of the first '.', or the length when there is none. */
  function IndexOfDot(t: string): (i: nat)
    ensures i <= |t|
  {
    DotFrom(t, 0)
  }

  function DotFrom(t: string, start: nat): (i: nat)
    requires start <= |t|
    ensures start <= i <= |t|
    decreases |t| - start
  {
    if start == |t| || t[start] == '.' then start else DotFrom(t, start + 1)
  }

  /** IndexOfDot finds the first '.': there is one there, unless it is the end, and none before. */
  lemma {:induction false} IndexOfDotSpec(t: string)
    ensures var i := IndexOfDot(t);
      (i < |t| ==> t[i] == '.') && forall j :: 0 <= j < i ==> t[j] != '.'
  {
    DotFromSpec(t, 0);
  }

  lemma {:induction false} DotFromSpec(t: string, start: nat)
    requires start <= |t|
    ensures var i := DotFrom(t, start);
      (i < |t| ==> t[i] == '.') && forall j :: start <= j < i ==> t[j] != '.'
    decreases |t| - start
  {
    if start < |t| && t[start] != '.' {
      DotFromSpec(t, start + 1);
    }
  }

  predicate IsSign(c: char) {
    c == '+' || c == '-'
  }

  /** The text after an optional leading sign. */
  function Unsigned(s: string): string {
    if |s| > 0 && IsSign(s[0]) then s[1..] else s
  }

  /** The numerals new BigDecimal(String) accepts without a sign or an exponent: digits with at most
      one decimal point among them and at least one digit. */
  predicate IsUnsignedNumeral(t: string) {
    (forall i :: 0 <= i < |t| ==> IsDigit(t[i]) || t[i] == '.') &&
    (forall i, j :: 0 <= i < j < |t| && t[i] == '.' ==> t[j] != '.') &&
    (exists i :: 0 <= i < |t| && IsDigit(t[i]))
  }

  /** An unsigned numeral after an optional sign. */
  predicate IsNumeral(s: string) {
    IsUnsignedNumeral(Unsigned(s))
  }

  /** new BigDecimal(String) on a text without a sign: the digits before and after the point make
      up the unscaled value, and the number of digits after it is the scale. */
  function ParseUnsigned(t: string): (r: Option<Decimal>)
    ensures r.Some? ==> r.value.unscaled >= 0 && r.value.scale >= 0
  {
    var dot := IndexOfDot(t);
    var whole := t[..dot];
    var fraction := if dot < |t| then t[dot + 1..] else [];
    if AllDigits(whole) && AllDigits(fraction) && |whole| + |fraction| >= 1 then
      Some(Decimal(DigitsValue(whole + fraction), |fraction|))
    else None
  }

  /** new BigDecimal(String) accepts exactly the numerals. */
  lemma {:induction false} ParseAccepts(s: string)
    ensures ParseDecimal(s).Some? <==> IsNumeral(s)
  {
    SplitAtDot(Unsigned(s));
  }

  lemma {:induction false} SplitAtDot(t: string)
    ensures var dot := IndexOfDot(t);
      var whole := t[..dot];
      var fraction := if dot < |t| then t[dot + 1..] else [];
      AllDigits(whole) && AllDigits(fraction) && |whole| + |fraction| >= 1 <==> IsUnsignedNumeral(t)
  {
    IndexOfDotSpec(t);
    var dot := IndexOfDot(t);
    var whole := t[..dot];
    var fraction := if dot < |t| then t[dot + 1..] else [];
    if IsUnsignedNumeral(t) {
      assert AllDigits(whole);
      assert AllDigits(fraction) by {
        forall i | 0 <= i < |fraction| ensures IsDigit(fraction[i]) {
          assert fraction[i] == t[dot + 1 + i];
        }
      }
      var k :| 0 <= k < |t| && IsDigit(t[k]);
      if k < dot {
        assert whole[k] == t[k];
      } else {
        assert fraction[k - dot - 1] == t[k];
      }
    }
    if AllDigits(whole) && AllDigits(fraction) && |whole| + |fraction| >= 1 {
      forall i | 0 <= i < |t| ensures IsDigit(t[i]) || t[i] == '.' {
        if i < dot {
          assert t[i] == whole[i];
        } else if i > dot {
          assert t[i] == fraction[i - dot - 1];
        }
      }
      forall i, j | 0 <= i < j < |t| && t[i] == '.' ensures t[j] != '.' {
        assert t[j] == fraction[j - dot - 1];
      }
      if |whole| > 0 {
        assert IsDigit(t[0]);
      } else {
        assert IsDigit(t[dot + 1]);
      }
    }
  }

  /** new BigDecimal(String): a leading '-' negates, a leading '+' is dropped, and anything but
      a numeral is a NumberFormatException (None). */
  function ParseDecimal(s: string): (r: Option<Decimal>)
    ensures r.Some? ==> r.value.scale >= 0
    ensures r.Some? && |s| > 0 && s[0] == '-' ==> r.value.unscaled <= 0
    ensures r.Some? && (|s| == 0 || s[0] != '-') ==> r.value.unscaled >= 0
  {
    match ParseUnsigned(Unsigned(s))
    case None => None
    case Some(d) => if |s| > 0 && s[0] == '-' then Some(Negate(d)) else Some(d)
  }

  /** BigDecimal.stripTrailingZeros: the same number with the fewest digits, zero becoming 0 at
      scale 0. */
  function StripTrailingZeros(d: Decimal): (r: Decimal)
    ensures Value(r) == Value(d)
    ensures r.unscaled == 0 <==> d.unscaled == 0
    ensures r.unscaled == 0 ==> r.scale == 0
    ensures r.unscaled % 10 != 0 || r.unscaled == 0
    decreases Abs(d.unscaled)
  {
    if d.unscaled == 0 then
      SignOfValue(d);
      SignOfValue(Decimal(0, 0));
      Decimal(0, 0)
    else if d.unscaled % 10 == 0 then
      DropZero(d);
      StripTrailingZeros(Decimal(d.unscaled / 10, d.scale - 1))
    else d
  }

  /** Stripping a number whose unscaled value is ten times `q` goes on from `q` one place up. */
  lemma {:induction false} StripStep(d: Decimal, q: int)
    requires d.unscaled == 10 * q && q != 0
    ensures StripTrailingZeros(d) == StripTrailingZeros(Decimal(q, d.scale - 1))
  {
    assert d.unscaled != 0 && d.unscaled % 10 == 0 && d.unscaled / 10 == q;
  }

  /** Dropping one trailing zero of the unscaled value and one place of scale keeps the number. */
  lemma {:induction false} DropZero(d: Decimal)
    requires d.unscaled != 0 && d.unscaled % 10 == 0
    ensures d.unscaled / 10 != 0 && Abs(d.unscaled / 10) < Abs(d.unscaled)
    ensures Value(Decimal(d.unscaled / 10, d.scale - 1)) == Value(d)
  {
    var q := d.unscaled / 10;
    assert q * 10 == d.unscaled;
    assert Pow10(1) == 10;
    Rescale(q, d.scale - 1, 1);
  }

  /** BigDecimal.toPlainString: a '-' for a negative number, then the digits of the unscaled value
      laid out by PlainMagnitude; never an exponent. */
  function PlainString(d: Decimal): string {
    (if d.unscaled < 0 then "-" else "") + PlainMagnitude(Abs(d.unscaled), d.scale)
  }

  /** The unsigned part of toPlainString: the digits with the point `scale` places from the right,
      padded on the left with "0." and zeros when there are too few digits, or followed by -scale
      zeros when the scale is negative (a zero then prints as "0"). */
  function PlainMagnitude(n: nat, scale: int): (t: string)
    ensures |t| > 0 && IsDigit(t[0])
  {
    var digits := NatDigits(n);
    if scale == 0 then digits
    else if scale < 0 then (if n == 0 then "0" else digits + Zeros(-scale))
    else PointLayout(digits, scale)
  }

  /** Digits with a point `scale` places from the right; when there are not more than `scale` digits
      they are first padded with zeros on the left so that exactly one "0" precedes the point. */
  function PointLayout(digits: string, scale: nat): string {
    var padded := Padded(digits, scale);
    padded[..|padded| - scale] + "." + padded[|padded| - scale..]
  }

  function Padded(digits: string, scale: nat): (padded: string)
    ensures |padded| > scale
  {
    if |digits| > scale then digits else Zeros(scale + 1 - |digits|) + digits
  }

  /** The text the calculator shows for a number: stripTrailingZeros().toPlainString(). */
  function Canonical(d: Decimal): string {
    PlainString(StripTrailingZeros(d))
  }

  /** A plain string reads back as the number it was printed from. */
  lemma {:induction false} PlainRoundTrip(d: Decimal)
    ensures ParseDecimal(PlainString(d)).Some?
    ensures Value(ParseDecimal(PlainString(d)).value) == Value(d)
  {
    var n := Abs(d.unscaled);
    MagnitudeRoundTrip(n, d.scale);
    SignedRoundTrip(d, PlainMagnitude(n, d.scale), PlainString(d));
  }

  /** A sign in front of a magnitude that reads back correctly reads back as the signed number. */
  lemma {:induction false} SignedRoundTrip(d: Decimal, m: string, t: string)
    requires |m| > 0 && IsDigit(m[0])
    requires ParseUnsigned(m).Some? && Value(ParseUnsigned(m).value) == Value(Decimal(Abs(d.unscaled), d.scale))
    requires t == if d.unscaled < 0 then "-" + m else m
    ensures ParseDecimal(t).Some? && Value(ParseDecimal(t).value) == Value(d)
  {
    var e := ParseUnsigned(m).value;
    if d.unscaled < 0 {
      assert ParseDecimal(t) == Some(Negate(e)) by {
        SignedParse(m);
      }
      NegatedRoundTrip(e, Abs(d.unscaled), d.scale);
    } else {
      assert ParseDecimal(t) == Some(e) by {
        SignedParse(m);
      }
      assert d == Decimal(Abs(d.unscaled), d.scale);
    }
  }

  lemma {:induction false} NegatedRoundTrip(e: Decimal, n: nat, scale: int)
    requires Value(e) == Value(Decimal(n, scale))
    ensures Value(Negate(e)) == Value(Decimal(-(n as int), scale))
  {
    NegateValue(n, scale);
  }

  /** A numeral that starts with a digit parses without a sign, and with a leading '-' negated. */
  lemma {:induction false} SignedParse(m: string)
    requires |m| > 0 && IsDigit(m[0])
    ensures ParseDecimal(m) == ParseUnsigned(m)
    ensures ParseDecimal("-" + m) == match ParseUnsigned(m)
      case None => None
      case Some(e) => Some(Negate(e))
  {
    assert Unsigned(m) == m;
    assert Unsigned("-" + m) == m;
  }

  lemma {:induction false} MagnitudeRoundTrip(n: nat, scale: int)
    ensures ParseUnsigned(PlainMagnitude(n, scale)).Some?
    ensures Value(ParseUnsigned(PlainMagnitude(n, scale)).value) == Value(Decimal(n, scale))
  {
    if scale == 0 {
      WholeRoundTrip(NatDigits(n));
    } else if scale < 0 {
      ZerosRoundTrip(n, scale);
    } else {
      PointRoundTrip(n, scale);
    }
  }

  lemma {:induction false} ZerosRoundTrip(n: nat, scale: int)
    requires scale < 0
    ensures ParseUnsigned(PlainMagnitude(n, scale)).Some?
    ensures Value(ParseUnsigned(PlainMagnitude(n, scale)).value) == Value(Decimal(n, scale))
  {
    var k: nat := -scale;
    if n == 0 {
      assert PlainMagnitude(n, scale) == "0";
      ZeroRoundTrip(scale);
    } else {
      assert PlainMagnitude(n, scale) == NatDigits(n) + Zeros(k);
      ShiftedRoundTrip(NatDigits(n), k);
    }
  }

  /** Zero at a negative scale prints as "0", which reads back as zero. */
  lemma {:induction false} ZeroRoundTrip(scale: int)
    ensures ParseUnsigned("0") == Some(Decimal(0, 0))
    ensures Value(Decimal(0, scale)) == Value(Decimal(0, 0))
  {
    WholeRoundTrip("0");
    SignOfValue(Decimal(0, scale));
    SignOfValue(Decimal(0, 0));
  }

  /** Digits followed by k zeros read as the digits' number at scale -k. */
  lemma {:induction false} ShiftedRoundTrip(digits: string, k: nat)
    requires AllDigits(digits) && |digits| > 0
    ensures ParseUnsigned(digits + Zeros(k)).Some?
    ensures Value(ParseUnsigned(digits + Zeros(k)).value) == Value(Decimal(DigitsValue(digits), -(k as int)))
  {
    DigitsValueConcat(digits, Zeros(k));
    ZerosValue(k);
    WholeRoundTrip(digits + Zeros(k));
    Rescale(DigitsValue(digits), -(k as int), k);
  }

  lemma {:induction false} PointRoundTrip(n: nat, scale: int)
    requires scale > 0
    ensures ParseUnsigned(PlainMagnitude(n, scale)) == Some(Decimal(n, scale))
  {
    LayoutRoundTrip(NatDigits(n), scale);
  }

  lemma {:induction false} LayoutRoundTrip(digits: string, scale: nat)
    requires AllDigits(digits)
    ensures ParseUnsigned(PointLayout(digits, scale)) == Some(Decimal(DigitsValue(digits), scale))
  {
    var padded := Padded(digits, scale);
    var cut := |padded| - scale;
    assert PointLayout(digits, scale) == padded[..cut] + "." + padded[cut..];
    PaddedValue(digits, scale);
    FractionRoundTrip(padded, cut);
  }

  /** Padding on the left with zeros keeps the digits and the number they spell. */
  lemma {:induction false} PaddedValue(digits: string, scale: nat)
    requires AllDigits(digits)
    ensures AllDigits(Padded(digits, scale)) && DigitsValue(Padded(digits, scale)) == DigitsValue(digits)
  {
    if |digits| <= scale {
      LeadingZeros(scale + 1 - |digits|, digits);
    }
  }

  /** Padding on the left keeps the last digit. */
  lemma {:induction false} PaddedLast(digits: string, scale: nat)
    requires |digits| > 0
    ensures Padded(digits, scale)[|Padded(digits, scale)| - 1] == digits[|digits| - 1]
  {
  }

  /** Digits without a point read as a whole number. */
  lemma {:induction false} WholeRoundTrip(t: string)
    requires AllDigits(t) && |t| > 0
    ensures ParseUnsigned(t) == Some(Decimal(DigitsValue(t), 0))
  {
    IndexOfDotSpec(t);
    assert IndexOfDot(t) == |t|;
    assert t[..|t|] + [] == t;
  }

  /** Digits with a point inserted `cut` places from the left read as the digits, scaled by the number
      of digits after the point. */
  lemma {:induction false} FractionRoundTrip(digits: string, cut: nat)
    requires AllDigits(digits) && 0 < cut <= |digits|
    ensures ParseUnsigned(digits[..cut] + "." + digits[cut..]) == Some(Decimal(DigitsValue(digits), |digits| - cut))
  {
    ReadAtPoint(digits[..cut], digits[cut..]);
    SplitValue(digits, cut);
  }

  /** Cutting a digit run in two and joining the halves spells the same number. */
  lemma {:induction false} SplitValue(digits: string, cut: nat)
    requires AllDigits(digits) && cut <= |digits|
    ensures AllDigits(digits[..cut] + digits[cut..])
    ensures DigitsValue(digits[..cut] + digits[cut..]) == DigitsValue(digits)
  {
    assert digits[..cut] + digits[cut..] == digits;
  }

  /** Digits, a point and digits read as all the digits together, scaled by those after the point. */
  lemma {:induction false} ReadAtPoint(w: string, f: string)
    requires AllDigits(w) && AllDigits(f) && |w| > 0
    ensures AllDigits(w + f)
    ensures ParseUnsigned(w + "." + f) == Some(Decimal(DigitsValue(w + f), |f|))
  {
    var t := w + "." + f;
    AllDigitsConcat(w, f);
    PointAt(w, f);
    assert t[..|w|] == w && t[|w| + 1..] == f;
  }

  lemma {:induction false} PointAt(w: string, f: string)
    requires AllDigits(w)
    ensures IndexOfDot(w + "." + f) == |w|
  {
    var t := w + "." + f;
    IndexOfDotSpec(t);
    assert t[|w|] == '.';
    assert forall j :: 0 <= j < |w| ==> t[j] == w[j];
  }

  /** A canonical numeral reads back as the number it was printed from. */
  lemma {:induction false} CanonicalRoundTrip(d: Decimal)
    ensures ParseDecimal(Canonical(d)).Some?
    ensures Value(ParseDecimal(Canonical(d)).value) == Value(d)
  {
    PlainRoundTrip(StripTrailingZeros(d));
  }

  /** The unsigned part of a canonical text: a numeral that starts and ends with a digit, has no
      leading zero unless its whole part is the single digit 0 and, when it has a point, does not
      end in '0'. */
  predicate CanonicalMagnitude(m: string) {
    IsUnsignedNumeral(m) && |m| > 0 && IsDigit(m[0]) && IsDigit(m[|m| - 1]) &&
    (m[0] == '0' ==> |m| == 1 || m[1] == '.') &&
    ('.' in m ==> m[|m| - 1] != '0')
  }

  /** The shape of every text `stripTrailingZeros().toPlainString()` produces: an optional '-' and a
      canonical magnitude; no exponent, no trailing point, no leading or trailing fractional zero,
      and no negative zero. */
  predicate CanonicalForm(t: string) {
    |t| > 0 && CanonicalMagnitude(if t[0] == '-' then t[1..] else t) && t != "-0"
  }

  /** The form leaves out leading zeros and a negative zero. */
  lemma {:induction false} CanonicalFormExcludes()
    ensures !CanonicalForm("05") && !CanonicalForm("007.5") && !CanonicalForm("-0")
    ensures CanonicalForm("0") && CanonicalForm("0.5") && CanonicalForm("-7.25")
  {
    assert "0.5"[1..] == ".5";
    assert "-7.25"[1..] == "7.25";
  }

  /** Canonical text has the canonical form, starts with '-' exactly for negative numbers, and is
      "0" exactly for zero. */
  lemma {:induction false} CanonicalShape(d: Decimal)
    ensures CanonicalForm(Canonical(d))
    ensures Canonical(d)[0] == '-' <==> Value(d) < 0.0
    ensures Canonical(d) == "0" <==> Value(d) == 0.0
  {
    var r := StripTrailingZeros(d);
    SignOfValue(r);
    StrippedShape(r);
    ZeroText(r);
  }

  lemma {:induction false} StrippedShape(r: Decimal)
    requires r.unscaled % 10 != 0 || r.unscaled == 0
    requires r.unscaled == 0 ==> r.scale == 0
    ensures CanonicalForm(PlainString(r))
    ensures PlainString(r)[0] == '-' <==> r.unscaled < 0
  {
    var n := Abs(r.unscaled);
    var m := PlainMagnitude(n, r.scale);
    assert n % 10 != 0 || r.scale == 0;
    MagnitudeShape(n, r.scale);
    if r.unscaled < 0 {
      assert PlainString(r) == "-" + m;
      assert ("-" + m)[1..] == m;
      MagnitudeNotZero(n, r.scale);
    } else {
      assert PlainString(r) == m;
    }
  }

  /** A number with no trailing zeros prints as "0" exactly when it is zero. */
  lemma {:induction false} ZeroText(r: Decimal)
    requires r.unscaled == 0 ==> r.scale == 0
    ensures PlainString(r) == "0" <==> r.unscaled == 0
  {
    if r.unscaled == 0 {
      assert NatDigits(0) == "0";
    } else if PlainString(r) == "0" {
      WholeRoundTrip("0");
      SignOfValue(r);
      SignOfValue(Decimal(0, 0));
      PlainRoundTrip(r);
    }
  }

  /** A magnitude other than zero does not print as "0". */
  lemma {:induction false} MagnitudeNotZero(n: nat, scale: int)
    requires n != 0
    ensures PlainMagnitude(n, scale) != "0"
  {
  }

  lemma {:induction false} MagnitudeShape(n: nat, scale: int)
    requires n % 10 != 0 || scale <= 0
    ensures CanonicalMagnitude(PlainMagnitude(n, scale))
  {
    if scale <= 0 {
      WholeMagnitudeShape(n, scale);
    } else {
      PointMagnitudeShape(n, scale);
    }
  }

  lemma {:induction false} WholeMagnitudeShape(n: nat, scale: int)
    requires scale <= 0
    ensures CanonicalMagnitude(PlainMagnitude(n, scale))
  {
    var digits := NatDigits(n);
    if scale == 0 || n == 0 {
      WholeShape(digits);
      WholeShape("0");
    } else {
      DigitsValueConcat(digits, Zeros(-scale));
      assert (digits + Zeros(-scale))[0] == digits[0];
      WholeShape(digits + Zeros(-scale));
    }
  }

  lemma {:induction false} PointMagnitudeShape(n: nat, scale: int)
    requires scale > 0 && n % 10 != 0
    ensures CanonicalMagnitude(PlainMagnitude(n, scale))
  {
    assert PlainMagnitude(n, scale) == PointLayout(NatDigits(n), scale);
    PointLayoutShape(NatDigits(n), scale);
  }

  lemma {:induction false} PointLayoutShape(digits: string, scale: nat)
    requires AllDigits(digits) && |digits| > 0 && digits[0] != '0' && digits[|digits| - 1] != '0'
    requires scale > 0
    ensures CanonicalMagnitude(PointLayout(digits, scale))
  {
    var padded := Padded(digits, scale);
    PaddedValue(digits, scale);
    PaddedLast(digits, scale);
    PointShape(padded, |padded| - scale);
  }

  lemma {:induction false} WholeShape(t: string)
    requires AllDigits(t) && |t| > 0 && (t[0] != '0' || |t| == 1)
    ensures CanonicalMagnitude(t)
  {
    assert IsDigit(t[0]);
  }

  lemma {:induction false} PointShape(padded: string, k: nat)
    requires AllDigits(padded) && 0 < k < |padded| && padded[|padded| - 1] != '0'
    requires padded[0] != '0' || k == 1
    ensures CanonicalMagnitude(padded[..k] + "." + padded[k..])
  {
    var m := padded[..k] + "." + padded[k..];
    assert m[0] == padded[0];
    assert k == 1 ==> m[1] == '.';
    assert m[|m| - 1] == padded[|padded| - 1];
    forall i | 0 <= i < |m| && i != k ensures IsDigit(m[i]) {
      if i < k {
        assert m[i] == padded[i];
      } else {
        assert m[i] == padded[i - 1];
      }
    }
  }

  /** Canonical text is determined by the number: a text of the canonical form is the canonical text
      of a number exactly when it reads back as that number. */
  lemma {:induction false} CanonicalUnique(t: string, d: Decimal)
    requires CanonicalForm(t)
    ensures ParseDecimal(t).Some?
    ensures t == Canonical(d) <==> Value(ParseDecimal(t).value) == Value(d)
  {
    CanonicalFixedPoint(t);
    var p := ParseDecimal(t).value;
    if Value(p) == Value(d) {
      StrippedUnique(StripTrailingZeros(p), StripTrailingZeros(d));
    } else if t == Canonical(d) {
      CanonicalRoundTrip(d);
    }
  }

  /** Two numbers without trailing zeros that have the same value are the same Decimal. */
  lemma {:induction false} StrippedUnique(a: Decimal, b: Decimal)
    requires a.unscaled % 10 != 0 || a.unscaled == 0
    requires b.unscaled % 10 != 0 || b.unscaled == 0
    requires a.unscaled == 0 ==> a.scale == 0
    requires b.unscaled == 0 ==> b.scale == 0
    requires Value(a) == Value(b)
    ensures a == b
  {
    SignOfValue(a);
    SignOfValue(b);
    if a.unscaled != 0 {
      if a.scale <= b.scale {
        LowerScaleUnique(a, b);
      } else {
        LowerScaleUnique(b, a);
      }
    }
  }

  lemma {:induction false} LowerScaleUnique(a: Decimal, b: Decimal)
    requires a.scale <= b.scale && b.unscaled % 10 != 0
    requires Value(a) == Value(b)
    ensures a == b
  {
    var k: nat := b.scale - a.scale;
    Rescale(a.unscaled, a.scale, k);
    SameScale(a.unscaled * Pow10(k), b.unscaled, b.scale);
    if k > 0 {
      TrailingZero(a.unscaled, k);
    }
  }

  lemma {:induction false} TrailingZero(x: int, k: nat)
    requires k > 0
    ensures (x * Pow10(k)) % 10 == 0
  {
    var y := x * Pow10(k - 1);
    assert x * Pow10(k) == 10 * y;
  }

  /** At one scale, the value determines the unscaled integer. */
  lemma {:induction false} SameScale(x: int, y: int, s: int)
    requires Value(Decimal(x, s)) == Value(Decimal(y, s))
    ensures x == y
  {
    NegateValue(y, s);
    AddAtScale(x, -y, s);
    SignOfValue(Decimal(x - y, s));
  }

  /** A text of the canonical form reads as a number whose canonical text is that text again. */
  lemma {:induction false} CanonicalFixedPoint(t: string)
    requires CanonicalForm(t)
    ensures ParseDecimal(t).Some? && Canonical(ParseDecimal(t).value) == t
  {
    if t[0] == '-' {
      var m := t[1..];
      assert t == "-" + m;
      assert m != "0";
      MagnitudeFixedPoint(m);
      SignedParse(m);
      var p := ParseDecimal(m).value;
      assert ParseDecimal(t) == Some(Negate(p));
      CanonicalNegate(p);
    } else {
      MagnitudeFixedPoint(t);
    }
  }

  /** An unsigned canonical magnitude reads as a non-negative number whose canonical text is the
      magnitude again; only "0" reads as zero. */
  lemma {:induction false} MagnitudeFixedPoint(m: string)
    requires CanonicalMagnitude(m)
    ensures ParseDecimal(m).Some? && Canonical(ParseDecimal(m).value) == m
    ensures ParseDecimal(m).value.unscaled >= 0
    ensures m != "0" ==> ParseDecimal(m).value.unscaled > 0
  {
    var w, f := CanonicalParts(m);
    SignedParse(m);
    if f == [] {
      WholeRoundTrip(m);
      WholeFixedPoint(m);
    } else {
      ReadAtPoint(w, f);
      PointDigitsCanonical(w, f);
    }
  }

  /** Negating a number other than zero puts a '-' in front of its canonical text. */
  lemma {:induction false} CanonicalNegate(p: Decimal)
    requires p.unscaled > 0
    ensures Canonical(Negate(p)) == "-" + Canonical(p)
  {
    var r := StripTrailingZeros(p);
    assert r.unscaled > 0 by {
      SignOfValue(p);
      SignOfValue(r);
    }
    calc {
      Canonical(Negate(p));
      { StripNegate(p); }
      PlainString(Negate(r));
      { assert Abs(-r.unscaled) == r.unscaled; }
      "-" + PlainMagnitude(r.unscaled, r.scale);
      "-" + PlainString(r);
    }
  }

  lemma {:induction false} StripNegate(p: Decimal)
    requires p.unscaled > 0
    ensures StripTrailingZeros(Negate(p)) == Negate(StripTrailingZeros(p))
    decreases p.unscaled
  {
    var u := p.unscaled;
    if u % 10 == 0 {
      var q := u / 10;
      assert u == 10 * q;
      var e := Decimal(q, p.scale - 1);
      assert Negate(e) == Decimal(-q, p.scale - 1);
      assert StripTrailingZeros(Negate(p)) == StripTrailingZeros(Negate(e)) by {
        StripStep(Negate(p), -q);
      }
      assert StripTrailingZeros(Negate(e)) == Negate(StripTrailingZeros(e)) by { StripNegate(e); }
      assert StripTrailingZeros(p) == StripTrailingZeros(e) by { StripStep(p, q); }
    } else {
      assert (-u) % 10 != 0;
    }
  }

  /** A canonical magnitude is a whole part without leading zeros (or the single digit 0), and
      possibly a point and a fractional part that does not end in '0'. */
  lemma {:induction false} CanonicalParts(m: string) returns (w: string, f: string)
    requires CanonicalMagnitude(m)
    ensures AllDigits(w) && AllDigits(f) && |w| > 0 && (w[0] != '0' || w == "0")
    ensures f == [] ==> m == w
    ensures f != [] ==> m == w + "." + f && f[|f| - 1] != '0'
  {
    var dot := IndexOfDot(m);
    IndexOfDotSpec(m);
    SplitAtDot(m);
    w := m[..dot];
    assert w[0] == m[0];
    if dot == |m| {
      f := [];
      assert m == w;
    } else {
      f := m[dot + 1..];
      assert m == w + [m[dot]] + f;
      assert f[|f| - 1] == m[|m| - 1];
      assert m[0] == '0' ==> dot == 1;
    }
  }

  lemma {:induction false} WholeFixedPoint(m: string)
    requires AllDigits(m) && |m| > 0 && (m[0] != '0' || |m| == 1)
    ensures Canonical(Decimal(DigitsValue(m), 0)) == m
    ensures m != "0" ==> DigitsValue(m) > 0
  {
    var n := DigitsValue(m);
    if n == 0 {
      ZeroDigits(m);
      assert m == "0";
      assert Canonical(Decimal(0, 0)) == "0";
    } else {
      assert NatDigits(n) == m by {
        DigitsUnpadded(m);
      }
      calc {
        Canonical(Decimal(n, 0));
        { WholeCanonical(n, 0); }
        NatDigits(n) + Zeros(0);
        { assert Zeros(0) == []; }
        m;
      }
    }
  }

  lemma {:induction false} PointDigitsCanonical(w: string, f: string)
    requires AllDigits(w) && AllDigits(f) && |w| > 0 && |f| > 0
    requires w[0] != '0' || w == "0"
    requires f[|f| - 1] != '0'
    requires AllDigits(w + f)
    ensures DigitsValue(w + f) > 0
    ensures Canonical(Decimal(DigitsValue(w + f), |f|)) == w + "." + f
  {
    var x := w + f;
    var n := DigitsValue(x);
    assert n % 10 != 0 by {
      assert x[|x| - 1] == f[|f| - 1];
    }
    var d := Decimal(n, |f|);
    calc {
      Canonical(d);
      { assert StripTrailingZeros(d) == d; }
      PlainString(d);
      PointLayout(NatDigits(n), |f|);
      { PointLayoutOfDigits(w, f); }
      w + "." + f;
    }
  }

  lemma {:induction false} PointLayoutOfDigits(w: string, f: string)
    requires AllDigits(w) && AllDigits(f) && |w| > 0 && |f| > 0
    requires w[0] != '0' || w == "0"
    requires AllDigits(w + f) && DigitsValue(w + f) > 0
    ensures PointLayout(NatDigits(DigitsValue(w + f)), |f|) == w + "." + f
  {
    var x := w + f;
    var nd := NatDigits(DigitsValue(x));
    DigitsUnpadded(x);
    assert x[0] == w[0];
    if w != "0" {
      assert x == nd;
    } else {
      assert |nd| < |x|;
    }
    assert Padded(nd, |f|) == x;
    assert x[..|w|] == w && x[|w|..] == f;
  }

  /** A digit run with a positive value is zeros followed by the digits of that value. */
  lemma {:induction false} DigitsUnpadded(x: string)
    requires AllDigits(x) && DigitsValue(x) > 0
    ensures var nd := NatDigits(DigitsValue(x));
      |nd| <= |x| && x == Zeros(|x| - |nd|) + nd
    decreases |x|
  {
    var x' := x[..|x| - 1];
    var c := x[|x| - 1];
    assert x == x' + [c];
    if DigitsValue(x') == 0 {
      UnpaddedFirst(x, x', c);
    } else {
      DigitsUnpadded(x');
      UnpaddedNext(x, x', c);
    }
  }

  /** The first digit that is not a leading zero. */
  lemma {:induction false} UnpaddedFirst(x: string, x': string, c: char)
    requires AllDigits(x) && x == x' + [c] && x' == x[..|x| - 1] && DigitsValue(x) > 0
    requires DigitsValue(x') == 0
    ensures var nd := NatDigits(DigitsValue(x));
      |nd| <= |x| && x == Zeros(|x| - |nd|) + nd
  {
    var n := DigitsValue(x);
    assert x' == Zeros(|x'|) by { ZeroDigits(x'); }
    assert NatDigits(n) == [c];
    assert |x| - |[c]| == |x'|;
  }

  /** One more digit after the unpadded ones. */
  lemma {:induction false} UnpaddedNext(x: string, x': string, c: char)
    requires AllDigits(x) && x == x' + [c] && x' == x[..|x| - 1]
    requires AllDigits(x') && DigitsValue(x') > 0
    requires var d := NatDigits(DigitsValue(x'));
      |d| <= |x'| && x' == Zeros(|x'| - |d|) + d
    ensures var nd := NatDigits(DigitsValue(x));
      |nd| <= |x| && x == Zeros(|x| - |nd|) + nd
  {
    var n := DigitsValue(x);
    var d := NatDigits(DigitsValue(x'));
    var z := Zeros(|x'| - |d|);
    assert NatDigits(n) == d + [c] by {
      assert n / 10 == DigitsValue(x') && n % 10 == DigitValue(c);
    }
    assert |x| - |d + [c]| == |x'| - |d|;
    AppendToPadded(x', c, z, d);
  }

  lemma {:induction false} AppendToPadded(x: string, c: char, z: string, d: string)
    requires x == z + d
    ensures x + [c] == z + (d + [c])
  {
  }

  /** A digit run with value zero is all zeros. */
  lemma {:induction false} ZeroDigits(x: string)
    requires AllDigits(x) && DigitsValue(x) == 0
    ensures x == Zeros(|x|)
    decreases |x|
  {
    if x != [] {
      var x' := x[..|x| - 1];
      ZeroDigits(x');
      assert x == x' + [x[|x| - 1]];
      assert Zeros(|x|) == Zeros(|x'|) + ['0'];
    }
  }

  /** A whole number other than zero at scale -k prints as its digits followed by k zeros, however
      many trailing zeros stripping takes off. */
  lemma {:induction false} WholeCanonical(n: nat, k: nat)
    requires n != 0
    ensures Canonical(Decimal(n, -(k as int))) == NatDigits(n) + Zeros(k)
    decreases n
  {
    if n % 10 != 0 {
      WholeCanonicalUnstripped(n, k);
    } else {
      var q := n / 10;
      assert n == 10 * q && q != 0;
      var t, z := NatDigits(q), Zeros(k);
      var j: nat := k + 1;
      var d, e := Decimal(n, -(k as int)), Decimal(q, -(j as int));
      assert Canonical(d) == Canonical(e) by { WholeCanonicalShift(n, k, q, j); }
      assert Canonical(e) == t + Zeros(j) by { WholeCanonical(q, j); }
      assert Zeros(j) == "0" + z;
      assert NatDigits(n) == t + "0" by { TimesTenDigits(q); }
      assert t + ("0" + z) == (t + "0") + z;
    }
  }

  lemma {:induction false} WholeCanonicalUnstripped(n: nat, k: nat)
    requires n % 10 != 0
    ensures Canonical(Decimal(n, -(k as int))) == NatDigits(n) + Zeros(k)
  {
    var d := Decimal(n, -(k as int));
    assert StripTrailingZeros(d) == d;
    if k == 0 { assert Zeros(0) == []; }
  }

  /** A whole number that ends in zero prints as its tenth with one more zero shifted out. */
  lemma {:induction false} WholeCanonicalShift(n: nat, k: nat, q: nat, j: nat)
    requires n == 10 * q && q != 0 && j == k + 1
    ensures Canonical(Decimal(n, -(k as int))) == Canonical(Decimal(q, -(j as int)))
  {
    var d := Decimal(n, -(k as int));
    StripStep(d, q);
    assert Decimal(q, d.scale - 1) == Decimal(q, -(j as int));
  }

  /** Ten times a positive number prints as its digits followed by "0". */
  lemma {:induction false} TimesTenDigits(n: nat)
    requires n > 0
    ensures NatDigits(10 * n) == NatDigits(n) + "0"
  {
    assert (10 * n) / 10 == n && (10 * n) % 10 == 0;
    assert DigitChar(0) == '0';
  }
}
