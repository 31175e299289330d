/**
 * The part of `java.math.BigDecimal` the fraction type uses: a decimal value
 * `unscaled × 10^-scale`, the `BigDecimal(String)` constructor restricted to
 * plain literals, and `divide(divisor, scale, RoundingMode.HALF_UP)`.
 */
module Decimals {
  import opened Results
  import opened Arith
  import opened Text

  /** A `BigDecimal`: the number `unscaled × 10^(-scale)`. Equality is `BigDecimal.equals`. */
  datatype Decimal = Decimal(unscaled: int, scale: int)

  /** The exact value of a decimal with a non-negative scale. */
  ghost function DecimalValue(d: Decimal): real
    requires d.scale >= 0
  {
    d.unscaled as real / Pow10(d.scale) as real
  }

  function Signed(negative: bool, m: nat): int
  {
    if negative then -(m as int) else m
  }

  /**
   * `new BigDecimal(s)` for literals of the form `[+|-] digits [. digits]` with at
   * least one digit; anything else (a second '.', a stray character, an empty
   * string or a bare sign) is `NumberFormatException`, here `InvalidFormat`.
   * The scale is the number of digits after the point.
   */
  function ParseDecimal(s: string): (r: Result<Decimal>)
    ensures r.Ok? ==> r.value.scale >= 0 && |s| > 0
    ensures r.Err? ==> r.error == InvalidFormat
  {
    var negative := |s| > 0 && s[0] == '-';
    var body := if |s| > 0 && (s[0] == '-' || s[0] == '+') then s[1..] else s;
    match IndexOf(body, '.')
    case None =>
      if body != [] && AllDigits(body) then Ok(Decimal(Signed(negative, DigitsValue(body)), 0))
      else Err(InvalidFormat)
    case Some(k) =>
      var whole, fraction := body[..k], body[k + 1..];
      if |whole| + |fraction| > 0 && AllDigits(whole) && AllDigits(fraction) then
        Ok(Decimal(Signed(negative, DigitsValue(whole + fraction)), |fraction|))
      else Err(InvalidFormat)
  }

  /** `BigInteger.toString()` read back by `new BigDecimal(String)` gives the integer, scale 0. */
  lemma ParseIntString(i: int)
    ensures ParseDecimal(IntToString(i)) == Ok(Decimal(i, 0))
  {
    var s := IntToString(i);
    var body := if i < 0 then s[1..] else s;
    assert body == NatToString(Abs(i));
    assert forall k :: 0 <= k < |body| ==> IsDigit(body[k]);
  }

  lemma AllDigitsConcat(a: string, b: string)
    requires AllDigits(a) && AllDigits(b)
    ensures AllDigits(a + b)
  {
    forall i | 0 <= i < |a + b| ensures IsDigit((a + b)[i]) {
      if i >= |a| { assert (a + b)[i] == b[i - |a|]; }
    }
  }

  /** Digit strings concatenate as place values: `a` is shifted by the length of `b`. */
  lemma {:induction false} DigitsValueConcat(a: string, b: string)
    requires AllDigits(a) && AllDigits(b)
    ensures AllDigits(a + b)
    ensures DigitsValue(a + b) == DigitsValue(a) * Pow10(|b|) + DigitsValue(b)
    decreases |b|
  {
    AllDigitsConcat(a, b);
    if b == [] {
      assert a + b == a;
    } else {
      var b1, c := b[..|b| - 1], b[|b| - 1];
      assert b == b1 + [c];
      assert a + b == (a + b1) + [c];
      DigitsPrefix(b1, c);
      AllDigitsConcat(a, b1);
      DigitsPrefix(a + b1, c);
      DigitsValueConcat(a, b1);
      PlaceValue(DigitsValue(a), Pow10(|b1|), DigitsValue(b1), DigitValue(c));
    }
  }

  /** Appending a digit multiplies by ten and adds it. */
  lemma DigitsPrefix(s: string, c: char)
    requires AllDigits(s) && IsDigit(c)
    ensures AllDigits(s + [c])
    ensures DigitsValue(s + [c]) == 10 * DigitsValue(s) + DigitValue(c)
  {
    assert (s + [c])[..|s|] == s;
  }

  lemma PlaceValue(x: int, p: int, y: int, d: int)
    ensures 10 * (x * p + y) + d == x * (10 * p) + (10 * y + d)
  {
  }

  /** A sign in front of a body that does not start with one is read off and remembered. */
  lemma SignPrefix(sign: string, body: string)
    requires sign == "" || sign == "+" || sign == "-"
    requires |body| > 0 && body[0] != '-' && body[0] != '+'
    ensures var s := sign + body;
      && (if |s| > 0 && (s[0] == '-' || s[0] == '+') then s[1..] else s) == body
      && (|s| > 0 && s[0] == '-') == (sign == "-")
  {
    var s := sign + body;
    if sign == "" { assert s == body; } else { assert s[0] == sign[0] && s[1..] == body; }
  }

  lemma NoPoint(w: string)
    requires AllDigits(w)
    ensures '.' !in w
  {
    forall i | 0 <= i < |w| ensures w[i] != '.' { assert IsDigit(w[i]); }
  }

  /**
   * An integer literal: an optional sign and at least one digit give that
   * integer at scale 0.
   */
  lemma IntegerLiteral(sign: string, w: string)
    requires sign == "" || sign == "+" || sign == "-"
    requires |w| > 0 && AllDigits(w)
    ensures ParseDecimal(sign + w) == Ok(Decimal(Signed(sign == "-", DigitsValue(w)), 0))
  {
    assert IsDigit(w[0]);
    SignPrefix(sign, w);
    NoPoint(w);
  }

  /** The body `w.f` of a literal splits at its point into `w` and `f`. */
  lemma DottedBody(w: string, f: string)
    requires AllDigits(w)
    ensures IndexOf(w + ("." + f), '.') == Some(|w|)
    ensures (w + ("." + f))[..|w|] == w && (w + ("." + f))[|w| + 1..] == f
  {
    NoPoint(w);
    IndexOfConcat(w, "." + f, '.');
  }

  /** What `ParseDecimal` gives once the body of `s` is known to have a point at `k`. */
  lemma ParsePointAt(s: string, body: string, k: nat)
    requires body == if |s| > 0 && (s[0] == '-' || s[0] == '+') then s[1..] else s
    requires IndexOf(body, '.') == Some(k)
    requires AllDigits(body[..k]) && AllDigits(body[k + 1..]) && |body[..k]| + |body[k + 1..]| > 0
    ensures ParseDecimal(s) == Ok(Decimal(Signed(|s| > 0 && s[0] == '-', DigitsValue(body[..k] + body[k + 1..])), |body[k + 1..]|))
  {
  }

  lemma DottedParse(sign: string, w: string, f: string)
    requires sign == "" || sign == "+" || sign == "-"
    requires AllDigits(w) && AllDigits(f) && |w| + |f| > 0
    ensures AllDigits(w + f)
    ensures ParseDecimal(sign + (w + ("." + f))) == Ok(Decimal(Signed(sign == "-", DigitsValue(w + f)), |f|))
  {
    var body := w + ("." + f);
    assert body[0] == (if w == [] then '.' else w[0]);
    if w != [] { assert IsDigit(w[0]); }
    SignPrefix(sign, body);
    DottedBody(w, f);
    AllDigitsConcat(w, f);
    ParsePointAt(sign + body, body, |w|);
  }

  /**
   * A literal with a point: an optional sign, the digits `w` before the point and
   * `f` after it, at least one digit in all. The unscaled value is the digits of
   * both read together, the scale is the number of digits after the point, and
   * the value is `w.f`, negated after a minus sign.
   */
  lemma DottedLiteral(sign: string, w: string, f: string)
    requires sign == "" || sign == "+" || sign == "-"
    requires AllDigits(w) && AllDigits(f) && |w| + |f| > 0
    ensures AllDigits(w + f)
    ensures ParseDecimal(sign + w + "." + f) == Ok(Decimal(Signed(sign == "-", DigitsValue(w + f)), |f|))
    ensures var v := DigitsValue(w) as real + DigitsValue(f) as real / Pow10(|f|) as real;
      DecimalValue(ParseDecimal(sign + w + "." + f).value) == if sign == "-" then -v else v
  {
    DottedLiteralParse(sign, w, f);
    PointValue(sign == "-", w, f);
  }

  lemma DottedLiteralParse(sign: string, w: string, f: string)
    requires sign == "" || sign == "+" || sign == "-"
    requires AllDigits(w) && AllDigits(f) && |w| + |f| > 0
    ensures AllDigits(w + f)
    ensures ParseDecimal(sign + w + "." + f) == Ok(Decimal(Signed(sign == "-", DigitsValue(w + f)), |f|))
  {
    Regroup(sign, w, ".", f);
    DottedParse(sign, w, f);
  }

  /** The digits of `w` and `f` read together, at the scale of `f`, are worth `w.f`. */
  lemma PointValue(negative: bool, w: string, f: string)
    requires AllDigits(w) && AllDigits(f)
    ensures AllDigits(w + f)
    ensures var v := DigitsValue(w) as real + DigitsValue(f) as real / Pow10(|f|) as real;
      DecimalValue(Decimal(Signed(negative, DigitsValue(w + f)), |f|)) == if negative then -v else v
  {
    DigitsValueConcat(w, f);
    DottedLiteralValue(negative, DigitsValue(w), DigitsValue(f), |f|);
  }

  lemma Regroup(a: string, b: string, c: string, d: string)
    ensures a + b + c + d == a + (b + (c + d))
  {
  }

  /** A decimal whose unscaled value is `w·10^n + f` at scale `n` is worth `w + f/10^n`. */
  lemma DottedLiteralValue(negative: bool, w: nat, f: nat, n: nat)
    ensures var v := w as real + f as real / Pow10(n) as real;
      DecimalValue(Decimal(Signed(negative, w * Pow10(n) + f), n)) == if negative then -v else v
  {
    DottedValue(negative, w, f, Pow10(n));
  }

  /** The value of the unscaled digits `w·p + f` at the scale whose unit is `1/p`. */
  lemma DottedValue(negative: bool, w: nat, f: nat, p: nat)
    requires p > 0
    ensures var v := w as real + f as real / p as real;
      Signed(negative, w * p + f) as real / p as real == if negative then -v else v
  {
    assert (w * p + f) as real == w as real * p as real + f as real;
  }

  /** A literal with two decimal points never parses. */
  lemma TwoPointsInvalid(s: string, i: nat, j: nat)
    requires i < j < |s| && s[i] == '.' && s[j] == '.'
    ensures ParseDecimal(s) == Err(InvalidFormat)
  {
    var body := if |s| > 0 && (s[0] == '-' || s[0] == '+') then s[1..] else s;
    var off := |s| - |body|;
    assert i >= off && body[i - off] == '.' && body[j - off] == '.';
    var k := IndexOf(body, '.').value;
    assert k <= i - off;
    var fraction := body[k + 1..];
    assert fraction[j - off - k - 1] == '.';
  }

  /** A literal that parses is made of digits and at most one point after an optional sign. */
  lemma ParsedCharacters(s: string)
    requires ParseDecimal(s).Ok?
    ensures forall i :: 0 < i < |s| ==> IsDigit(s[i]) || s[i] == '.'
    ensures IsDigit(s[0]) || s[0] == '+' || s[0] == '-' || s[0] == '.'
  {
    var body := if s[0] == '-' || s[0] == '+' then s[1..] else s;
    BodyCharacters(body);
    var off := |s| - |body|;
    forall i | off <= i < |s|
      ensures IsDigit(s[i]) || s[i] == '.'
    {
      assert s[i] == body[i - off];
    }
  }

  lemma BodyCharacters(body: string)
    requires match IndexOf(body, '.')
      case None => AllDigits(body)
      case Some(k) => AllDigits(body[..k]) && AllDigits(body[k + 1..])
    ensures forall i :: 0 <= i < |body| ==> IsDigit(body[i]) || body[i] == '.'
  {
    match IndexOf(body, '.')
    case None =>
    case Some(k) =>
      forall i | 0 <= i < |body|
        ensures IsDigit(body[i]) || body[i] == '.'
      {
        if i < k {
          assert body[i] == body[..k][i];
        } else if i > k {
          assert body[i] == body[k + 1..][i - k - 1];
        }
      }
  }

  /**
   * `divide(divisor, scale, RoundingMode.HALF_UP)` on integers: `x / y` rounded to
   * the nearest integer, a tie going away from zero.
   */
  function DivideHalfUp(x: int, y: int): (q: int)
    requires y > 0
    ensures 2 * Abs(x - q * y) <= y
    ensures 2 * Abs(x - q * y) == y ==> Abs(q) * y > Abs(x)
  {
    var t := TruncDiv(x, y);
    var rem := x - t * y;
    var q := if 2 * Abs(rem) >= y then (if x < 0 then t - 1 else t + 1) else t;
    HalfUpBounds(x, y, t, q);
    q
  }

  lemma HalfUpBounds(x: int, y: int, t: int, q: int)
    requires y > 0 && t == TruncDiv(x, y)
    requires q == if 2 * Abs(x - t * y) >= y then (if x < 0 then t - 1 else t + 1) else t
    ensures 2 * Abs(x - q * y) <= y
    ensures 2 * Abs(x - q * y) == y ==> Abs(q) * y > Abs(x)
  {
    TruncProduct(x, y, t);
    Neighbours(t, y);
    if x >= 0 {
      RoundUp(x, y, t, t * y, q, q * y);
    } else {
      RoundDown(x, y, t, t * y, q, q * y);
    }
  }

  /** Where `x` lies relative to `t·y` for the truncated quotient `t`. */
  lemma TruncProduct(x: int, y: int, t: int)
    requires y > 0 && t == TruncDiv(x, y)
    ensures x >= 0 ==> t >= 0 && t * y <= x < t * y + y
    ensures x < 0 ==> t <= 0 && t * y - y < x <= t * y
  {
    Neighbours(t, y);
    if x >= 0 {
      assert Abs(t) == t;
    } else {
      assert Abs(t) == -t;
      assert Abs(t) * y == -(t * y);
      assert (Abs(t) + 1) * y == -(t * y) + y;
    }
  }

  lemma Neighbours(t: int, y: int)
    ensures (t + 1) * y == t * y + y && (t - 1) * y == t * y - y
  {
  }

  /** The non-negative case of `HalfUpBounds`, with the products `t·y` and `q·y` named. */
  lemma RoundUp(x: int, y: int, t: int, ty: int, q: int, qy: int)
    requires y > 0 && x >= 0 && t >= 0 && ty <= x < ty + y
    requires q == (if 2 * (x - ty) >= y then t + 1 else t)
    requires qy == (if q == t then ty else ty + y) && qy == q * y
    ensures 2 * Abs(x - qy) <= y
    ensures 2 * Abs(x - qy) == y ==> Abs(q) * y > Abs(x)
  {
    assert Abs(q) == q;
  }

  /** The negative case of `HalfUpBounds`, with the products `t·y` and `q·y` named. */
  lemma RoundDown(x: int, y: int, t: int, ty: int, q: int, qy: int)
    requires y > 0 && x < 0 && t <= 0 && ty - y < x <= ty
    requires q == (if 2 * (ty - x) >= y then t - 1 else t)
    requires qy == (if q == t then ty else ty - y) && qy == q * y
    ensures 2 * Abs(x - qy) <= y
    ensures 2 * Abs(x - qy) == y ==> Abs(q) * y > Abs(x)
  {
    assert Abs(q) == -q;
    assert Abs(q) * y == -qy;
  }

  /** Half-up rounding is symmetric under negation. */
  lemma DivideHalfUpNegate(x: int, y: int)
    requires y > 0
    ensures DivideHalfUp(-x, y) == -DivideHalfUp(x, y)
  {
    var t, t' := TruncDiv(x, y), TruncDiv(-x, y);
    assert t' == -t;
    assert -x - t' * y == -(x - t * y);
  }

  /** At a scale `n >= 0`, `d` is within half a unit in its last place of `x / y`. */
  predicate WithinHalfUnit(x: int, y: int, n: nat, d: Decimal)
  {
    2 * Abs(x * Pow10(n) - d.unscaled * y) <= y
  }

  /**
   * `new BigDecimal(numer).divide(new BigDecimal(denom), n, HALF_UP)`: the quotient
   * rounded at `n` digits after the point (a negative `n` rounds to tens, hundreds, …).
   */
  function DivideToScale(numer: int, denom: int, n: int): (r: Decimal)
    requires denom > 0
    ensures r.scale == n
  {
    if n >= 0 then Decimal(DivideHalfUp(numer * Pow10(n), denom), n)
    else Decimal(DivideHalfUp(numer, denom * Pow10(-n)), n)
  }

  /** Rounding half-up is symmetric about zero at every scale. */
  lemma DivideToScaleNegate(x: int, y: int, n: int)
    requires y > 0
    ensures DivideToScale(-x, y, n) == Decimal(-DivideToScale(x, y, n).unscaled, n)
  {
    if n >= 0 {
      assert -x * Pow10(n) == -(x * Pow10(n));
      DivideHalfUpNegate(x * Pow10(n), y);
    } else {
      DivideHalfUpNegate(x, y * Pow10(-n));
    }
  }
}
