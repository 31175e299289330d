/**
 * `model.BigFraction`: an exact rational number held as a numerator/denominator
 * pair of unbounded integers, always in lowest terms with a positive
 * denominator, zero stored as 0/1.
 *
 * A `BigFraction` object never changes once its constructor has run, so it is
 * modelled as a datatype value: each Java constructor is a function that returns
 * the normalised pair (`Reduce` is `reduceFraction`), and each instance method
 * is a member function. `Value()` gives the exact rational meaning as a `real`.
 */
module Fractions {
  import opened Results
  import opened Arith
  import opened Text
  import opened Decimals

  datatype BigFraction = BigFraction(numer: int, denom: int) {

    /** The invariant every constructor establishes. */
    predicate Valid()
    {
      denom > 0 && Gcd(Arith.Abs(numer), denom) == 1 && (numer == 0 ==> denom == 1)
    }

    /** The rational number the pair denotes. */
    ghost function Value(): real
      requires denom != 0
    {
      numer as real / denom as real
    }

    // -------------------------------------------------------------------------
    // Arithmetic: add, sub, mul, div, pow

    /** `add(BigFraction)`: cross-multiplied sum. */
    function Add(f: BigFraction): (r: BigFraction)
      requires Valid() && f.Valid()
      ensures r.Valid() && r.Value() == Value() + f.Value()
    {
      SumValue(numer, denom, f.numer, f.denom);
      Reduce(numer * f.denom + f.numer * denom, denom * f.denom)
    }

    /** `sub(BigFraction)`: cross-multiplied difference. */
    function Sub(f: BigFraction): (r: BigFraction)
      requires Valid() && f.Valid()
      ensures r.Valid() && r.Value() == Value() - f.Value()
    {
      DifferenceValue(numer, denom, f.numer, f.denom);
      Reduce(numer * f.denom - f.numer * denom, denom * f.denom)
    }

    /** `mul(BigFraction)`: product of numerators over product of denominators. */
    function Mul(f: BigFraction): (r: BigFraction)
      requires Valid() && f.Valid()
      ensures r.Valid() && r.Value() == Value() * f.Value()
    {
      ProductValue(numer, denom, f.numer, f.denom);
      Reduce(numer * f.numer, denom * f.denom)
    }

    /**
     * `div(BigFraction)`: the constructor's zero check fires exactly when the
     * divisor is zero, since its numerator becomes the new denominator.
     */
    function Div(f: BigFraction): (r: Result<BigFraction>)
      requires Valid() && f.Valid()
      ensures r.Err? <==> f.Value() == 0.0
      ensures r.Err? ==> r.error == DivByZero
      ensures r.Ok? ==> r.value.Valid() && r.value.Value() == Value() / f.Value()
    {
      ZeroValue(f);
      QuotientValue(numer, denom, f.numer, f.denom);
      New(numer * f.denom, denom * f.numer)
    }

    /**
     * `pow(int)`: numerator and denominator raised to `|i|`, swapped for a
     * negative exponent; `x^0` is 1 even for `x == 0`. The exponent is negated
     * here without Java's 32-bit wrap-around (see `PowAsWritten`).
     */
    function Pow(i: int): (r: Result<BigFraction>)
      requires Valid()
      ensures r.Ok? ==> r.value.Valid()
      ensures i >= 0 ==> r.Ok? && r.value.Value() == RealPow(Value(), i)
      ensures i == 0 ==> r == Ok(BigFraction(1, 1))
      ensures i < 0 ==> (r.Err? <==> numer == 0)
      ensures r.Err? ==> r.error == DivByZero
      ensures i < 0 && r.Ok? ==> r.value.Value() * RealPow(Value(), -i) == 1.0
    {
      var negative := i < 0;
      var e: nat := if negative then -i else i;
      var n, d := Power(numer, e), Power(denom, e);
      PowFacts(numer, denom, e);
      if negative then New(d, n) else New(n, d)
    }

    /**
     * `pow(int)` exactly as written for a 32-bit `i`: `i = -i` wraps for
     * `Integer.MIN_VALUE`, and `BigInteger.pow` then rejects the negative exponent.
     */
    function PowAsWritten(i: int): (r: Result<BigFraction>)
      requires Valid() && -0x8000_0000 <= i < 0x8000_0000
      ensures i != -0x8000_0000 ==> r == Pow(i)
      ensures i == -0x8000_0000 ==> r == Err(NegativeExponent)
    {
      var negative := i < 0;
      var e := if negative then Int32Negate(i) else i;
      if e < 0 then Err(NegativeExponent)
      else
        var n, d := Power(numer, e), Power(denom, e);
        if negative then New(d, n) else New(n, d)
    }

    // -------------------------------------------------------------------------
    // Comparison and predicates

    /** `compareTo`: -1, 0 or 1 by cross-multiplication. */
    function CompareTo(f: BigFraction): (r: int)
      requires Valid() && f.Valid()
      ensures r == -1 || r == 0 || r == 1
      ensures r == -1 <==> Value() < f.Value()
      ensures r == 0 <==> Value() == f.Value()
      ensures r == 1 <==> Value() > f.Value()
    {
      var x, y := numer * f.denom, f.numer * denom;
      CrossCompare(numer, denom, f.numer, f.denom);
      if x < y then -1 else if x == y then 0 else 1
    }

    /**
     * `equals(Object)`: `None` stands for `null` or an object of another class.
     * Comparing the stored fields is comparing rational values, because the
     * stored form is canonical.
     */
    function Equals(o: Option<BigFraction>): (r: bool)
      requires Valid() && (o.Some? ==> o.value.Valid())
      ensures r <==> o.Some? && o.value.Value() == Value()
    {
      match o
      case None => false
      case Some(f) =>
        ValueDetermines(this, f);
        numer == f.numer && denom == f.denom
    }

    /** `isZero`: equal to `ZERO`. */
    function IsZero(): (r: bool)
      requires Valid()
      ensures r <==> Value() == 0.0
    {
      Equals(Some(ZeroFraction()))
    }

    /** `isOne`: equal to `ONE`. */
    function IsOne(): (r: bool)
      requires Valid()
      ensures r <==> Value() == 1.0
    {
      Equals(Some(OneFraction()))
    }

    /** `isInteger`: the denominator is 1, which in lowest terms means the value is whole. */
    function IsInteger(): (r: bool)
      requires Valid()
      ensures r <==> numer % denom == 0
    {
      IntegerWhenDivisible(this);
      denom == 1
    }

    /** `isProper`: `|numer| < denom`, a value strictly between -1 and 1. */
    function IsProper(): (r: bool)
      requires Valid()
      ensures r <==> -1.0 < Value() < 1.0
    {
      ProperBound(numer, denom);
      Arith.Abs(numer) < denom
    }

    /** `isImproper`: `|numer| >= denom`, the exact complement of `isProper`. */
    function IsImproper(): (r: bool)
      requires Valid()
      ensures r <==> !IsProper()
      ensures r <==> Value() <= -1.0 || Value() >= 1.0
    {
      Arith.Abs(numer) >= denom
    }

    function Min(f: BigFraction): (r: BigFraction)
      requires Valid() && f.Valid()
      ensures r == this || r == f
      ensures r.Value() <= Value() && r.Value() <= f.Value()
    {
      if CompareTo(f) <= 0 then Copy() else f.Copy()
    }

    function Max(f: BigFraction): (r: BigFraction)
      requires Valid() && f.Valid()
      ensures r == this || r == f
      ensures r.Value() >= Value() && r.Value() >= f.Value()
    {
      if CompareTo(f) >= 0 then Copy() else f.Copy()
    }

    // -------------------------------------------------------------------------
    // Derived fractions

    /** `copy()`, the copy constructor: the same pair. */
    function Copy(): (r: BigFraction)
      requires Valid()
      ensures r == this
    {
      ReduceCanonical(this);
      Reduce(numer, denom)
    }

    /** `inverse()`: the constructor rejects the swapped pair of a zero value. */
    function Inverse(): (r: Result<BigFraction>)
      requires Valid()
      ensures r.Err? <==> Value() == 0.0
      ensures r.Err? ==> r.error == DivByZero
      ensures r.Ok? ==> r.value.Valid() && r.value.Value() * Value() == 1.0
    {
      ZeroValue(this);
      if numer != 0 then InverseProduct(numer, denom); New(denom, numer) else New(denom, numer)
    }

    function Negate(): (r: BigFraction)
      requires Valid()
      ensures r.Valid() && r.Value() == -Value()
      ensures r == BigFraction(-numer, denom)
    {
      NegatedPair(this);
      Reduce(-numer, denom)
    }

    function Abs(): (r: BigFraction)
      requires Valid()
      ensures r.Valid() && r.Value() == RealAbs(Value())
      ensures r == BigFraction(Arith.Abs(numer), denom)
    {
      var r := Reduce(Arith.Abs(numer), denom);
      Canonical(r, BigFraction(Arith.Abs(numer), denom));
      r
    }

    /** `fractionPart()`: `|numer| mod denom` over `denom`, the magnitude's proper part. */
    function FractionPart(): (r: BigFraction)
      requires Valid()
      ensures r.Valid() && 0.0 <= r.Value() < 1.0
      ensures r.Value() + Arith.Abs(IntegerPart()) as real == RealAbs(Value())
    {
      var m := Arith.Abs(numer);
      FractionPartValue(m, denom);
      AbsValue(numer, denom);
      TruncDivMagnitude(numer, denom);
      Reduce(m % denom, denom)
    }

    // -------------------------------------------------------------------------
    // Integer and decimal conversions

    /** `integerPart()`: `numer.divide(denom)`, the value truncated toward zero. */
    function IntegerPart(): (r: int)
      requires Valid()
      ensures numer >= 0 ==> r >= 0
      ensures numer <= 0 ==> r <= 0
      ensures Arith.Abs(r) as real <= RealAbs(Value()) < (Arith.Abs(r) + 1) as real
    {
      var r := TruncDiv(numer, denom);
      AbsValue(numer, denom);
      ScaledCompare(Arith.Abs(r), Arith.Abs(numer), denom);
      ScaledCompare(Arith.Abs(r) + 1, Arith.Abs(numer), denom);
      r
    }

    /** `floor()`: the largest integer not above the value. */
    function Floor(): (r: int)
      requires Valid()
      ensures r as real <= Value() < (r + 1) as real
    {
      var r := if numer < 0 then TruncDiv(numer - denom + 1, denom) else TruncDiv(numer, denom);
      FloorBounds(numer, denom, r);
      ScaledCompare(r, numer, denom);
      ScaledCompare(r + 1, numer, denom);
      r
    }

    /** `ceil()`: the smallest integer not below the value. */
    function Ceil(): (r: int)
      requires Valid()
      ensures (r - 1) as real < Value() <= r as real
    {
      var r := if numer > 0 then TruncDiv(numer + denom - 1, denom) else TruncDiv(numer, denom);
      CeilBounds(numer, denom, r);
      ScaledCompare(r - 1, numer, denom);
      ScaledCompare(r, numer, denom);
      r
    }

    /**
     * `getDecimal(n)`: the value rounded half-up (ties away from zero) to `n`
     * digits after the point.
     */
    function GetDecimal(n: int): (r: Decimal)
      requires Valid()
      ensures r.scale == n
      ensures n >= 0 ==> WithinHalfUnit(numer, denom, n, r)
      ensures n >= 0 && 2 * Arith.Abs(numer * Pow10(n) - r.unscaled * denom) == denom ==>
                Arith.Abs(r.unscaled) * denom > Arith.Abs(numer * Pow10(n))
    {
      DivideToScale(numer, denom, n)
    }

    /** `round()`: `getDecimal(0)` as an integer, the nearest integer with ties away from zero. */
    function Round(): (r: int)
      requires Valid()
      ensures 2 * Arith.Abs(numer - r * denom) <= denom
      ensures 2 * Arith.Abs(numer - r * denom) == denom ==> Arith.Abs(r) * denom > Arith.Abs(numer)
    {
      GetDecimal(0).unscaled
    }

    // -------------------------------------------------------------------------
    // Text

    /** `toString()`: `"n"` for an integer, otherwise `"n/d"`. */
    function ToString(): (s: string)
      requires Valid()
      ensures |s| > 0 && (s[0] == '-' <==> numer < 0)
      ensures ' ' !in s
      ensures '/' in s <==> !IsInteger()
    {
      var x, y := IntToString(numer), IntToString(denom);
      NoSpaceOrSlash(numer);
      NoSpaceOrSlash(denom);
      if IsInteger() then x
      else
        PairNoSpace(x, y, x + "/" + y);
        assert (x + "/" + y)[|x|] == '/';
        x + "/" + y
    }

    /** `toMixedString()` as written: integer part, a space, then the proper part. */
    function ToMixedStringAsWritten(): (s: string)
      requires Valid()
      ensures |s| > 0 && (s[0] == '-' <==> IntegerPart() < 0)
      ensures IsInteger() ==> s == ToString()
    {
      if IsInteger() then
        assert denom == 1 by { IntegerWhenDivisible(this); }
        IntToString(numer)
      else IntToString(IntegerPart()) + " " + FractionPart().ToString()
    }

    /**
     * `toMixedString()` with the sign kept for a negative value above -1, whose
     * integer part `0` cannot carry it: `-1/2` gives `"-0 1/2"`.
     */
    function ToMixedString(): (s: string)
      requires Valid()
      ensures |s| > 0 && (s[0] == '-' <==> numer < 0)
      ensures !(numer < 0 && IntegerPart() == 0) ==> s == ToMixedStringAsWritten()
    {
      if !IsInteger() && numer < 0 && IntegerPart() == 0 then
        "-" + ToMixedStringAsWritten()
      else
        var s := ToMixedStringAsWritten();
        assert !IsInteger() ==> (numer < 0 <==> IntegerPart() < 0) by {
          if !IsInteger() && numer < 0 { assert IntegerPart() <= 0; }
          if IntegerPart() < 0 { assert numer < 0; }
        }
        s
    }
  }

  // ---------------------------------------------------------------------------
  // Constructors

  /**
   * `reduceFraction()` applied to the pair a constructor stored: zero becomes
   * 0/1; otherwise both are divided by their gcd and the signs are moved so
   * that the denominator is positive.
   */
  function Reduce(n: int, d: int): (f: BigFraction)
    requires d != 0
    ensures f.Valid()
    ensures f.Value() == n as real / d as real
  {
    if n == 0 then
      assert Gcd(0, 1) == 1 by { GcdOne(0); }
      BigFraction(0, 1)
    else
      var g := Gcd(Arith.Abs(n), Arith.Abs(d));
      CoprimeQuotients(Arith.Abs(n), Arith.Abs(d));
      GcdDivides(Arith.Abs(n), Arith.Abs(d));
      ExactTruncDiv(n, g);
      ExactTruncDiv(d, g);
      var n1, d1 := TruncDiv(n, g), TruncDiv(d, g);
      ScaledValue(n1, d1, g);
      if d1 < 0 then BigFraction(-n1, -d1) else BigFraction(n1, d1)
  }

  /**
   * `reduceFraction()` as the constructors run it, on the two fields in place:
   * it ends with the pair `Reduce` describes.
   */
  method ReduceFraction(n: int, d: int) returns (numer: int, denom: int)
    requires d != 0
    ensures BigFraction(numer, denom) == Reduce(n, d)
  {
    numer, denom := n, d;
    if numer == 0 {
      denom := 1;
      return;
    }
    var g := Gcd(Arith.Abs(numer), Arith.Abs(denom));
    numer := TruncDiv(numer, g);
    denom := TruncDiv(denom, g);
    if denom < 0 {
      numer := -numer;
      denom := -denom;
    }
  }

  /** `BigFraction(BigInteger n, BigInteger d)`: rejects a zero denominator, then reduces. */
  function New(n: int, d: int): (r: Result<BigFraction>)
    ensures r.Err? <==> d == 0
    ensures r.Err? ==> r.error == DivByZero
    ensures r.Ok? ==> r.value.Valid() && r.value.Value() == n as real / d as real
  {
    if d == 0 then Err(DivByZero) else Ok(Reduce(n, d))
  }

  /** `BigFraction(BigInteger bi)`: the integer over 1. */
  function FromInt(i: int): (r: BigFraction)
    ensures r.Valid() && r == BigFraction(i, 1)
  {
    GcdOne(Arith.Abs(i));
    Reduce(i, 1)
  }

  function ZeroFraction(): (r: BigFraction)
    ensures r.Valid() && r.Value() == 0.0
  {
    FromInt(0)
  }

  function OneFraction(): (r: BigFraction)
    ensures r.Valid() && r.Value() == 1.0
  {
    FromInt(1)
  }

  /** `BigFraction(BigDecimal bd)`: the unscaled value over `10^scale`. */
  function FromDecimal(bd: Decimal): (r: BigFraction)
    requires bd.scale >= 0
    ensures r.Valid() && r.Value() == DecimalValue(bd)
  {
    Reduce(bd.unscaled, Pow10(bd.scale))
  }

  /**
   * `BigFraction(BigDecimal n, BigDecimal d)`: `d` equal to `BigDecimal.ZERO`
   * (value and scale 0) is rejected first; both are then shifted to the larger
   * scale, and a zero denominator is rejected again.
   */
  function FromDecimals(n: Decimal, d: Decimal): (r: Result<BigFraction>)
    requires n.scale >= 0 && d.scale >= 0
    ensures r.Err? <==> d.unscaled == 0
    ensures r.Err? ==> r.error == DivByZero
    ensures r.Ok? ==> r.value.Valid() && r.value.Value() == DecimalValue(n) / DecimalValue(d)
  {
    if d == Decimal(0, 0) then Err(DivByZero)
    else
      var scale := if n.scale >= d.scale then n.scale else d.scale;
      var numer := n.unscaled * Pow10(scale - n.scale);
      var denom := d.unscaled * Pow10(scale - d.scale);
      if denom == 0 then Err(DivByZero)
      else
        AlignedValue(n, d, scale);
        Ok(Reduce(numer, denom))
  }

  /**
   * `parseBigFraction(String)`: spaces are removed; an empty string or one that
   * starts or ends with '/' is rejected; text before the first '/' is the
   * numerator, text after it the denominator.
   */
  function ParseBigFraction(s: string): (r: Result<BigFraction>)
    ensures r.Ok? ==> r.value.Valid()
  {
    ParseStripped(RemoveSpaces(s))
  }

  /** `parseBigFraction` once the spaces are gone. */
  function ParseStripped(t: string): (r: Result<BigFraction>)
    ensures r.Ok? ==> r.value.Valid()
    ensures t == [] || t[0] == '/' || t[|t| - 1] == '/' ==> r == Err(InvalidFormat)
  {
    if t == [] || t[0] == '/' || t[|t| - 1] == '/' then Err(InvalidFormat)
    else
      match IndexOf(t, '/')
      case None =>
        var bd :- ParseDecimal(t);
        Ok(FromDecimal(bd))
      case Some(k) =>
        var n :- ParseDecimal(t[..k]);
        var d :- ParseDecimal(t[k + 1..]);
        FromDecimals(n, d)
  }

  // ---------------------------------------------------------------------------
  // Properties

  /** Lowest terms make the stored pair canonical: equal values are equal pairs. */
  lemma Canonical(a: BigFraction, b: BigFraction)
    requires a.Valid() && b.Valid() && a.Value() == b.Value()
    ensures a == b
  {
    CrossMultiply(a.numer, a.denom, b.numer, b.denom);
    CoprimeCrossEqual(a.numer, a.denom, b.numer, b.denom);
  }

  /** Between valid fractions, equal pairs and equal values are the same thing. */
  lemma ValueDetermines(a: BigFraction, b: BigFraction)
    requires a.Valid() && b.Valid()
    ensures a == b <==> a.Value() == b.Value()
  {
    if a.Value() == b.Value() { Canonical(a, b); }
  }

  /** In lowest terms the denominator is 1 exactly when it divides the numerator. */
  lemma IntegerWhenDivisible(f: BigFraction)
    requires f.Valid()
    ensures f.denom == 1 <==> f.numer % f.denom == 0
  {
    if f.numer % f.denom == 0 {
      DividesNeg(f.denom, f.numer);
      GcdWithMultiple(Arith.Abs(f.numer), f.denom);
    }
  }

  /** Negating the numerator of a reduced pair leaves it reduced. */
  lemma NegatedPair(f: BigFraction)
    requires f.Valid()
    ensures BigFraction(-f.numer, f.denom).Valid()
    ensures BigFraction(-f.numer, f.denom).Value() == -f.Value()
    ensures Reduce(-f.numer, f.denom) == BigFraction(-f.numer, f.denom)
  {
    assert (-f.numer) as real / f.denom as real == -(f.numer as real / f.denom as real);
    assert Arith.Abs(-f.numer) == Arith.Abs(f.numer);
    Canonical(Reduce(-f.numer, f.denom), BigFraction(-f.numer, f.denom));
  }

  /** Reducing a pair that is already reduced changes nothing. */
  lemma ReduceCanonical(f: BigFraction)
    requires f.Valid()
    ensures Reduce(f.numer, f.denom) == f
  {
    Canonical(Reduce(f.numer, f.denom), f);
  }

  /** `parseBigFraction(x.toString())` gives `x` back. */
  lemma ParseToString(f: BigFraction)
    requires f.Valid()
    ensures ParseBigFraction(f.ToString()) == Ok(f)
  {
    if f.IsInteger() {
      var t := IntToString(f.numer);
      NoSpaceOrSlash(f.numer);
      assert RemoveSpaces(t) == t;
      ParseIntString(f.numer);
      assert f.denom == 1;
      assert Pow10(0) == 1;
      ReduceCanonical(f);
    } else {
      ParsePair(f.numer, f.denom);
      ReduceCanonical(f);
    }
  }

  /** `parseBigFraction("a/b")` is `new BigFraction(a, b)`, including the zero-denominator error. */
  lemma ParsePair(a: int, b: int)
    ensures ParseStripped(IntToString(a) + "/" + IntToString(b)) == New(a, b)
    ensures ParseBigFraction(IntToString(a) + "/" + IntToString(b)) == New(a, b)
  {
    var x, y := IntToString(a), IntToString(b);
    NoSpaceOrSlash(a);
    NoSpaceOrSlash(b);
    PairText(x, y);
    ParseIntString(a);
    ParseIntString(b);
    FromIntegers(a, b);
  }

  /**
   * A single literal without '/' (and without spaces) is the fraction of its
   * decimal value: `parseBigFraction("2.5")` is `5/2`.
   */
  lemma ParseLiteral(t: string)
    requires ' ' !in t && '/' !in t && ParseDecimal(t).Ok?
    ensures ParseBigFraction(t) == Ok(FromDecimal(ParseDecimal(t).value))
    ensures ParseBigFraction(t).value.Value() == DecimalValue(ParseDecimal(t).value)
  {
  }

  /**
   * Two literals around one '/' are the quotient of their decimal values, a
   * denominator worth zero being `ArithmeticException`: `"2.5/3.5"` is `5/7`.
   */
  lemma ParseQuotient(x: string, y: string)
    requires ' ' !in x && '/' !in x && ' ' !in y && '/' !in y
    requires ParseDecimal(x).Ok? && ParseDecimal(y).Ok?
    ensures ParseBigFraction(x + "/" + y) == FromDecimals(ParseDecimal(x).value, ParseDecimal(y).value)
    ensures ParseBigFraction(x + "/" + y).Err? <==> DecimalValue(ParseDecimal(y).value) == 0.0
    ensures ParseBigFraction(x + "/" + y).Ok? ==>
      ParseBigFraction(x + "/" + y).value.Value()
        == DecimalValue(ParseDecimal(x).value) / DecimalValue(ParseDecimal(y).value)
  {
    QuotientText(x, y);
    DecimalZero(ParseDecimal(y).value);
  }

  lemma QuotientText(x: string, y: string)
    requires ' ' !in x && '/' !in x && ' ' !in y && '/' !in y
    requires ParseDecimal(x).Ok? && ParseDecimal(y).Ok?
    ensures ParseBigFraction(x + "/" + y) == FromDecimals(ParseDecimal(x).value, ParseDecimal(y).value)
  {
    PairText(x, y);
  }

  lemma DecimalZero(d: Decimal)
    requires d.scale >= 0
    ensures DecimalValue(d) == 0.0 <==> d.unscaled == 0
  {
    assert Pow10(d.scale) > 0;
  }

  /** `getDecimal(n)` is symmetric under negation. */
  lemma GetDecimalNegate(f: BigFraction, n: int)
    requires f.Valid()
    ensures f.Negate().GetDecimal(n) == Decimal(-f.GetDecimal(n).unscaled, n)
  {
    DivideToScaleNegate(f.numer, f.denom, n);
  }

  /**
   * As written, `toMixedString()` renders -1/2 and 1/2 alike: the integer part
   * of -1/2 is 0, which carries no sign, and the fraction part is a magnitude.
   */
  /**
   * `toMixedString()` as written, for a non-integer: the text of the integer
   * part, a space, then the text of the proper part, and each side parses
   * back to that part.
   */
  lemma MixedReadsBack(x: BigFraction)
    requires x.Valid() && !x.IsInteger()
    ensures var s := x.ToMixedStringAsWritten(); var k := |IntToString(x.IntegerPart())|;
      && k < |s| && s[k] == ' '
      && s[..k] == IntToString(x.IntegerPart())
      && s[k + 1..] == x.FractionPart().ToString()
      && ParseBigFraction(s[..k]) == Ok(FromInt(x.IntegerPart()))
      && ParseBigFraction(s[k + 1..]) == Ok(x.FractionPart())
  {
    var w, f := IntToString(x.IntegerPart()), x.FractionPart().ToString();
    var s := x.ToMixedStringAsWritten();
    assert s == w + " " + f;
    assert s[..|w|] == w && s[|w| + 1..] == f;
    ParseToString(FromInt(x.IntegerPart()));
    ParseToString(x.FractionPart());
  }

  /**
   * `toMixedString()` with the sign kept, for a non-integer: an optional `-`,
   * the text of the integer part, a space and the proper part, which parses
   * back; the `-` is there only when the integer part is 0 and carries no sign.
   */
  lemma MixedSignedReadsBack(x: BigFraction)
    requires x.Valid() && !x.IsInteger()
    ensures var s := x.ToMixedString();
      var w := (if x.numer < 0 && x.IntegerPart() == 0 then "-" else "") + IntToString(x.IntegerPart());
      && |w| < |s| && s[..|w|] == w && s[|w|] == ' '
      && ParseBigFraction(s[|w| + 1..]) == Ok(x.FractionPart())
  {
    MixedReadsBack(x);
    var sign := if x.numer < 0 && x.IntegerPart() == 0 then "-" else "";
    MixedSignedText(x);
    SignedSplit(sign, x.ToMixedStringAsWritten(), IntToString(x.IntegerPart()), x.ToMixedString());
  }

  lemma MixedSignedText(x: BigFraction)
    requires x.Valid()
    ensures x.ToMixedString()
         == (if x.numer < 0 && x.IntegerPart() == 0 then "-" else "") + x.ToMixedStringAsWritten()
  {
  }

  /**
   * The value `toMixedString()` spells: the magnitude of the integer part plus
   * the proper part, negated exactly when the text starts with `-`.
   */
  lemma MixedValue(x: BigFraction)
    requires x.Valid()
    ensures var n := Arith.Abs(x.IntegerPart()) as real + x.FractionPart().Value();
      x.Value() == if x.ToMixedString()[0] == '-' then -n else n
  {
    SignedMagnitude(x);
  }

  lemma SignedMagnitude(x: BigFraction)
    requires x.Valid()
    ensures var n := Arith.Abs(x.IntegerPart()) as real + x.FractionPart().Value();
      x.Value() == if x.numer < 0 then -n else n
  {
    AbsValue(x.numer, x.denom);
  }

  /** Splitting `sign + t` at a space of `t` shifts the positions by `|sign|`. */
  lemma SignedSplit(sign: string, t: string, w: string, s: string)
    requires |w| < |t| && t[..|w|] == w && s == sign + t
    ensures |sign + w| < |s| && s[..|sign + w|] == sign + w && s[|sign + w|] == t[|w|]
    ensures s[|sign + w| + 1..] == t[|w| + 1..]
  {
  }

  lemma MixedStringLosesSign()
    ensures BigFraction(-1, 2).Valid() && BigFraction(1, 2).Valid()
    ensures BigFraction(-1, 2).ToMixedStringAsWritten() == "0 1/2"
    ensures BigFraction(1, 2).ToMixedStringAsWritten() == "0 1/2"
  {
    assert Gcd(1, 2) == 1 by { assert Gcd(1, 2) == Gcd(2, 1) == Gcd(1, 0); }
    assert BigFraction(1, 2).FractionPart() == BigFraction(1, 2) by {
      ReduceCanonical(BigFraction(1, 2));
    }
    assert BigFraction(-1, 2).FractionPart() == BigFraction(1, 2) by {
      ReduceCanonical(BigFraction(1, 2));
    }
    assert IntToString(0) == "0" && IntToString(1) == "1" && IntToString(2) == "2";
  }

  /**
   * As written, `pow(Integer.MIN_VALUE)` fails for every base, while the
   * exponent it means is defined at least for 1.
   */
  lemma PowMinValueRejected()
    ensures OneFraction().PowAsWritten(-0x8000_0000) == Err(NegativeExponent)
    ensures OneFraction().Pow(-0x8000_0000) == Ok(OneFraction())
  {
    PowerOne(0x8000_0000);
    GcdOne(1);
    ReduceCanonical(BigFraction(1, 1));
  }

  lemma {:induction false} PowerOne(e: nat)
    ensures Power(1, e) == 1
  {
    if e > 0 { PowerOne(e - 1); }
  }

  /** `a.add(b).sub(b) == a`: no drift, since results are exact and canonical. */
  lemma AddSubCancel(a: BigFraction, b: BigFraction)
    requires a.Valid() && b.Valid()
    ensures a.Add(b).Sub(b) == a
  {
    Canonical(a.Add(b).Sub(b), a);
  }

  // ---------------------------------------------------------------------------
  // Helpers for the proofs above

  lemma SumValue(n1: int, d1: int, n2: int, d2: int)
    requires d1 != 0 && d2 != 0
    ensures d1 * d2 != 0
    ensures (n1 * d2 + n2 * d1) as real / (d1 * d2) as real == n1 as real / d1 as real + n2 as real / d2 as real
  {
    var a, b, c, d := n1 as real, d1 as real, n2 as real, d2 as real;
    assert (n1 * d2 + n2 * d1) as real == a * d + c * b;
    assert (d1 * d2) as real == b * d;
  }

  lemma DifferenceValue(n1: int, d1: int, n2: int, d2: int)
    requires d1 != 0 && d2 != 0
    ensures d1 * d2 != 0
    ensures (n1 * d2 - n2 * d1) as real / (d1 * d2) as real == n1 as real / d1 as real - n2 as real / d2 as real
  {
    var a, b, c, d := n1 as real, d1 as real, n2 as real, d2 as real;
    assert (n1 * d2 - n2 * d1) as real == a * d - c * b;
    assert (d1 * d2) as real == b * d;
  }

  lemma ProductValue(n1: int, d1: int, n2: int, d2: int)
    requires d1 != 0 && d2 != 0
    ensures d1 * d2 != 0
    ensures (n1 * n2) as real / (d1 * d2) as real == (n1 as real / d1 as real) * (n2 as real / d2 as real)
  {
    var a, b, c, d := n1 as real, d1 as real, n2 as real, d2 as real;
    assert (n1 * n2) as real == a * c;
    assert (d1 * d2) as real == b * d;
  }

  lemma QuotientValue(n1: int, d1: int, n2: int, d2: int)
    requires d1 != 0 && d2 != 0
    ensures d1 * n2 == 0 <==> n2 == 0
    ensures n2 != 0 ==> (n1 * d2) as real / (d1 * n2) as real == (n1 as real / d1 as real) / (n2 as real / d2 as real)
  {
    if n2 != 0 {
      var a, b, c, d := n1 as real, d1 as real, n2 as real, d2 as real;
      assert (n1 * d2) as real == a * d;
      assert (d1 * n2) as real == b * c;
    }
  }

  lemma ZeroValue(f: BigFraction)
    requires f.denom > 0
    ensures f.Value() == 0.0 <==> f.numer == 0
  {
  }

  ghost function RealAbs(x: real): real
  {
    if x < 0.0 then -x else x
  }

  ghost function RealPow(x: real, e: nat): real
  {
    if e == 0 then 1.0 else x * RealPow(x, e - 1)
  }

  /** Java's `i = -i` on a 32-bit `int`: `Integer.MIN_VALUE` stays negative. */
  function Int32Negate(i: int): (r: int)
    requires -0x8000_0000 <= i < 0x8000_0000
    ensures -0x8000_0000 <= r < 0x8000_0000
    ensures i != -0x8000_0000 ==> r == -i
  {
    if i == -0x8000_0000 then i else -i
  }

  lemma {:induction false} PowerValue(n: int, d: int, e: nat)
    requires d != 0
    ensures Power(d, e) != 0
    ensures Power(n, e) as real / Power(d, e) as real == RealPow(n as real / d as real, e)
  {
    if e > 0 {
      PowerValue(n, d, e - 1);
      var a, b := Power(n, e - 1), Power(d, e - 1);
      assert Power(n, e) == n * a && Power(d, e) == d * b;
      QuotientOfProducts(n, a, d, b);
    }
  }

  /** `(n·a)/(d·b) = (n/d)·(a/b)`, with `d·b` non-zero. */
  lemma QuotientOfProducts(n: int, a: int, d: int, b: int)
    requires d != 0 && b != 0
    ensures d * b != 0
    ensures (n * a) as real / (d * b) as real == (n as real / d as real) * (a as real / b as real)
  {
    CastMul(n, a);
    CastMul(d, b);
    RealQuotientOfProducts(n as real, a as real, d as real, b as real);
  }

  lemma RealQuotientOfProducts(n: real, a: real, d: real, b: real)
    requires d != 0.0 && b != 0.0
    ensures d * b != 0.0 && (n * a) / (d * b) == (n / d) * (a / b)
  {
  }

  /** What `pow` needs about `n^e` and `d^e`. */
  lemma PowFacts(n: int, d: int, e: nat)
    requires d != 0
    ensures Power(d, e) != 0
    ensures Power(n, e) == 0 <==> n == 0 && e > 0
    ensures Power(n, e) as real / Power(d, e) as real == RealPow(n as real / d as real, e)
    ensures Power(n, e) != 0 ==>
              (Power(d, e) as real / Power(n, e) as real) * RealPow(n as real / d as real, e) == 1.0
    ensures e == 0 ==> Reduce(Power(n, e), Power(d, e)) == BigFraction(1, 1)
  {
    PowerValue(n, d, e);
    if Power(n, e) != 0 {
      InverseProduct(Power(n, e), Power(d, e));
    }
    if e == 0 {
      GcdOne(1);
      ReduceCanonical(BigFraction(1, 1));
    }
  }

  lemma ExactTruncDiv(a: int, g: int)
    requires g > 0 && Divides(g, Arith.Abs(a))
    ensures TruncDiv(a, g) * g == a
    ensures Arith.Abs(TruncDiv(a, g)) == Arith.Abs(a) / g
  {
    DividesQuotient(g, Arith.Abs(a));
  }

  lemma ScaledValue(n1: int, d1: int, g: int)
    requires g > 0 && d1 * g != 0
    ensures d1 != 0
    ensures n1 as real / d1 as real == (n1 * g) as real / (d1 * g) as real
    ensures (-n1) as real / (-d1) as real == n1 as real / d1 as real
  {
  }

  lemma CrossMultiply(n1: int, d1: int, n2: int, d2: int)
    requires d1 > 0 && d2 > 0
    ensures (n1 as real / d1 as real == n2 as real / d2 as real) <==> n1 * d2 == n2 * d1
  {
    var x, y := n1 as real / d1 as real, n2 as real / d2 as real;
    assert x * d1 as real == n1 as real;
    assert y * d2 as real == n2 as real;
    assert (n1 * d2) as real == x * (d1 * d2) as real;
    assert (n2 * d1) as real == y * (d1 * d2) as real;
  }

  lemma CrossCompare(n1: int, d1: int, n2: int, d2: int)
    requires d1 > 0 && d2 > 0
    ensures (n1 as real / d1 as real < n2 as real / d2 as real) <==> n1 * d2 < n2 * d1
    ensures (n1 as real / d1 as real == n2 as real / d2 as real) <==> n1 * d2 == n2 * d1
  {
    CrossMultiply(n1, d1, n2, d2);
    var x, y := n1 as real / d1 as real, n2 as real / d2 as real;
    assert (n1 * d2) as real == x * (d1 * d2) as real;
    assert (n2 * d1) as real == y * (d1 * d2) as real;
    MulPositive(d1, d2);
  }

  lemma SameSign(n1: int, d1: int, n2: int, d2: int)
    requires d1 > 0 && d2 > 0 && n1 * d2 == n2 * d1
    ensures (n1 < 0) == (n2 < 0)
  {
    if n1 < 0 { MulPositive(-n1, d2); }
    if n2 < 0 { MulPositive(-n2, d1); }
    if n1 > 0 { MulPositive(n1, d2); }
    if n2 > 0 { MulPositive(n2, d1); }
  }

  /** Coprime pairs with equal cross products are equal. */
  lemma CoprimeCrossEqual(n1: int, d1: int, n2: int, d2: int)
    requires d1 > 0 && d2 > 0 && n1 * d2 == n2 * d1
    requires Gcd(Arith.Abs(n1), d1) == 1 && Gcd(Arith.Abs(n2), d2) == 1
    requires (n1 == 0 ==> d1 == 1) && (n2 == 0 ==> d2 == 1)
    ensures n1 == n2 && d1 == d2
  {
    if n1 == 0 {
      ZeroProduct(n2, d1);
    } else {
      SameSign(n1, d1, n2, d2);
      AbsCross(n1, d1, n2, d2);
      CoprimeMagnitudes(Arith.Abs(n1), d1, Arith.Abs(n2), d2);
    }
  }

  lemma ZeroProduct(n: int, d: int)
    requires d > 0 && n * d == 0
    ensures n == 0
  {
    if n > 0 { MulPositive(n, d); } else if n < 0 { MulPositive(-n, d); }
  }

  /** Equal cross products of same-signed numerators give equal cross products of magnitudes. */
  lemma AbsCross(n1: int, d1: int, n2: int, d2: int)
    requires n1 * d2 == n2 * d1 && (n1 < 0) == (n2 < 0)
    ensures Arith.Abs(n1) * d2 == Arith.Abs(n2) * d1
  {
    if n1 < 0 {
      assert Arith.Abs(n1) * d2 == -(n1 * d2);
      assert Arith.Abs(n2) * d1 == -(n2 * d1);
    }
  }

  /** Coprime magnitude pairs with equal cross products are equal. */
  lemma CoprimeMagnitudes(p: nat, d1: int, r: nat, d2: int)
    requires d1 > 0 && d2 > 0 && p * d2 == r * d1
    requires Gcd(p, d1) == 1 && Gcd(r, d2) == 1
    ensures p == r && d1 == d2
  {
    MutualDivisor(p, d1, r, d2);
    MutualDivisor(r, d2, p, d1);
    DividesAntisymmetric(d1, d2);
    assert d1 * p == d1 * r;
    ScaleCancel(d1, p, r);
  }

  /** With `gcd(p, d1) == 1`, `p·d2 == r·d1` makes `d1` a divisor of `d2`. */
  lemma MutualDivisor(p: nat, d1: int, r: nat, d2: int)
    requires d1 > 0 && d2 > 0 && Gcd(p, d1) == 1 && p * d2 == r * d1
    ensures Divides(d1, d2)
  {
    DividesMul(d1, r);
    assert d1 * r == p * d2;
    CoprimeDividesFactor(d1, p, d2);
  }

  /** The text `x/y` for two slash-free, space-free nonempty strings. */
  lemma PairText(x: string, y: string)
    requires |x| > 0 && |y| > 0
    requires ' ' !in x && '/' !in x && ' ' !in y && '/' !in y
    ensures RemoveSpaces(x + "/" + y) == x + "/" + y
    ensures (x + "/" + y)[0] != '/' && (x + "/" + y)[|x + "/" + y| - 1] != '/'
    ensures IndexOf(x + "/" + y, '/') == Some(|x|)
    ensures (x + "/" + y)[..|x|] == x && (x + "/" + y)[|x| + 1..] == y
  {
    var t := x + "/" + y;
    PairNoSpace(x, y, t);
    PairSlices(x, y);
    assert t == x + ("/" + y);
    IndexOfConcat(x, "/" + y, '/');
  }

  lemma PairSlices(x: string, y: string)
    requires |x| > 0 && |y| > 0
    ensures (x + "/" + y)[0] == x[0] && (x + "/" + y)[|x + "/" + y| - 1] == y[|y| - 1]
    ensures (x + "/" + y)[..|x|] == x && (x + "/" + y)[|x| + 1..] == y
  {
  }

  lemma PairNoSpace(x: string, y: string, t: string)
    requires ' ' !in x && ' ' !in y && t == x + "/" + y
    ensures ' ' !in t
  {
    forall k | 0 <= k < |t| ensures t[k] != ' ' {
      if k < |x| { assert t[k] == x[k]; } else if k > |x| { assert t[k] == y[k - |x| - 1]; }
    }
  }

  /** Two integer-valued decimals of scale 0 build the same fraction as the integer constructor. */
  lemma FromIntegers(a: int, b: int)
    ensures FromDecimals(Decimal(a, 0), Decimal(b, 0)) == New(a, b)
  {
    assert Pow10(0) == 1;
  }

  lemma InverseProduct(x: int, y: int)
    requires x != 0 && y != 0
    ensures (y as real / x as real) * (x as real / y as real) == 1.0
  {
  }

  /** `k·d <= n` and `k·d < n` read as comparisons of `k` with `n/d`. */
  lemma ScaledCompare(k: int, n: int, d: int)
    requires d > 0
    ensures k * d <= n <==> k as real <= n as real / d as real
    ensures k * d < n <==> k as real < n as real / d as real
  {
    CrossCompare(k, 1, n, d);
  }

  lemma ProperBound(n: int, d: int)
    requires d > 0
    ensures (Arith.Abs(n) < d) <==> (-1.0 < n as real / d as real < 1.0)
  {
    CrossCompare(n, d, 1, 1);
    CrossCompare(-1, 1, n, d);
  }

  lemma AbsValue(n: int, d: int)
    requires d > 0
    ensures RealAbs(n as real / d as real) == Arith.Abs(n) as real / d as real
  {
  }

  lemma FloorBounds(n: int, d: int, r: int)
    requires d > 0
    requires r == if n < 0 then TruncDiv(n - d + 1, d) else TruncDiv(n, d)
    ensures r * d <= n < (r + 1) * d
  {
    var m := if n < 0 then n - d + 1 else n;
    MagnitudeProduct(r, d, r * d, Arith.Abs(r) * d);
    SuccessorProduct(Arith.Abs(r), d, Arith.Abs(r) * d, (Arith.Abs(r) + 1) * d);
    SuccessorProduct(r, d, r * d, (r + 1) * d);
    assert Arith.Abs(r) * d <= Arith.Abs(m) < (Arith.Abs(r) + 1) * d;
  }

  lemma CeilBounds(n: int, d: int, r: int)
    requires d > 0
    requires r == if n > 0 then TruncDiv(n + d - 1, d) else TruncDiv(n, d)
    ensures (r - 1) * d < n <= r * d
  {
    var m := if n > 0 then n + d - 1 else n;
    MagnitudeProduct(r, d, r * d, Arith.Abs(r) * d);
    SuccessorProduct(Arith.Abs(r), d, Arith.Abs(r) * d, (Arith.Abs(r) + 1) * d);
    SuccessorProduct(r - 1, d, (r - 1) * d, r * d);
    assert Arith.Abs(r) * d <= Arith.Abs(m) < (Arith.Abs(r) + 1) * d;
  }

  /** `|x| * d` is `x * d` or its negation, for a positive `d`. */
  lemma MagnitudeProduct(x: int, d: int, xd: int, ad: int)
    requires d > 0 && xd == x * d && ad == Arith.Abs(x) * d
    ensures ad == (if x < 0 then -xd else xd)
  {
  }

  lemma SuccessorProduct(x: int, d: int, xd: int, sd: int)
    requires xd == x * d && sd == (x + 1) * d
    ensures sd == xd + d
  {
  }

  lemma FractionPartValue(m: nat, d: int)
    requires d > 0
    ensures (m % d) as real / d as real + (m / d) as real == m as real / d as real
    ensures 0.0 <= (m % d) as real / d as real < 1.0
  {
    assert m == d * (m / d) + m % d;
    CrossCompare(m % d, d, 1, 1);
  }

  lemma AlignedValue(n: Decimal, d: Decimal, scale: nat)
    requires n.scale >= 0 && d.scale >= 0 && n.scale <= scale && d.scale <= scale
    requires d.unscaled != 0
    ensures d.unscaled * Pow10(scale - d.scale) != 0
    ensures (n.unscaled * Pow10(scale - n.scale)) as real / (d.unscaled * Pow10(scale - d.scale)) as real
            == DecimalValue(n) / DecimalValue(d)
  {
    ShiftValue(n.unscaled, scale - n.scale, n.scale);
    ShiftValue(d.unscaled, scale - d.scale, d.scale);
    var pd := Pow10(scale - d.scale);
    assert d.unscaled * pd != 0 by {
      if d.unscaled > 0 { MulPositive(d.unscaled, pd); } else { MulPositive(-d.unscaled, pd); }
    }
    CommonDenominator((n.unscaled * Pow10(scale - n.scale)) as real, (d.unscaled * pd) as real, Pow10(scale) as real);
  }

  lemma ShiftValue(u: int, k: nat, s: nat)
    ensures (u * Pow10(k)) as real / Pow10(k + s) as real == u as real / Pow10(s) as real
  {
    Pow10Add(k, s);
    CastMul(u, Pow10(k));
    CastMul(Pow10(k), Pow10(s));
    CancelFactor(u as real, Pow10(k) as real, Pow10(s) as real);
  }

  lemma CastMul(x: int, y: int)
    ensures (x * y) as real == x as real * y as real
  {
  }

  lemma CancelFactor(u: real, a: real, b: real)
    requires a != 0.0 && b != 0.0
    ensures (u * a) / (a * b) == u / b
  {
  }

  lemma CommonDenominator(x: real, y: real, p: real)
    requires y != 0.0 && p != 0.0
    ensures x / y == (x / p) / (y / p)
  {
  }

  lemma {:induction false} Pow10Add(a: nat, b: nat)
    ensures Pow10(a + b) == Pow10(a) * Pow10(b)
  {
    if a > 0 {
      Pow10Add(a - 1, b);
    }
  }

  lemma NoSpaceOrSlash(i: int)
    ensures ' ' !in IntToString(i) && '/' !in IntToString(i)
  {
    var s := IntToString(i);
    var digits := NatToString(Arith.Abs(i));
    assert forall k :: 0 <= k < |digits| ==> IsDigit(digits[k]);
    assert s == digits || s == "-" + digits;
    assert forall k :: 0 <= k < |s| ==> s[k] != ' ' && s[k] != '/' by {
      forall k | 0 <= k < |s| ensures s[k] != ' ' && s[k] != '/' {
        if s != digits { if k > 0 { assert s[k] == digits[k - 1]; } }
      }
    }
  }
}
