/**
 * Concrete `BigFraction` facts from the unit tests, derived from the model.
 */
module FractionExamples {
  import opened Results
  import opened Arith
  import opened Text
  import opened Decimals
  import opened Fractions

  /** `new BigFraction(10, -9)` is stored as -10/9; 6/8 is stored as 3/4. */
  lemma ConstructorNormalises()
    ensures New(10, -9) == Ok(BigFraction(-10, 9))
    ensures New(6, 8) == New(3, 4) == Ok(BigFraction(3, 4))
    ensures New(1, 0) == Err(DivByZero)
    ensures FromDecimals(Decimal(10, 1), Decimal(0, 1)) == Err(DivByZero)
  {
    Canonical(Reduce(10, -9), BigFraction(-10, 9));
    assert Gcd(10, 9) == Gcd(9, 1) == Gcd(1, 0) == 1;
    assert Gcd(3, 4) == Gcd(4, 3) == Gcd(3, 1) == Gcd(1, 0) == 1;
    Canonical(Reduce(6, 8), BigFraction(3, 4));
    Canonical(Reduce(3, 4), BigFraction(3, 4));
  }

  /** Floor and ceiling of 4/3 and -4/3. */
  lemma FloorCeilExamples()
    ensures BigFraction(4, 3).Valid() && BigFraction(-4, 3).Valid()
    ensures BigFraction(4, 3).Floor() == 1 && BigFraction(-4, 3).Floor() == -2
    ensures BigFraction(4, 3).Ceil() == 2 && BigFraction(-4, 3).Ceil() == -1
    ensures BigFraction(4, 3).IntegerPart() == 1 && BigFraction(-4, 3).IntegerPart() == -1
  {
    assert Gcd(4, 3) == Gcd(3, 1) == Gcd(1, 0) == 1;
  }

  /** 5/3 rounds to 2, and to 1.667 and -1.667 at three digits. */
  lemma RoundingExamples()
    ensures BigFraction(5, 3).Valid()
    ensures BigFraction(5, 3).Round() == 2
    ensures BigFraction(5, 3).GetDecimal(3) == Decimal(1667, 3)
    ensures BigFraction(5, 3).Negate().GetDecimal(3) == Decimal(-1667, 3)
  {
    assert Gcd(5, 3) == Gcd(3, 2) == Gcd(2, 1) == Gcd(1, 0) == 1;
    assert Pow10(3) == 1000;
    GetDecimalNegate(BigFraction(5, 3), 3);
  }

  /** `parseBigFraction` strips spaces: "2 / 3" is 2/3. */
  lemma ParseSpaced()
    ensures ParseBigFraction("2 / 3") == New(2, 3)
  {
    SpacesRemoved();
    assert "2/3" == IntToString(2) + "/" + IntToString(3);
    ParseSpacedPair("2 / 3", 2, 3);
  }

  /** A text that reads `a/b` once its spaces are gone parses as `a/b`. */
  lemma ParseSpacedPair(s: string, a: int, b: int)
    requires RemoveSpaces(s) == IntToString(a) + "/" + IntToString(b)
    ensures ParseBigFraction(s) == New(a, b)
  {
    ParsePair(a, b);
  }

  lemma SpacesRemoved()
    ensures RemoveSpaces("2 / 3") == "2/3"
  {
    assert RemoveSpaces("3") == "3";
    assert RemoveSpaces(" 3") == "3";
    assert RemoveSpaces("/ 3") == "/3";
    assert RemoveSpaces(" / 3") == "/3";
  }

  /** `parseBigFraction("2")` is the integer 2. */
  lemma ParseInteger()
    ensures ParseBigFraction("2") == Ok(BigFraction(2, 1))
  {
    IntegerLiteral("", "2");
    assert "" + "2" == "2";
    ParseLiteral("2");
    assert Pow10(0) == 1;
    assert Gcd(2, 1) == Gcd(1, 0) == 1;
    Canonical(ParseBigFraction("2").value, BigFraction(2, 1));
  }

  /** `parseBigFraction("2.5")` is 5/2. */
  lemma ParseDecimalPoint()
    ensures ParseBigFraction("2.5") == Ok(BigFraction(5, 2))
  {
    DigitsTwoPointFive();
    LiteralValue("2.5", 2.5);
    FiveHalves(ParseBigFraction("2.5").value);
  }

  /** A literal without spaces or '/' parses as the fraction of its value. */
  lemma LiteralValue(t: string, a: real)
    requires ' ' !in t && '/' !in t && ParseDecimal(t).Ok? && DecimalValue(ParseDecimal(t).value) == a
    ensures var r := ParseBigFraction(t); r.Ok? && r.value.Valid() && r.value.Value() == a
  {
    ParseLiteral(t);
  }

  lemma FiveHalves(f: BigFraction)
    requires f.Valid() && f.Value() == 2.5
    ensures f == BigFraction(5, 2)
  {
    assert Gcd(5, 2) == Gcd(2, 1) == Gcd(1, 0) == 1;
    Canonical(f, BigFraction(5, 2));
  }

  /** `parseBigFraction("2.5 / 3.5")` is 5/7. */
  lemma ParseDecimalQuotient()
    ensures ParseBigFraction("2.5 / 3.5") == Ok(BigFraction(5, 7))
  {
    QuotientText();
    DecimalQuotientValue();
    FiveSevenths(ParseBigFraction("2.5" + " / " + "3.5").value);
  }

  lemma QuotientText()
    ensures "2.5 / 3.5" == "2.5" + " / " + "3.5"
  {
  }

  lemma DecimalQuotientValue()
    ensures var r := ParseBigFraction("2.5" + " / " + "3.5"); r.Ok? && r.value.Valid() && r.value.Value() == 2.5 / 3.5
  {
    DigitsTwoPointFive();
    DigitsThreePointFive();
    assert ' ' !in "2.5" && '/' !in "2.5" && ' ' !in "3.5" && '/' !in "3.5";
    SpacedQuotient("2.5", "3.5", 2.5, 3.5);
  }

  lemma FiveSevenths(f: BigFraction)
    requires f.Valid() && f.Value() == 2.5 / 3.5
    ensures f == BigFraction(5, 7)
  {
    assert Gcd(5, 7) == Gcd(7, 5) == Gcd(5, 2) == Gcd(2, 1) == Gcd(1, 0) == 1;
    Canonical(f, BigFraction(5, 7));
  }

  /** `x / y` with spaces around the slash parses as the quotient of the values of `x` and `y`. */
  lemma SpacedQuotient(x: string, y: string, a: real, b: real)
    requires ' ' !in x && '/' !in x && ' ' !in y && '/' !in y
    requires ParseDecimal(x).Ok? && DecimalValue(ParseDecimal(x).value) == a
    requires ParseDecimal(y).Ok? && DecimalValue(ParseDecimal(y).value) == b && b != 0.0
    ensures var r := ParseBigFraction(x + " / " + y); r.Ok? && r.value.Valid() && r.value.Value() == a / b
  {
    SpacedSlash(x, y);
    ParseQuotient(x, y);
  }

  /** Spaces around a '/' between two space-free texts disappear. */
  lemma SpacedSlash(x: string, y: string)
    requires ' ' !in x && ' ' !in y
    ensures RemoveSpaces(x + " / " + y) == x + "/" + y
  {
    assert x + " / " + y == x + (" / " + y);
    assert " / " + y == [' '] + (['/'] + ([' '] + y));
    RemoveSpacesConcat(x, " / " + y);
    RemoveSpacesConcat([' '], ['/'] + ([' '] + y));
    RemoveSpacesConcat(['/'], [' '] + y);
    RemoveSpacesConcat([' '], y);
    RemoveSpacesChar(' ');
    RemoveSpacesChar('/');
  }

  lemma DigitsTwoPointFive()
    ensures ParseDecimal("2.5").Ok? && DecimalValue(ParseDecimal("2.5").value) == 2.5
  {
    assert IsDigit('2') && IsDigit('5');
    DottedLiteral("", "2", "5");
    assert "" + "2" + "." + "5" == "2.5";
    assert Pow10(1) == 10;
  }

  lemma DigitsThreePointFive()
    ensures ParseDecimal("3.5").Ok? && DecimalValue(ParseDecimal("3.5").value) == 3.5
  {
    assert IsDigit('3') && IsDigit('5');
    DottedLiteral("", "3", "5");
    assert "" + "3" + "." + "5" == "3.5";
    assert Pow10(1) == 10;
  }

  /** `parseBigFraction("1/0")` fails with an arithmetic error. */
  lemma ParseZeroDenominator()
    ensures ParseBigFraction("1/0") == Err(DivByZero)
  {
    PairLiteral("1/0", 1, 0);
    assert New(1, 0) == Err(DivByZero);
  }

  /** A text spelling `a/b` parses as `a/b`. */
  lemma PairLiteral(s: string, a: int, b: int)
    requires s == IntToString(a) + "/" + IntToString(b)
    ensures ParseBigFraction(s) == New(a, b)
  {
    ParsePair(a, b);
  }

  /** Empty text and a leading or trailing '/' are rejected before any number is read. */
  lemma ParseRejects()
    ensures ParseBigFraction("") == Err(InvalidFormat)
    ensures ParseBigFraction("/") == Err(InvalidFormat)
    ensures ParseBigFraction("/2") == Err(InvalidFormat)
    ensures ParseBigFraction("2/") == Err(InvalidFormat)
  {
    assert RemoveSpaces("/") == "/";
    assert RemoveSpaces("/2") == "/2";
    assert RemoveSpaces("2/") == "2/";
  }

  lemma Reduced()
    ensures BigFraction(3, 4).Valid() && BigFraction(-3, 4).Valid()
    ensures BigFraction(9, 8).Valid() && BigFraction(-9, 8).Valid() && BigFraction(1, 8).Valid()
  {
    assert Gcd(3, 4) == Gcd(4, 3) == Gcd(3, 1) == Gcd(1, 0) == 1;
    assert Gcd(9, 8) == Gcd(8, 1) == Gcd(1, 0) == 1;
    assert Gcd(1, 8) == Gcd(8, 1) == 1;
  }

  /** `toString` on 3/4 and -3/4. */
  lemma TextExamples()
    ensures BigFraction(3, 4).Valid() && BigFraction(-3, 4).Valid()
    ensures BigFraction(3, 4).ToString() == "3/4"
    ensures BigFraction(-3, 4).ToString() == "-3/4"
  {
    Reduced();
    assert IntToString(3) == "3" && IntToString(4) == "4" && IntToString(-3) == "-3";
  }

  /** `toMixedString` on 9/8 and -9/8. */
  lemma MixedTextExamples()
    ensures BigFraction(9, 8).Valid() && BigFraction(-9, 8).Valid()
    ensures BigFraction(9, 8).ToMixedString() == "1 1/8"
    ensures BigFraction(-9, 8).ToMixedString() == "-1 1/8"
    ensures BigFraction(9, 8).ToMixedStringAsWritten() == "1 1/8"
    ensures BigFraction(-9, 8).ToMixedStringAsWritten() == "-1 1/8"
  {
    Reduced();
    ReduceCanonical(BigFraction(1, 8));
    assert IntToString(1) == "1" && IntToString(-1) == "-1" && IntToString(8) == "8";
  }
}
