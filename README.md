# Calculator core: exact fractions, tokenizer, parser and expression trees

This project models the core of a small Java calculator and proves properties of
the model. The core has five parts.

- `model.BigFraction` is an exact rational number. It is always kept in lowest
  terms with a positive denominator, and zero is stored as `0/1`. It offers
  arithmetic, comparison, `pow`, integer and decimal conversions, a text form
  and a parser.
- `parser.Reader` is a tokenizer with a mutable read position over a `char[]`.
  Its `read()` consumes one token. Its `peek()` announces the first character
  of the next token without moving.
- `parser.Parser` is a recursive-descent parser. It has two precedence levels,
  unary minus, implicit multiplication before `(` and parenthesised
  sub-expressions, and it builds left-associative `Term` trees.
- `model.Term` is an expression tree node. `calc()`, `calc(n)` and
  `calcInteger()` evaluate it. `toString()` prints it in prefix notation such
  as `add(1, mul(2, 3))`.
- `model.Symbol` and `model.Type` are the tokens and their four kinds.

How each part is modelled:

- A `BigFraction` never changes after its constructor has run. It is a datatype
  value (`Fractions.BigFraction`) with the invariant `Valid()`, and `Value()`
  gives its exact meaning as a `real`.
- The constructors are functions. `reduceFraction`, which updates the two fields
  in place, is also the method `Fractions.ReduceFraction`. That method is proved
  to end with the pair the function `Fractions.Reduce` describes.
- The tokenizer and the parser keep their imperative form.
  - `Readers.Reader` is a class over an `array<char>` with a `pos` field.
  - The parser's methods (`Parsers`) run the Java loops on a shared reader.
  - Each method is proved equal to a pure specification function, the scans in
    `Readers` and the grammar in `Grammar`, and the examples and properties are
    proved on those functions.
- Trees and symbols are datatypes.
  - `Terms.Calc` is proved to agree with an independent exact-arithmetic
    semantics, `Terms.Denote`.
  - `Term.toString()` is proved to lose no information: `TermText` has a reader
    for the prefix notation, and it reads every parsed tree's printed form back
    to the same tree.
- Exceptions are the `Err` case of `Results.Result`. `ArithmeticException` is
  `DivByZero`, or `NegativeExponent` for `BigInteger.pow`.
  `IllegalArgumentException` and `NumberFormatException` are `InvalidFormat`.
  `ExpressionParseException` is `ParseError`, and `IllegalStateException` is
  `IllegalState`.
- `BigInteger` is `int`. `BigInteger.divide` truncates toward zero, which is
  `Arith.TruncDiv`, since Dafny's `/` is Euclidean.
- A `BigDecimal` is a pair of an unscaled value and a scale (`Decimals.Decimal`).

Notes on the code:

- `round()` is `getDecimal(0)`, which rounds with `HALF_UP` at scale 0: halves
  go away from zero, as its documentation says.
- `parseBigFraction` reads each side with `new BigDecimal(String)`, which also
  accepts a leading `+`, so the literal grammar allows an optional `+` or `-`.
- `parseBigFraction` is documented for the form "real / real". A side may be
  any decimal literal, such as `2.5`, and its exact value is used.
- `Term` calls `label.symbol()` and `label.type()`, which `Symbol.java` does not
  declare. These are modelled as reads of the two fields `symbol` and `type`.
- The `Type` enum's source is not part of this model. It is the four-valued
  datatype `Symbols.Type`, whose constants' names are those its test looks up.

## Model

| member | source | states |
|---|---|---|
| Arith.TruncDiv | src/model/BigFraction.java:574 | `BigInteger.divide`: the quotient's magnitude is the floor of `|a|/|b|`, and its sign is that of `a/b` (truncation toward zero) |
| Arith.Gcd | src/model/BigFraction.java:692 | `BigInteger.gcd` on the magnitudes: positive unless both numbers are 0 |
| Arith.Power | src/model/BigFraction.java:469-470 | `BigInteger.pow`: the power is 0 exactly when the base is 0 and the exponent positive |
| Arith.Pow10 | src/model/BigFraction.java:112 | `BigInteger.TEN.pow(scale)` is positive |
| Arith.GcdDivides | src/model/BigFraction.java:692 | the gcd `reduceFraction` divides by is a common divisor of both magnitudes |
| Arith.GcdGreatest | src/model/BigFraction.java:692 | every common divisor divides the gcd |
| Arith.CoprimeQuotients | src/model/BigFraction.java:692-694 | dividing both numbers by their gcd leaves coprime numbers |
| Fractions.Reduce | src/model/BigFraction.java:687-699 | `reduceFraction` yields a valid pair (positive denominator, lowest terms, zero as 0/1) with the value `n/d` |
| Fractions.ReduceFraction | src/model/BigFraction.java:687-699 | the in-place field updates of `reduceFraction` end with exactly the pair `Reduce` gives |
| Fractions.Canonical | src/model/BigFraction.java:687-699 | two valid fractions with the same value are the same pair, so the stored form is canonical |
| Fractions.ValueDetermines | src/model/BigFraction.java:484-488 | between valid fractions, equal fields and equal values coincide, so `3/4` equals `6/8` |
| Fractions.New | src/model/BigFraction.java:73-78 | the `(BigInteger, BigInteger)` constructor fails with an arithmetic error exactly when `d == 0`; otherwise it gives a valid fraction of value `n/d` |
| Fractions.FromInt | src/model/BigFraction.java:85-87 | the `BigInteger` constructor gives the valid pair `i/1` |
| Fractions.ZeroFraction | src/model/BigFraction.java:13 | `ZERO` is valid with value 0 |
| Fractions.OneFraction | src/model/BigFraction.java:14 | `ONE` is valid with value 1 |
| Fractions.FromDecimal | src/model/BigFraction.java:109-114 | the `BigDecimal` constructor gives a valid fraction with the decimal's exact value |
| Fractions.FromDecimals | src/model/BigFraction.java:95-102 | the `(BigDecimal, BigDecimal)` constructor fails exactly when the denominator's value is zero; otherwise it gives the exact quotient of the two decimals |
| Fractions.ReduceCanonical | src/model/BigFraction.java:121-123 | the copy constructor re-reduces a valid pair and gets the same pair |
| Fractions.ParseBigFraction | src/model/BigFraction.java:217-228 | whatever `parseBigFraction` accepts is a valid fraction |
| Fractions.ParseStripped | src/model/BigFraction.java:221-227 | an empty text, or one that starts or ends with `/`, is a format error; every accepted text gives a valid fraction |
| Fractions.ParsePair | src/model/BigFraction.java:223-227 | `parseBigFraction("a/b")` is `new BigFraction(a, b)`, including the arithmetic error for `b == 0` |
| Fractions.ParseLiteral | src/model/BigFraction.java:223-224 | a text without `/` parses as the fraction of its decimal value |
| Fractions.ParseQuotient | src/model/BigFraction.java:223-227 | `x/y` with two decimal literals is the two-decimal constructor on them: an arithmetic error exactly when `y` is worth 0, otherwise the exact quotient of their values |
| Fractions.ParseToString | src/model/BigFraction.java:614-616 | `parseBigFraction(x.toString())` gives `x` back for every fraction |
| Fractions.BigFraction.Add | src/model/BigFraction.java:296-300 | the result is valid and its value is the exact sum |
| Fractions.BigFraction.Sub | src/model/BigFraction.java:348-352 | the result is valid and its value is the exact difference |
| Fractions.BigFraction.Mul | src/model/BigFraction.java:400-404 | the result is valid and its value is the exact product |
| Fractions.BigFraction.Div | src/model/BigFraction.java:452-456 | fails with an arithmetic error exactly when the divisor's value is 0; otherwise the result is valid and its value is the exact quotient |
| Fractions.AddSubCancel | src/model/BigFraction.java:296-352 | `a.add(b).sub(b)` is `a` exactly |
| Fractions.BigFraction.Pow | src/model/BigFraction.java:466-472 | for `i >= 0` the value is `x^i`; `x^0` is 1 even for `x == 0`; for `i < 0` it fails exactly when `x` is 0 and otherwise times `x^-i` gives 1 |
| Fractions.BigFraction.PowAsWritten | src/model/BigFraction.java:466-472 | with the 32-bit negation of `i`, it agrees with `Pow` for every `i` except `Integer.MIN_VALUE`, where it fails |
| Fractions.Int32Negate | src/model/BigFraction.java:468 | Java `i = -i` on an `int` stays in range and is `-i` except at `Integer.MIN_VALUE` |
| Fractions.PowMinValueRejected | src/model/BigFraction.java:466-472 | `ONE.pow(Integer.MIN_VALUE)` fails as written, while the exponent it means gives `ONE` |
| Fractions.BigFraction.CompareTo | src/model/BigFraction.java:480-482 | returns -1, 0 or 1, each exactly when the value is less than, equal to or greater than the argument's |
| Fractions.BigFraction.Equals | src/model/BigFraction.java:484-488 | true exactly when the argument is a fraction with the same value; false for `null` |
| Fractions.BigFraction.IsZero | src/model/BigFraction.java:499-501 | true exactly when the value is 0 |
| Fractions.BigFraction.IsOne | src/model/BigFraction.java:508-510 | true exactly when the value is 1 |
| Fractions.BigFraction.IsInteger | src/model/BigFraction.java:517-519 | true exactly when the denominator divides the numerator |
| Fractions.IntegerWhenDivisible | src/model/BigFraction.java:517-519 | in lowest terms, the denominator is 1 exactly when it divides the numerator |
| Fractions.BigFraction.IsProper | src/model/BigFraction.java:526-528 | true exactly when the value lies strictly between -1 and 1 |
| Fractions.BigFraction.IsImproper | src/model/BigFraction.java:537-539 | the exact complement of `isProper`: the value is at most -1 or at least 1 |
| Fractions.BigFraction.Min | src/model/BigFraction.java:655-657 | returns one of the two operands, and it is at most both |
| Fractions.BigFraction.Max | src/model/BigFraction.java:665-667 | returns one of the two operands, and it is at least both |
| Fractions.BigFraction.Copy | src/model/BigFraction.java:678-680 | the copy is the same pair |
| Fractions.BigFraction.Inverse | src/model/BigFraction.java:546-548 | fails exactly when the value is 0; otherwise the result times the value is 1 |
| Fractions.BigFraction.Negate | src/model/BigFraction.java:555-557 | the pair `-numer/denom`, valid, with the negated value |
| Fractions.BigFraction.Abs | src/model/BigFraction.java:674-676 | the pair `|numer|/denom`, valid, with the absolute value |
| Fractions.BigFraction.FractionPart | src/model/BigFraction.java:564-566 | a valid fraction in `[0, 1)` that, added to `|integerPart()|`, gives `|x|` |
| Fractions.BigFraction.IntegerPart | src/model/BigFraction.java:573-575 | truncation toward zero: the magnitude is the floor of `|x|`, and the sign follows the numerator |
| Fractions.BigFraction.Floor | src/model/BigFraction.java:582-584 | `floor(x) <= x < floor(x) + 1` |
| Fractions.BigFraction.Ceil | src/model/BigFraction.java:591-593 | `ceil(x) - 1 < x <= ceil(x)` |
| Fractions.BigFraction.GetDecimal | src/model/BigFraction.java:609-611 | a decimal of scale `n`; for `n >= 0` it is within half a unit in the last place of `x`, and on a tie it is the one farther from zero (HALF_UP) |
| Fractions.GetDecimalNegate | src/model/BigFraction.java:609-611 | `getDecimal(n)` of `-x` is the negation of `getDecimal(n)` of `x` |
| Fractions.BigFraction.Round | src/model/BigFraction.java:600-602 | the nearest integer, with ties away from zero |
| Fractions.BigFraction.ToMixedString | src/model/BigFraction.java:623-625 | the text starts with `-` exactly for a negative value, and is the source's text wherever that keeps the sign |
| Fractions.MixedStringLosesSign | src/model/BigFraction.java:623-625 | as written, `toMixedString()` gives `"0 1/2"` for both `1/2` and `-1/2` |
| Fractions.BigFraction.ToString | src/model/BigFraction.java:614-616 | non-empty, starts with `-` exactly for a negative value, has no space, and has a `/` exactly when the value is not an integer |
| Fractions.BigFraction.ToMixedStringAsWritten | src/model/BigFraction.java:623-625 | as written: starts with `-` exactly when the integer part is negative, and is the plain `toString()` for an integer |
| Fractions.MixedReadsBack | src/model/BigFraction.java:623-625 | as written, a non-integer prints as the integer part's text, a space and the proper part's `toString()`, and each side parses back to that part |
| Fractions.MixedSignedReadsBack | src/model/BigFraction.java:623-625 | with the sign kept, a non-integer prints as an optional `-` (only when the integer part is 0), the integer part, a space and the proper part, which parses back |
| Fractions.MixedValue | src/model/BigFraction.java:623-625 | the value is the magnitude of the integer part plus the proper part, negated exactly when the mixed text starts with `-` |
| Decimals.ParseDecimal | src/model/BigFraction.java:224-226 | `new BigDecimal(String)` on a plain literal: an accepted literal is non-empty with a non-negative scale; a rejected one is a format error |
| Decimals.ParseIntString | src/model/BigFraction.java:224 | the text of an integer reads back as that integer with scale 0 |
| Decimals.IntegerLiteral | src/model/BigFraction.java:224-226 | an optional sign and a digit run read as that integer, negated after `-`, at scale 0 |
| Decimals.DottedLiteral | src/model/BigFraction.java:224-226 | an optional sign, digits `w`, a point and digits `f` read as the digits of `wf` at scale `|f|`, whose value is `w.f`, negated after `-` |
| Decimals.DigitsValueConcat | src/model/BigFraction.java:224-226 | the digits of `a` then `b` are worth `a·10^|b| + b` |
| Decimals.PointValue | src/model/BigFraction.java:224-226 | the digits of `w` and `f` read together at the scale of `f` are worth `w.f` |
| Decimals.TwoPointsInvalid | src/model/BigFraction.java:225-226 | a literal with two decimal points is rejected |
| Decimals.ParsedCharacters | src/model/BigFraction.java:224-226 | an accepted literal is an optional sign, then digits and points only |
| Decimals.DivideHalfUp | src/model/BigFraction.java:610 | the integer nearest `x/y`, with ties away from zero |
| Decimals.DivideHalfUpNegate | src/model/BigFraction.java:610 | half-up rounding of `-x/y` is the negation of that of `x/y` |
| Decimals.DivideToScale | src/model/BigFraction.java:610 | the division to scale `n` gives a decimal of scale `n` |
| Decimals.DivideToScaleNegate | src/model/BigFraction.java:610 | dividing to a scale is symmetric about zero |
| Text.IntToString | src/model/BigFraction.java:615 | `BigInteger.toString()`: non-empty, begins with `-` exactly for a negative number, then the digits of the magnitude |
| Text.IndexOf | src/model/BigFraction.java:223 | `indexOf("/")`: the first position holding the character, or none exactly when it does not occur |
| Text.RemoveSpaces | src/model/BigFraction.java:220 | `replaceAll(" ", "")`: no space is left, nothing is added, and a text without spaces is unchanged |
| Text.RemoveSpacesChar | src/model/BigFraction.java:220 | a single character is removed exactly when it is a space |
| Text.RemoveSpacesConcat | src/model/BigFraction.java:220 | removing spaces from a concatenation removes them from each part, so the other characters keep their order |
| FractionExamples.ConstructorNormalises | src/tests/ModelTests.java:255-263 | `(10, -9)` is stored as `-10/9`, `6/8` as `3/4`, and a zero denominator fails for integer and decimal pairs |
| FractionExamples.FloorCeilExamples | src/tests/ModelTests.java:155-177 | floor, ceiling and integer part of `4/3` and `-4/3` |
| FractionExamples.RoundingExamples | src/tests/ModelTests.java:181-190 | `5/3` rounds to 2, to `1.667` at three digits, and its negation to `-1.667` |
| FractionExamples.ParseInteger | src/tests/ModelTests.java:241 | `parseBigFraction("2")` is 2 |
| FractionExamples.ParseSpaced | src/tests/ModelTests.java:242 | `parseBigFraction("2 / 3")` is `2/3` |
| FractionExamples.ParseDecimalQuotient | src/tests/ModelTests.java:243 | `parseBigFraction("2.5 / 3.5")` is `5/7` |
| FractionExamples.ParseDecimalPoint | src/tests/ModelTests.java:244 | `parseBigFraction("2.5")` is `5/2` |
| FractionExamples.ParseZeroDenominator | src/tests/ModelTests.java:245 | `parseBigFraction("1/0")` fails with an arithmetic error |
| FractionExamples.ParseRejects | src/tests/ModelTests.java:246-249 | `""`, `"/"`, `"/2"` and `"2/"` are rejected as invalid |
| FractionExamples.TextExamples | src/tests/ModelTests.java:194-197 | `3/4` prints as `"3/4"` and `-3/4` as `"-3/4"`; that `new(6, 8)` is `3/4` is stated in FractionExamples.ConstructorNormalises |
| FractionExamples.MixedTextExamples | src/tests/ModelTests.java:204-206 | `9/8` prints mixed as `"1 1/8"` and its negation as `"-1 1/8"`, both as written and with the sign kept |
| Symbols.TypeValueOf | src/tests/ModelTests.java:391-394 | `Type.valueOf` returns only the constant with that name |
| Symbols.TypeNameRoundTrip | src/tests/ModelTests.java:391-394 | `Type.valueOf(t.name())` is `t` for each of the four constants |
| Symbols.Type.Name | src/model/Symbol.java:25 | the name a kind prints as is a non-empty run of capital letters |
| Symbols.Symbol.Equals | src/model/Symbol.java:12-18 | true exactly when the argument is a symbol with the same text and kind; false for `null` |
| Symbols.Symbol.HashCode | src/model/Symbol.java:20-22 | a 32-bit `int`, determined by the text and the kind's hash, so equal symbols hash alike |
| Symbols.StringHash | src/model/Symbol.java:21 | `String.hashCode()`: a 32-bit `int` congruent modulo 2^32 to the sum `s[0]·31^(n-1) + … + s[n-1]` |
| Symbols.DigitSymbolsHashApart | src/tests/ModelTests.java:307-312 | the symbols `"1"` and `"2"` hash differently, whatever hash the kind has |
| Symbols.ToStringInjective | src/model/Symbol.java:24-26 | different symbols have different `toString()` texts |
| Symbols.Symbol.ToString | src/model/Symbol.java:24-26 | the text starts with `{Symbol: `, continues with the symbol's own text and ends with `}` |
| Symbols.SymbolText | src/tests/ModelTests.java:318 | the symbol `"1"` of kind NUMBER prints as `{Symbol: 1, Type: NUMBER}` |
| Readers.SkipSpaces | src/parser/Reader.java:18-21 | the first non-space position at or after `p`, or the end |
| Readers.RunEnd | src/parser/Reader.java:35-43 | the end of the maximal run of digits and dots (or letters) from `i` |
| Readers.ReadSpec | src/parser/Reader.java:15-66 | `read()` as a function: the position never decreases or passes the end, advances while text remains, and stays at the end with `null` |
| Readers.ScanAt | src/parser/Reader.java:24-64 | the token at a non-space consumes at least that character |
| Readers.PeekSpec | src/parser/Reader.java:68-99 | `peek()` as a function: `null` exactly when only spaces remain, else the next non-space character alone with its kind |
| Readers.PeekKind | src/parser/Reader.java:78-96 | the kind `peek()` gives: OPERATOR exactly for `+ - * /`, PARENTHESIS exactly for `(` and `)`, NUMBER exactly for a digit, and MATHFUNCTION for every other character |
| Readers.EndOfInput | src/parser/Reader.java:16-21 | at the end, or when only spaces remain, both `read()` and `peek()` give `null` |
| Readers.PeekThenRead | src/parser/Reader.java:25-31 | for an operator or parenthesis, `peek()` and the next `read()` give the same symbol, and `read()` consumes the leading spaces and that character only |
| Readers.NumberToken | src/parser/Reader.java:33-45 | a NUMBER starts with a digit, holds only digits and dots, is the text just consumed, and is maximal |
| Readers.WordToken | src/parser/Reader.java:49-62 | on a letter, `read()` gives the maximal letter run as MATHFUNCTION while `peek()` gives the first letter |
| Readers.UnknownCharacter | src/parser/Reader.java:49-63 | on any other character, `read()` consumes it and gives `null`, while `peek()` gives it as MATHFUNCTION |
| Readers.ReadNone | src/parser/Reader.java:15-66 | `read()` gives `null` exactly at the end or on a character no token starts with |
| Readers.PeekIsPrefix | src/parser/Reader.java:68-99 | whatever `read()` returns begins with what `peek()` returns and has its kind |
| Readers.Reader.constructor | src/parser/Reader.java:9-13 | position 0 over the expression's characters |
| Readers.Reader.Read | src/parser/Reader.java:15-66 | the token and the new position are those `ReadSpec` gives |
| Readers.Reader.ReadRun | src/parser/Reader.java:33-45 | the `StringBuffer` loop stops at the end of the run and returns the text from the first character to there |
| Readers.Reader.Peek | src/parser/Reader.java:68-99 | returns what `PeekSpec` gives, and changes nothing |
| Readers.Reader.GetPosition | src/parser/Reader.java:101-103 | the current position, between 0 and the length |
| ReaderExamples.OneCharAt | src/parser/Reader.java:25-31 | after spaces, an operator or parenthesis is a one-character token for both scans |
| ReaderExamples.NumberAt | src/parser/Reader.java:33-45 | after spaces, a digit run is a NUMBER token; `peek()` gives its first digit |
| ReaderExamples.WordAt | src/parser/Reader.java:49-62 | after spaces, a letter run is a MATHFUNCTION token; `peek()` gives its first letter |
| ReaderExamples.TraceFirst | src/tests/ParserTests.java:81-92 | on `"-sin(1 + 2) * 3"`: `-`, `s`/`sin`, `(`, `1` |
| ReaderExamples.TraceMiddle | src/tests/ParserTests.java:94-101 | then `+`, `2`, `)` |
| ReaderExamples.TraceLast | src/tests/ParserTests.java:103-110 | then `*`, `3`, and `null` from both at the end |
| Grammar.NextTerm | src/parser/Parser.java:147-153 | without an operator the new term itself; otherwise a node with the operator, the previous term on the left and the new one on the right |
| Grammar.Parse | src/parser/Parser.java:21-25 | every tree `doParse` returns is well formed (operator nodes have an operator text and both children, and leaves are NUMBER symbols), and no leaf holds `(`, `,` or `)` |
| Grammar.Polynomial | src/parser/Parser.java:34-46 | on success, it has read something, its tree is well formed, and it stopped at the end or before `)` |
| Grammar.PolyLoop | src/parser/Parser.java:37-44 | one pass of the loop: it stops only at the end or before `)` |
| Grammar.Monomial | src/parser/Parser.java:55-87 | on success, its tree is well formed and it stopped at the end, before `+`/`-`, or before `)` |
| Grammar.MonoLoop | src/parser/Parser.java:58-85 | one pass of the loop: it stops only at the end, before `+`/`-`, or before `)` |
| Grammar.Primary | src/parser/Parser.java:62-66 | a successful primary (a number, a negation or a parenthesised term) is a well-formed tree with plain leaves and does not read backwards |
| Grammar.Parenthesized | src/parser/Parser.java:97-106 | succeeds only after `(` and ends just after a `)`, with a well-formed tree |
| Grammar.Negated | src/parser/Parser.java:116-137 | succeeds only for `-`, with a well-formed tree |
| Grammar.ParsedTreeReadsBack | src/model/Term.java:76-87 | the `toString()` text of any parsed tree reads back as that tree |
| Parsers.DoParse | src/parser/Parser.java:21-25 | returns exactly `Grammar.Parse` of the text |
| Parsers.ParsePolynomial | src/parser/Parser.java:34-46 | returns the tree and leaves the reader where `Grammar.Polynomial` says, or fails where it fails |
| Parsers.ParseMonomial | src/parser/Parser.java:55-87 | returns the tree and leaves the reader where `Grammar.Monomial` says, or fails where it fails |
| Parsers.ParseParenthesizedTerm | src/parser/Parser.java:97-106 | agrees with `Grammar.Parenthesized` |
| Parsers.ParseNegatedTerm | src/parser/Parser.java:116-137 | agrees with `Grammar.Negated` |
| ParserExamples.MonoNumberEnd | src/parser/Parser.java:58-75 | a number followed by a stopping symbol ends the monomial with the folded term |
| ParserExamples.MonoNumberStep | src/parser/Parser.java:63-77 | a number followed by `*` or `/` folds the number in and continues after the operator |
| ParserExamples.MonoPrimaryEnd | src/parser/Parser.java:62-75 | a negated or parenthesised primary followed by a stopping symbol ends the monomial |
| ParserExamples.MonoPrimaryStep | src/parser/Parser.java:62-77 | a negated or parenthesised primary followed by `*` or `/` folds in and continues |
| ParserExamples.MonoPrimaryFails | src/parser/Parser.java:62-65 | a failing primary fails the monomial |
| ParserExamples.MonoAtEnd | src/parser/Parser.java:59-61 | the end of input where a primary is expected is a parse error |
| ParserExamples.PolyEnd | src/parser/Parser.java:38-42 | a monomial followed by the end or `)` ends the polynomial with the folded term |
| ParserExamples.PolyStep | src/parser/Parser.java:38-43 | a monomial followed by an operator folds in and continues after it |
| ParserExamples.PolyFails | src/parser/Parser.java:38 | a failing monomial fails the polynomial |
| ParserExamples.NegatedNumber | src/parser/Parser.java:117-122 | `-` before a number is the single leaf `"-n"` |
| ParserExamples.NegatedParenthesis | src/parser/Parser.java:123-126 | `-` before `(` is `mul(-1, inner)` |
| ParserExamples.ParenthesizedOf | src/parser/Parser.java:98-103 | `(`, a polynomial and the symbol after it give the polynomial's tree alone |
| ParserExamples.ParenthesizedUnclosed | src/parser/Parser.java:99-101 | a polynomial that runs to the end after `(` is a parse error |
| ParserExamples.IntLeaf | src/model/Term.java:54 | a leaf holding an integer's text denotes that integer |
| ParserExamples.LeafDenotes | src/model/Term.java:54 | a leaf whose text is an integer denotes it |
| ParserExamples.DenoteNode | src/model/Term.java:49-53 | an operator node denotes its operator applied to its children's values |
| ParserExamples.IntegerResult | src/model/Term.java:38-40 | `calcInteger()` of a tree with an integer value is that integer |
| ParserExamples.SubtractionChain | src/tests/ParserTests.java:53 | `"1 - 2 - 3"` parses as `sub(sub(1, 2), 3)` and its integer value is -4 |
| ParserExamples.SubtractionChainParse | src/parser/Parser.java:37-44 | `"1 - 2 - 3"` folds to the left |
| ParserExamples.SubtractionChainValue | src/tests/ParserTests.java:53 | `sub(sub(1, 2), 3)` has integer value -4 |
| ParserExamples.NegatedNumbers | src/tests/ParserTests.java:54 | `"1 - -2 - -3"` parses with the leaves `-2` and `-3` and its value is 6 |
| ParserExamples.NegatedNumbersParse | src/parser/Parser.java:116-122 | `"1 - -2 - -3"` parses with the single leaves `-2` and `-3` |
| ParserExamples.NegatedNumbersValue | src/tests/ParserTests.java:54 | that tree has integer value 6 |
| ParserExamples.DivisionChain | src/tests/ParserTests.java:60 | `"-12 / -6 / -2"` parses as `div(div(-12, -6), -2)` and its value is -1 |
| ParserExamples.DivisionChainParse | src/parser/Parser.java:58-85 | `"-12 / -6 / -2"` folds to the left inside one monomial |
| ParserExamples.DivisionChainValue | src/tests/ParserTests.java:60 | that tree has integer value -1 |
| ParserExamples.NegatedParentheses | src/tests/ParserTests.java:68 | `"1 * -(2 * -3)"` parses as `mul(1, mul(-1, mul(2, -3)))` and its value is 6 |
| ParserExamples.NegatedParenthesesParse | src/parser/Parser.java:123-126 | `-(…)` becomes `mul(-1, …)` |
| ParserExamples.NegatedParenthesesValue | src/tests/ParserTests.java:68 | that tree has integer value 6 |
| ParserExamples.Precedence | src/parser/Parser.java:73-77 | `"1 + 2 * 3"` is `add(1, mul(2, 3))`: the monomial returns on `+`/`-` |
| ParserExamples.ImplicitMultiplication | src/parser/Parser.java:78-81 | `"2(3)"` is `mul(2, 3)`: a `(` after a primary multiplies |
| ParserExamples.UnmatchedCloseIgnored | src/parser/Parser.java:42 | `"1 + 2) 3"` parses as `add(1, 2)`; the text after the unmatched `)` is never read |
| ParserExamples.TrailingOperator | src/main/Main.java:19 | `"1 + 2 + "` is a parse error |
| ParserExamples.MissingClose | src/main/Main.java:20 | `"(1+2+3"` is a parse error |
| ParserExamples.NumberAfterNumber | src/main/Main.java:21 | `"1 + 2 2"` is a parse error |
| ParserExamples.LeadingClose | src/main/Main.java:22 | `")1 + 2"` is a parse error |
| ParserExamples.DoubleOperator | src/main/Main.java:23 | `"1 + + 2"` is a parse error |
| ParserExamples.FunctionName | src/parser/Parser.java:66 | `"sin(1)"` is a parse error: a function name at a primary position |
| Terms.OperatorOf | src/model/Term.java:49-55 | a text is an operator exactly when it is one of `+ - * /` |
| Terms.CalcFraction | src/model/Term.java:48-56 | every value computed is a valid fraction |
| Terms.Calc | src/model/Term.java:24-26 | `calc()` succeeds exactly when the exact semantics has a value, gives that value, and otherwise gives the same error |
| Terms.CalcMatchesDenote | src/model/Term.java:48-56 | `calcFraction` agrees with the exact-arithmetic semantics on success, value and error |
| Terms.AddAgrees | src/model/Term.java:50 | a `+` node agrees when its children do |
| Terms.SubAgrees | src/model/Term.java:51 | a `-` node agrees when its children do |
| Terms.MulAgrees | src/model/Term.java:52 | a `*` node agrees when its children do |
| Terms.DivAgrees | src/model/Term.java:53 | a `/` node agrees when its children do, including division by zero |
| Terms.DenoteOperator | src/model/Term.java:49-53 | the semantics of an operator node applies the operator to its children's values |
| Terms.CalcMul | src/model/Term.java:52 | a `*` node multiplies its children's fractions |
| Terms.DivisionByZeroNode | src/model/Term.java:53 | a `/` node whose right side evaluates to 0 raises the arithmetic error |
| Terms.CalcDecimal | src/model/Term.java:28-30 | `calc(n)` succeeds exactly when `calc()` does and is, for `n >= 0`, within half a unit at scale `n` of its value |
| Terms.CalcInteger | src/model/Term.java:38-40 | `calcInteger()` succeeds exactly when `calc()` does and truncates the value toward zero |
| Terms.Equals | src/model/Term.java:58-65 | true exactly when the argument is a tree equal in label, left and right |
| Terms.ChildEquals | src/model/Term.java:62-63 | `Objects.equals` on two children: both absent or equal |
| Terms.ToString | src/model/Term.java:76-87 | a non-operator node prints its text; it fails exactly when some OPERATOR node has another text |
| Terms.Call | src/model/Term.java:79-82 | `name(l, r)` fails exactly when one of the operands does |
| TermText.WellFormedPrints | src/model/Term.java:76-87 | a well-formed tree always prints |
| TermText.PrintedNode | src/model/Term.java:78-82 | an operator node prints as its three-letter name, `(`, its left operand, `", "`, its right operand and `)` |
| TermText.ReadPrinted | src/model/Term.java:76-87 | a printed tree followed by the end, `,` or `)` reads back as the tree, leaving what followed |
| TermText.PrintedReadsBack | src/model/Term.java:76-87 | the printed text of a tree with plain leaves reads back as the same tree |
| TermText.PrintedInjective | src/model/Term.java:76-87 | different parsed trees print differently |
| TermExamples.FractionLeaf | src/model/Term.java:54 | a leaf spelling `a/b` denotes `a/b` |
| TermExamples.FractionNode | src/model/Term.java:49-53 | an operator node over two fraction leaves evaluates to the reduced result of the operator |
| TermExamples.Addition | src/tests/ModelTests.java:327-332 | `1/3 + 1/6` is `1/2` |
| TermExamples.Multiplication | src/tests/ModelTests.java:335-340 | `2/3 * 3/4` is `1/2` |
| TermExamples.Division | src/tests/ModelTests.java:343-348 | `3/4 / 3/2` is `1/2` |
| TermExamples.FiveThirds | src/tests/ModelTests.java:351-354 | the tree `5 / 3` denotes 5/3 |
| TermExamples.FiveThirdsFraction | src/tests/ModelTests.java:355 | `calc()` of `5 / 3` is the fraction 5/3 |
| TermExamples.DecimalOfFraction | src/model/Term.java:28-30 | `calc(n)` rounds the fraction `calc()` returns |
| TermExamples.FiveThirdsDecimal | src/tests/ModelTests.java:356 | `calc(2)` of `5 / 3` is `1.67` |
| TermExamples.IntegerBetween | src/model/Term.java:38-40 | `calcInteger()` of a tree whose value lies in `[k, k+1)`, for `k >= 0`, is `k` |
| TermExamples.FiveThirdsInteger | src/tests/ModelTests.java:357 | `calcInteger()` of `5 / 3` is 1 |
| TermExamples.DivideByZero | src/model/Term.java:53 | `1 / 0` raises the arithmetic error |
| TermExamples.PrintNode | src/model/Term.java:79-82 | an operator node over two leaves prints as `name(l, r)` |
| TermExamples.PrefixNotation | src/tests/ModelTests.java:372-382 | the four operators print as `add`, `sub`, `mul` and `div` |
| TermExamples.UnknownOperatorText | src/model/Term.java:83 | an OPERATOR node with another text is an `IllegalStateException` |

## Left out

- The `double` constructors, `valueOf(double…)`, the `double` arithmetic overloads, `floatValue` and `doubleValue` are left out because they are floating point.
- The `long` constructors, the `long`, `BigInteger` and `BigDecimal` overloads of `add`/`sub`/`mul`/`div`, and all `valueOf` factories are left out. Each only converts its argument with a constructor the model has.
- The constants `TWO`, `THREE`, `ONEHALF` and `ONETHIRD` are left out because they are `New` applied to literals; `ZERO` and `ONE` are modelled.
- `intValue` and `longValue` are left out because they narrow with Java overflow; `integerPart` is modelled.
- `toDecimalString` and `toPercent` are left out because they depend on `String.format` and the locale.
- The `numerator()`/`denominator()` getters are left out because they are the datatype's two fields.
- The specific `hashCode` values of `BigFraction` and `Term` are left out; only `Symbol.hashCode` is modelled.
- Symbols.Symbol.HashCode: the enum's identity hash is chosen at run time, so it is a parameter, and the contract states only the 32-bit range; `DigitSymbolsHashApart` shows that the text matters.
- Fractions.BigFraction.GetDecimal: the rounding bound is stated only for `n >= 0`; for a negative `n` only the scale is stated.
- Decimals.ParseDecimal: `new BigDecimal(String)` is modelled only for ASCII literals without an exponent. Exponents, negative scales and non-ASCII digits are rejected.
- Readers.ReadSpec: `Character.isDigit` also accepts non-ASCII digits inside a number; the model accepts ASCII digits only.
- `parseBigFraction(null)` is left out because `string` has no `null`.
- The positions and message texts carried by `ExpressionParseException` and the other exceptions are left out; each error is only its kind.
- The static `EXPRESSION` field is left out because it only feeds error messages.
- `Main`'s console loop is left out because it is I/O. The inputs it lists in comments are the parser examples.
- Fractions.ParseBigFraction: its own contract says only that an accepted text gives a valid fraction. What it computes is stated by `ParseLiteral` and `ParseQuotient` for decimal literals (with `Decimals.IntegerLiteral` and `Decimals.DottedLiteral` for their values), by `ParsePair` and `ParseToString`, and by the examples.
- Term.java's `NullPointerException` from an operator node without a child is a precondition instead (`Evaluable`, `Printable`); the parser never builds such a node.
- Term fields are public and mutable in Java but are never changed after construction, so a tree is a value.
- Aliasing between Java objects is not modelled: trees, symbols and fractions are values.
- TermText.PrintedReadsBack: holds only for trees whose leaves contain no `(`, `,` or `)`. Every tree the parser builds has such leaves.

## Findings

| source | as written | input that shows it | evidently intended | confidence | as-written member | corrected member |
|---|---|---|---|---|---|---|
| src/model/BigFraction.java:623-625 | `toMixedString()` prints the integer part and then the proper part of the magnitude, so a value in `(-1, 0)` loses its sign | `-1/2` prints as `"0 1/2"`, the same as `1/2` | a negative value keeps its sign, as `-9/8` does in `"-1 1/8"` | not executed | Fractions.MixedStringLosesSign | Fractions.BigFraction.ToMixedString |
| src/model/BigFraction.java:466-472 | `pow` negates a negative `int` exponent in place; `-Integer.MIN_VALUE` wraps to itself and `BigInteger.pow` rejects it | `ONE.pow(Integer.MIN_VALUE)` raises `ArithmeticException` | `1^(-2^31)` is 1 | not executed | Fractions.PowMinValueRejected | Fractions.BigFraction.Pow |
