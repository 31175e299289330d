/**
 * The term tests: evaluation of small trees over fraction leaves, the three
 * result forms of `5/3`, division by zero, and the prefix notation printed by
 * `toString()`.
 */
module TermExamples {
  import opened Results
  import opened Arith
  import opened Text
  import opened Decimals
  import opened Fractions
  import opened Symbols
  import opened Terms
  import opened ParserExamples

  /** A leaf spelling `a/b` denotes the quotient. */
  lemma FractionLeaf(text: string, a: int, b: int)
    requires b != 0 && text == IntToString(a) + "/" + IntToString(b)
    ensures Denote(Leaf(text)) == Ok(a as real / b as real)
  {
    ParsePair(a, b);
    assert |text| >= 3;
  }

  /** A tree whose value is that of a reduced pair evaluates to exactly that pair. */
  lemma FractionResult(t: Term, f: BigFraction)
    requires Evaluable(t) && f.Valid() && Denote(t) == Ok(f.Value())
    ensures Calc(t) == Ok(f)
  {
    Canonical(Calc(t).value, f);
  }

  /**
   * An operator node over two fraction leaves `a/b` and `c/d` evaluates to the
   * reduced pair whose value the operator gives.
   */
  lemma FractionNode(op: char, lt: string, rt: string, a: int, b: int, c: int, d: int, f: BigFraction)
    requires op == '+' || op == '-' || op == '*' || op == '/'
    requires b != 0 && lt == IntToString(a) + "/" + IntToString(b)
    requires d != 0 && rt == IntToString(c) + "/" + IntToString(d)
    requires f.Valid() && Apply(op, a as real / b as real, c as real / d as real) == Ok(f.Value())
    ensures Evaluable(Node([op], Leaf(lt), Leaf(rt)))
    ensures Calc(Node([op], Leaf(lt), Leaf(rt))) == Ok(f)
  {
    FractionLeaf(lt, a, b);
    FractionLeaf(rt, c, d);
    DenoteNode(op, Leaf(lt), Leaf(rt), a as real / b as real, c as real / d as real);
    FractionResult(Node([op], Leaf(lt), Leaf(rt)), f);
  }

  lemma PairTexts()
    ensures "1/3" == IntToString(1) + "/" + IntToString(3)
    ensures "1/6" == IntToString(1) + "/" + IntToString(6)
    ensures "2/3" == IntToString(2) + "/" + IntToString(3)
    ensures "3/4" == IntToString(3) + "/" + IntToString(4)
    ensures "3/2" == IntToString(3) + "/" + IntToString(2)
  {
  }

  lemma OneHalf()
    ensures BigFraction(1, 2).Valid() && BigFraction(1, 2).Value() == 0.5
  {
    assert Gcd(1, 2) == 1;
  }

  /** 1/3 + 1/6 = 1/2. */
  lemma Addition()
    ensures Calc(Node("+", Leaf("1/3"), Leaf("1/6"))) == Ok(BigFraction(1, 2))
  {
    PairTexts();
    OneHalf();
    FractionNode('+', "1/3", "1/6", 1, 3, 1, 6, BigFraction(1, 2));
  }

  /** 2/3 × 3/4 = 1/2. */
  lemma Multiplication()
    ensures Calc(Node("*", Leaf("2/3"), Leaf("3/4"))) == Ok(BigFraction(1, 2))
  {
    PairTexts();
    OneHalf();
    FractionNode('*', "2/3", "3/4", 2, 3, 3, 4, BigFraction(1, 2));
  }

  /** 3/4 ÷ 3/2 = 1/2. */
  lemma Division()
    ensures Calc(Node("/", Leaf("3/4"), Leaf("3/2"))) == Ok(BigFraction(1, 2))
  {
    PairTexts();
    OneHalf();
    FractionNode('/', "3/4", "3/2", 3, 4, 3, 2, BigFraction(1, 2));
  }

  /** The tree `5 / 3` denotes 5/3. */
  lemma FiveThirds()
    ensures Evaluable(Node("/", Leaf("5"), Leaf("3")))
    ensures Denote(Node("/", Leaf("5"), Leaf("3"))) == Ok(5.0 / 3.0)
  {
    assert IntToString(5) == "5" && IntToString(3) == "3";
    LeafDenotes("5", 5);
    LeafDenotes("3", 3);
    DenoteNode('/', Leaf("5"), Leaf("3"), 5.0, 3.0);
  }

  /** `calc()` of `5 / 3` is the fraction 5/3. */
  lemma FiveThirdsFraction()
    ensures Calc(Node("/", Leaf("5"), Leaf("3"))) == Ok(BigFraction(5, 3))
  {
    FiveThirds();
    assert Gcd(5, 3) == 1;
    FractionResult(Node("/", Leaf("5"), Leaf("3")), BigFraction(5, 3));
  }

  /** `calc(n)` rounds the fraction `calc()` returns. */
  lemma DecimalOfFraction(t: Term, f: BigFraction, n: int)
    requires Evaluable(t) && Calc(t) == Ok(f)
    ensures CalcDecimal(t, n) == Ok(f.GetDecimal(n))
  {
  }

  /** 5/3 at two digits is 1.67. */
  lemma RoundFiveThirds()
    ensures BigFraction(5, 3).GetDecimal(2) == Decimal(167, 2)
  {
    assert Pow10(2) == 100;
    var u := DivideHalfUp(500, 3);
    assert 2 * Arith.Abs(500 - u * 3) <= 3;
  }

  /** `calc(2)` of `5 / 3` is 1.67. */
  lemma FiveThirdsDecimal()
    ensures CalcDecimal(Node("/", Leaf("5"), Leaf("3")), 2) == Ok(Decimal(167, 2))
  {
    FiveThirdsFraction();
    DecimalOfFraction(Node("/", Leaf("5"), Leaf("3")), BigFraction(5, 3), 2);
    RoundFiveThirds();
  }

  /** `calcInteger()` of a tree whose value lies in `[k, k + 1)` for `k >= 0` is `k`. */
  lemma IntegerBetween(t: Term, k: nat, v: real)
    requires Evaluable(t) && Denote(t) == Ok(v) && k as real <= v < (k + 1) as real
    ensures CalcInteger(t) == Ok(k)
  {
    var r := CalcInteger(t).value;
    assert RealAbs(v) == v;
    SameFloor(r, k, v);
  }


  /** `calcInteger()` of `5 / 3` is 1. */
  lemma FiveThirdsInteger()
    ensures CalcInteger(Node("/", Leaf("5"), Leaf("3"))) == Ok(1)
  {
    FiveThirds();
    IntegerBetween(Node("/", Leaf("5"), Leaf("3")), 1, 5.0 / 3.0);
  }

  /** A zero divisor is `ArithmeticException`. */
  lemma DivideByZero()
    ensures Calc(Node("/", Leaf("1"), Leaf("0"))) == Err(DivByZero)
  {
    assert IntToString(1) == "1" && IntToString(0) == "0";
    LeafDenotes("1", 1);
    LeafDenotes("0", 0);
    DenoteNode('/', Leaf("1"), Leaf("0"), 1.0, 0.0);
  }

  /** An operator node over two leaves prints as `name(l, r)`. */
  lemma PrintNode(op: string, name: string, l: string, r: string)
    requires (op, name) in {("+", "add"), ("-", "sub"), ("*", "mul"), ("/", "div")}
    ensures ToString(Node(op, Leaf(l), Leaf(r))) == Ok(name + "(" + l + ", " + r + ")")
  {
  }

  /** The four operators print as `add`, `sub`, `mul` and `div`, left operand first. */
  lemma PrefixNotation()
    ensures ToString(Node("+", Leaf("2"), Leaf("3"))) == Ok("add(2, 3)")
    ensures ToString(Node("-", Leaf("2"), Leaf("3"))) == Ok("sub(2, 3)")
    ensures ToString(Node("*", Leaf("2"), Leaf("3"))) == Ok("mul(2, 3)")
    ensures ToString(Node("/", Leaf("2"), Leaf("3"))) == Ok("div(2, 3)")
  {
    PrintNode("+", "add", "2", "3");
    assert "add" + "(" + "2" + ", " + "3" + ")" == "add(2, 3)";
    PrintNode("-", "sub", "2", "3");
    assert "sub" + "(" + "2" + ", " + "3" + ")" == "sub(2, 3)";
    PrintNode("*", "mul", "2", "3");
    assert "mul" + "(" + "2" + ", " + "3" + ")" == "mul(2, 3)";
    PrintNode("/", "div", "2", "3");
    assert "div" + "(" + "2" + ", " + "3" + ")" == "div(2, 3)";
  }

  /** An OPERATOR node with another text is `IllegalStateException`. */
  lemma UnknownOperatorText()
    ensures ToString(Node("^", Leaf("2"), Leaf("3"))) == Err(IllegalState)
  {
  }
}
