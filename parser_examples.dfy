/**
 * Concrete parses from the parser's tests and the error cases of the console
 * program, derived from the grammar functions, together with the values the
 * resulting trees evaluate to.
 */
module ParserExamples {
  import opened Results
  import opened Arith
  import opened Text
  import opened Fractions
  import opened Symbols
  import opened Terms
  import opened Readers
  import opened Grammar
  import opened ReaderExamples

  function Leaf(text: string): Term
  {
    Term(Symbol(text, Number), None, None)
  }

  function Node(op: string, l: Term, r: Term): Term
  {
    Term(Symbol(op, Operator), Some(l), Some(r))
  }

  // ---------------------------------------------------------------------------
  // Values

  /** A leaf holding an integer's decimal text denotes that integer. */
  lemma IntLeaf(n: int)
    ensures LeafValue(IntToString(n)) == Ok(n as real)
  {
    var f := FromInt(n);
    assert f.IsInteger();
    ParseToString(f);
  }

  /** `calcInteger()` of a tree denoting an integer is that integer. */
  lemma IntegerResult(t: Term, v: int)
    requires Evaluable(t) && Denote(t) == Ok(v as real)
    ensures CalcInteger(t) == Ok(v)
  {
    var r := CalcInteger(t).value;
    IntegerFromBounds(r, v);
  }

  /** An integer whose magnitude is the floor of `|v|` and whose sign is that of `v` is `v`. */
  lemma IntegerFromBounds(r: int, v: int)
    requires Arith.Abs(r) as real <= RealAbs(v as real) < (Arith.Abs(r) + 1) as real
    requires v as real >= 0.0 ==> r >= 0
    requires v as real <= 0.0 ==> r <= 0
    ensures r == v
  {
    assert RealAbs(v as real) == Arith.Abs(v) as real;
    SameFloor(Arith.Abs(r), Arith.Abs(v), Arith.Abs(v) as real);
  }

  /** Two integers at most `v` whose successors exceed `v` are equal. */
  lemma SameFloor(r: int, k: int, v: real)
    requires r as real <= v < (r + 1) as real && k as real <= v < (k + 1) as real
    ensures r == k
  {
  }

  /** An operator node denotes its operator applied to what its children denote. */
  lemma DenoteNode(op: char, l: Term, r: Term, a: real, b: real)
    requires op == '+' || op == '-' || op == '*' || op == '/'
    requires Evaluable(l) && Evaluable(r) && Denote(l) == Ok(a) && Denote(r) == Ok(b)
    ensures Evaluable(Node([op], l, r)) && Denote(Node([op], l, r)) == Apply(op, a, b)
  {
  }

  /** A leaf spelling an integer denotes it. */
  lemma LeafDenotes(text: string, n: int)
    requires text == IntToString(n)
    ensures Evaluable(Leaf(text))
    ensures Denote(Leaf(text)) == Ok(n as real)
  {
    IntLeaf(n);
    if n >= 0 {
      assert IsDigit(text[0]);
    } else {
      assert |text| >= 2;
    }
  }

  // ---------------------------------------------------------------------------
  // Steps of the two loops

  /** The monomial loop reads a number at `p` and stops after it. */
  lemma MonoNumberEnd(s: string, p: nat, operator: Option<Symbol>, term: Option<Term>, text: string, q: nat)
    requires p <= |s| && ReadSpec(s, p) == (Some(Symbol(text, Number)), q)
    requires MonoStop(s, q)
    ensures MonoLoop(s, p, operator, term) == Ok((NextTerm(operator, term, Leaf(text)), q))
  {
  }

  /** The monomial loop reads a number at `p`, then the operator `o` (`*` or `/`), and goes on after it. */
  lemma MonoNumberStep(s: string, p: nat, operator: Option<Symbol>, term: Option<Term>, text: string, q: nat, o: string, q2: nat)
    requires p <= |s| && ReadSpec(s, p) == (Some(Symbol(text, Number)), q)
    requires q <= |s| && PeekSpec(s, q) == Some(Symbol(o, Operator)) && o != "+" && o != "-"
    requires ReadSpec(s, q) == (Some(Symbol(o, Operator)), q2)
    ensures MonoLoop(s, p, operator, term) ==
            MonoLoop(s, q2, Some(Symbol(o, Operator)), Some(NextTerm(operator, term, Leaf(text))))
  {
  }

  /** The polynomial loop takes a monomial and stops after it. */
  lemma PolyEnd(s: string, p: nat, operator: Option<Symbol>, term: Option<Term>, m: Term, q: nat)
    requires p <= |s| && Monomial(s, p) == Ok((m, q)) && PolyStop(s, q)
    ensures PolyLoop(s, p, operator, term) == Ok((NextTerm(operator, term, m), q))
  {
  }

  /** The polynomial loop takes a monomial, then the operator `o` after it, and goes on. */
  lemma PolyStep(s: string, p: nat, operator: Option<Symbol>, term: Option<Term>, m: Term, q: nat, o: string, q2: nat)
    requires p <= |s| && Monomial(s, p) == Ok((m, q))
    requires q <= |s| && PeekSpec(s, q) == Some(Symbol(o, Operator)) && o != ")"
    requires ReadSpec(s, q) == (Some(Symbol(o, Operator)), q2)
    ensures PolyLoop(s, p, operator, term) ==
            PolyLoop(s, q2, Some(Symbol(o, Operator)), Some(NextTerm(operator, term, m)))
  {
  }

  /** The monomial loop reads a primary other than a number at `p` and stops after it. */
  lemma MonoPrimaryEnd(s: string, p: nat, operator: Option<Symbol>, term: Option<Term>, sym: Symbol, q: nat, m: Term, q1: nat)
    requires p <= |s| && ReadSpec(s, p) == (Some(sym), q) && sym.kind != Number
    requires Primary(s, sym, q) == Ok((m, q1)) && q1 <= |s| && MonoStop(s, q1)
    ensures MonoLoop(s, p, operator, term) == Ok((NextTerm(operator, term, m), q1))
  {
  }

  /** The monomial loop reads a primary other than a number at `p`, then the operator `o` (`*` or `/`). */
  lemma MonoPrimaryStep(s: string, p: nat, operator: Option<Symbol>, term: Option<Term>, sym: Symbol, q: nat, m: Term, q1: nat, o: string, q2: nat)
    requires p <= |s| && ReadSpec(s, p) == (Some(sym), q) && sym.kind != Number
    requires Primary(s, sym, q) == Ok((m, q1)) && q1 <= |s|
    requires PeekSpec(s, q1) == Some(Symbol(o, Operator)) && o != "+" && o != "-"
    requires ReadSpec(s, q1) == (Some(Symbol(o, Operator)), q2)
    ensures MonoLoop(s, p, operator, term) ==
            MonoLoop(s, q2, Some(Symbol(o, Operator)), Some(NextTerm(operator, term, m)))
  {
  }

  /** The monomial loop fails where the primary it reads fails. */
  lemma MonoPrimaryFails(s: string, p: nat, operator: Option<Symbol>, term: Option<Term>, sym: Symbol, q: nat)
    requires p <= |s| && ReadSpec(s, p) == (Some(sym), q) && sym.kind != Number
    requires Primary(s, sym, q) == Err(ParseError)
    ensures MonoLoop(s, p, operator, term) == Err(ParseError)
  {
  }

  /** The monomial loop fails where the input ends. */
  lemma MonoAtEnd(s: string, p: nat, operator: Option<Symbol>, term: Option<Term>)
    requires p <= |s| && ReadSpec(s, p).0 == None
    ensures MonoLoop(s, p, operator, term) == Err(ParseError)
  {
  }

  /** The polynomial loop fails where its monomial fails. */
  lemma PolyFails(s: string, p: nat, operator: Option<Symbol>, term: Option<Term>)
    requires p <= |s| && Monomial(s, p) == Err(ParseError)
    ensures PolyLoop(s, p, operator, term) == Err(ParseError)
  {
  }

  /** `-` followed by a number is the leaf `-n`. */
  lemma NegatedNumber(s: string, q: nat, text: string, q1: nat)
    requires q <= |s| && ReadSpec(s, q) == (Some(Symbol(text, Number)), q1)
    ensures Primary(s, Symbol("-", Operator), q) == Ok((Leaf("-" + text), q1))
  {
  }

  /** `-` followed by `(` multiplies the parenthesised term by -1. */
  lemma NegatedParenthesis(s: string, q: nat, q1: nat, inner: Term, q2: nat)
    requires q <= |s| && ReadSpec(s, q) == (Some(Symbol("(", Parenthesis)), q1)
    requires q1 <= |s| && Parenthesized(s, Symbol("(", Parenthesis), q1) == Ok((inner, q2))
    ensures Primary(s, Symbol("-", Operator), q) == Ok((Node("*", Leaf("-1"), inner), q2))
  {
  }

  /** After `(`, a polynomial followed by the symbol that closes it. */
  lemma ParenthesizedOf(s: string, q: nat, inner: Term, q1: nat, q2: nat)
    requires q <= |s| && Polynomial(s, q) == Ok((inner, q1))
    requires PeekSpec(s, q1).Some? && ReadSpec(s, q1).1 == q2
    ensures Parenthesized(s, Symbol("(", Parenthesis), q) == Ok((inner, q2))
  {
  }

  /** After `(`, a polynomial that runs to the end of the input. */
  lemma ParenthesizedUnclosed(s: string, q: nat, inner: Term, q1: nat)
    requires q <= |s| && Polynomial(s, q) == Ok((inner, q1)) && PeekSpec(s, q1) == None
    ensures Parenthesized(s, Symbol("(", Parenthesis), q) == Err(ParseError)
  {
  }

  // ---------------------------------------------------------------------------
  // Left-associative chains

  /** `"1 - 2 - 3"` is `sub(sub(1, 2), 3)`, whose integer value is -4. */
  lemma SubtractionChain()
    ensures Parse("1 - 2 - 3") == Ok(Node("-", Node("-", Leaf("1"), Leaf("2")), Leaf("3")))
    ensures CalcInteger(Parse("1 - 2 - 3").value) == Ok(-4)
  {
    SubtractionChainParse();
    SubtractionChainValue();
  }

  lemma SubtractionChainParse()
    ensures Parse("1 - 2 - 3") == Ok(Node("-", Node("-", Leaf("1"), Leaf("2")), Leaf("3")))
  {
    var s := "1 - 2 - 3";
    ChainTokens(s, '-', '-');
    var minus := Some(Symbol("-", Operator));
    var t1 := Node("-", Leaf("1"), Leaf("2"));
    MonoNumberEnd(s, 0, None, None, "1", 1);
    PolyStep(s, 0, None, None, Leaf("1"), 1, "-", 3);
    MonoNumberEnd(s, 3, None, None, "2", 5);
    PolyStep(s, 3, minus, Some(Leaf("1")), Leaf("2"), 5, "-", 7);
    MonoNumberEnd(s, 7, None, None, "3", 9);
    PolyEnd(s, 7, minus, Some(t1), Leaf("3"), 9);
  }

  /** The tokens of `"1 o1 2 o2 3"` for two operators `o1` and `o2`. */
  lemma ChainTokens(s: string, o1: char, o2: char)
    requires IsOperatorChar(o1) && IsOperatorChar(o2)
    requires s == ['1', ' ', o1, ' ', '2', ' ', o2, ' ', '3']
    ensures ReadSpec(s, 0) == (Some(Symbol("1", Number)), 1)
    ensures PeekSpec(s, 1) == Some(Symbol([o1], Operator)) && ReadSpec(s, 1) == (Some(Symbol([o1], Operator)), 3)
    ensures ReadSpec(s, 3) == (Some(Symbol("2", Number)), 5)
    ensures PeekSpec(s, 5) == Some(Symbol([o2], Operator)) && ReadSpec(s, 5) == (Some(Symbol([o2], Operator)), 7)
    ensures ReadSpec(s, 7) == (Some(Symbol("3", Number)), 9)
    ensures PeekSpec(s, 9) == None
  {
    NumberAt(s, 0, 0, 1);
    assert s[0..1] == "1";
    OneCharAt(s, 1, 2);
    NumberAt(s, 3, 4, 5);
    assert s[4..5] == "2";
    OneCharAt(s, 5, 6);
    NumberAt(s, 7, 8, 9);
    assert s[8..9] == "3";
    EndOfInput(s, 9);
  }

  lemma SubtractionChainValue()
    ensures CalcInteger(Node("-", Node("-", Leaf("1"), Leaf("2")), Leaf("3"))) == Ok(-4)
  {
    LeafDenotes("1", 1);
    LeafDenotes("2", 2);
    LeafDenotes("3", 3);
    LeftNested('-', '-', "1", "2", "3", 1.0, 2.0, 3.0, -1.0, -4.0);
    IntegerResult(Node("-", Node("-", Leaf("1"), Leaf("2")), Leaf("3")), -4);
  }

  /** A left-nested pair of operator nodes over three leaves denotes the two operations in turn. */
  lemma LeftNested(op1: char, op2: char, x: string, y: string, z: string, a: real, b: real, c: real, u: real, w: real)
    requires op1 == '+' || op1 == '-' || op1 == '*' || op1 == '/'
    requires op2 == '+' || op2 == '-' || op2 == '*' || op2 == '/'
    requires Evaluable(Leaf(x)) && Evaluable(Leaf(y)) && Evaluable(Leaf(z))
    requires Denote(Leaf(x)) == Ok(a) && Denote(Leaf(y)) == Ok(b) && Denote(Leaf(z)) == Ok(c)
    requires Apply(op1, a, b) == Ok(u) && Apply(op2, u, c) == Ok(w)
    ensures Evaluable(Node([op2], Node([op1], Leaf(x), Leaf(y)), Leaf(z)))
    ensures Denote(Node([op2], Node([op1], Leaf(x), Leaf(y)), Leaf(z))) == Ok(w)
  {
    DenoteNode(op1, Leaf(x), Leaf(y), a, b);
    DenoteNode(op2, Node([op1], Leaf(x), Leaf(y)), Leaf(z), u, c);
  }

  /** `"1 - -2 - -3"`: a minus before a number makes the leaf `-n`; the value is 6. */
  lemma NegatedNumbers()
    ensures Parse("1 - -2 - -3") == Ok(Node("-", Node("-", Leaf("1"), Leaf("-2")), Leaf("-3")))
    ensures CalcInteger(Parse("1 - -2 - -3").value) == Ok(6)
  {
    NegatedNumbersParse();
    NegatedNumbersValue();
  }

  lemma NegatedNumbersParse()
    ensures Parse("1 - -2 - -3") == Ok(Node("-", Node("-", Leaf("1"), Leaf("-2")), Leaf("-3")))
  {
    var s := "1 - -2 - -3";
    NegatedNumbersTokens(s);
    NegatedNumbersLaterTokens(s);
    var minus := Symbol("-", Operator);
    var t1 := Node("-", Leaf("1"), Leaf("-2"));
    MonoNumberEnd(s, 0, None, None, "1", 1);
    PolyStep(s, 0, None, None, Leaf("1"), 1, "-", 3);
    NegatedNumber(s, 5, "2", 6);
    assert "-" + "2" == "-2";
    MonoPrimaryEnd(s, 3, None, None, minus, 5, Leaf("-2"), 6);
    PolyStep(s, 3, Some(minus), Some(Leaf("1")), Leaf("-2"), 6, "-", 8);
    NegatedNumber(s, 10, "3", 11);
    assert "-" + "3" == "-3";
    MonoPrimaryEnd(s, 8, None, None, minus, 10, Leaf("-3"), 11);
    PolyEnd(s, 8, Some(minus), Some(t1), Leaf("-3"), 11);
  }

  lemma NegatedNumbersTokens(s: string)
    requires s == "1 - -2 - -3"
    ensures ReadSpec(s, 0) == (Some(Symbol("1", Number)), 1)
    ensures PeekSpec(s, 1) == Some(Symbol("-", Operator)) && ReadSpec(s, 1) == (Some(Symbol("-", Operator)), 3)
    ensures ReadSpec(s, 3) == (Some(Symbol("-", Operator)), 5)
    ensures ReadSpec(s, 5) == (Some(Symbol("2", Number)), 6)
  {
    NumberAt(s, 0, 0, 1);
    assert s[0..1] == "1";
    OneCharAt(s, 1, 2);
    OneCharAt(s, 3, 4);
    NumberAt(s, 5, 5, 6);
    assert s[5..6] == "2";
  }

  lemma NegatedNumbersLaterTokens(s: string)
    requires s == "1 - -2 - -3"
    ensures PeekSpec(s, 6) == Some(Symbol("-", Operator)) && ReadSpec(s, 6) == (Some(Symbol("-", Operator)), 8)
    ensures ReadSpec(s, 8) == (Some(Symbol("-", Operator)), 10)
    ensures ReadSpec(s, 10) == (Some(Symbol("3", Number)), 11)
    ensures PeekSpec(s, 11) == None
  {
    OneCharAt(s, 6, 7);
    OneCharAt(s, 8, 9);
    NumberAt(s, 10, 10, 11);
    assert s[10..11] == "3";
    EndOfInput(s, 11);
  }

  lemma NegatedNumbersValue()
    ensures CalcInteger(Node("-", Node("-", Leaf("1"), Leaf("-2")), Leaf("-3"))) == Ok(6)
  {
    LeafDenotes("1", 1);
    LeafDenotes("-2", -2);
    LeafDenotes("-3", -3);
    LeftNested('-', '-', "1", "-2", "-3", 1.0, -2.0, -3.0, 3.0, 6.0);
    IntegerResult(Node("-", Node("-", Leaf("1"), Leaf("-2")), Leaf("-3")), 6);
  }

  /** `"-12 / -6 / -2"` is `div(div(-12, -6), -2)`, whose value is -1. */
  lemma DivisionChain()
    ensures Parse("-12 / -6 / -2") == Ok(Node("/", Node("/", Leaf("-12"), Leaf("-6")), Leaf("-2")))
    ensures CalcInteger(Parse("-12 / -6 / -2").value) == Ok(-1)
  {
    DivisionChainParse();
    DivisionChainValue();
  }

  lemma DivisionChainParse()
    ensures Parse("-12 / -6 / -2") == Ok(Node("/", Node("/", Leaf("-12"), Leaf("-6")), Leaf("-2")))
  {
    var s := "-12 / -6 / -2";
    DivisionChainTokens(s);
    DivisionChainLaterTokens(s);
    var minus, slash := Symbol("-", Operator), Some(Symbol("/", Operator));
    var t1 := Node("/", Leaf("-12"), Leaf("-6"));
    var t := Node("/", t1, Leaf("-2"));
    NegatedNumber(s, 1, "12", 3);
    assert "-" + "12" == "-12";
    MonoPrimaryStep(s, 0, None, None, minus, 1, Leaf("-12"), 3, "/", 5);
    NegatedNumber(s, 7, "6", 8);
    assert "-" + "6" == "-6";
    MonoPrimaryStep(s, 5, slash, Some(Leaf("-12")), minus, 7, Leaf("-6"), 8, "/", 10);
    NegatedNumber(s, 12, "2", 13);
    assert "-" + "2" == "-2";
    MonoPrimaryEnd(s, 10, slash, Some(t1), minus, 12, Leaf("-2"), 13);
    PolyEnd(s, 0, None, None, t, 13);
  }

  lemma DivisionChainTokens(s: string)
    requires s == "-12 / -6 / -2"
    ensures ReadSpec(s, 0) == (Some(Symbol("-", Operator)), 1)
    ensures ReadSpec(s, 1) == (Some(Symbol("12", Number)), 3)
    ensures PeekSpec(s, 3) == Some(Symbol("/", Operator)) && ReadSpec(s, 3) == (Some(Symbol("/", Operator)), 5)
    ensures ReadSpec(s, 5) == (Some(Symbol("-", Operator)), 7)
  {
    OneCharAt(s, 0, 0);
    NumberAt(s, 1, 1, 3);
    assert s[1..3] == "12";
    OneCharAt(s, 3, 4);
    OneCharAt(s, 5, 6);
  }

  lemma DivisionChainLaterTokens(s: string)
    requires s == "-12 / -6 / -2"
    ensures ReadSpec(s, 7) == (Some(Symbol("6", Number)), 8)
    ensures PeekSpec(s, 8) == Some(Symbol("/", Operator)) && ReadSpec(s, 8) == (Some(Symbol("/", Operator)), 10)
    ensures ReadSpec(s, 10) == (Some(Symbol("-", Operator)), 12)
    ensures ReadSpec(s, 12) == (Some(Symbol("2", Number)), 13)
    ensures PeekSpec(s, 13) == None
  {
    NumberAt(s, 7, 7, 8);
    assert s[7..8] == "6";
    OneCharAt(s, 8, 9);
    OneCharAt(s, 10, 11);
    NumberAt(s, 12, 12, 13);
    assert s[12..13] == "2";
    EndOfInput(s, 13);
  }

  lemma LeafMinusTwelve()
    ensures Denote(Leaf("-12")) == Ok(-12.0)
  {
    assert NatToString(12) == "12";
    LeafDenotes("-12", -12);
  }

  lemma DivisionChainValue()
    ensures CalcInteger(Node("/", Node("/", Leaf("-12"), Leaf("-6")), Leaf("-2"))) == Ok(-1)
  {
    LeafMinusTwelve();
    LeafDenotes("-6", -6);
    LeafDenotes("-2", -2);
    LeftNested('/', '/', "-12", "-6", "-2", -12.0, -6.0, -2.0, 2.0, -1.0);
    IntegerResult(Node("/", Node("/", Leaf("-12"), Leaf("-6")), Leaf("-2")), -1);
  }

  /** `"1 * -(2 * -3)"`: a minus before `(` is `mul(-1, …)`; the value is 6. */
  lemma NegatedParentheses()
    ensures Parse("1 * -(2 * -3)") == Ok(Node("*", Leaf("1"), Node("*", Leaf("-1"), Node("*", Leaf("2"), Leaf("-3")))))
    ensures CalcInteger(Parse("1 * -(2 * -3)").value) == Ok(6)
  {
    NegatedParenthesesParse();
    NegatedParenthesesValue();
  }

  lemma NegatedParenthesesParse()
    ensures Parse("1 * -(2 * -3)") ==
            Ok(Node("*", Leaf("1"), Node("*", Leaf("-1"), Node("*", Leaf("2"), Leaf("-3")))))
  {
    var s := "1 * -(2 * -3)";
    NegatedParenthesesTokens(s);
    NegatedParenthesesLaterTokens(s);
    var minus, times := Symbol("-", Operator), Some(Symbol("*", Operator));
    var inner := Node("*", Leaf("2"), Leaf("-3"));
    var neg := Node("*", Leaf("-1"), inner);
    NegatedNumber(s, 11, "3", 12);
    assert "-" + "3" == "-3";
    MonoNumberStep(s, 6, None, None, "2", 7, "*", 9);
    MonoPrimaryEnd(s, 9, times, Some(Leaf("2")), minus, 11, Leaf("-3"), 12);
    PolyEnd(s, 6, None, None, inner, 12);
    ParenthesizedOf(s, 6, inner, 12, 13);
    NegatedParenthesis(s, 5, 6, inner, 13);
    MonoPrimaryEnd(s, 3, times, Some(Leaf("1")), minus, 5, neg, 13);
    MonoNumberStep(s, 0, None, None, "1", 1, "*", 3);
    PolyEnd(s, 0, None, None, Node("*", Leaf("1"), neg), 13);
  }

  lemma NegatedParenthesesTokens(s: string)
    requires s == "1 * -(2 * -3)"
    ensures ReadSpec(s, 0) == (Some(Symbol("1", Number)), 1)
    ensures PeekSpec(s, 1) == Some(Symbol("*", Operator)) && ReadSpec(s, 1) == (Some(Symbol("*", Operator)), 3)
    ensures ReadSpec(s, 3) == (Some(Symbol("-", Operator)), 5)
    ensures ReadSpec(s, 5) == (Some(Symbol("(", Parenthesis)), 6)
  {
    NumberAt(s, 0, 0, 1);
    assert s[0..1] == "1";
    OneCharAt(s, 1, 2);
    OneCharAt(s, 3, 4);
    OneCharAt(s, 5, 5);
  }

  lemma NegatedParenthesesLaterTokens(s: string)
    requires s == "1 * -(2 * -3)"
    ensures ReadSpec(s, 6) == (Some(Symbol("2", Number)), 7)
    ensures PeekSpec(s, 7) == Some(Symbol("*", Operator)) && ReadSpec(s, 7) == (Some(Symbol("*", Operator)), 9)
    ensures ReadSpec(s, 9) == (Some(Symbol("-", Operator)), 11)
    ensures ReadSpec(s, 11) == (Some(Symbol("3", Number)), 12)
    ensures PeekSpec(s, 12) == Some(Symbol(")", Parenthesis)) && ReadSpec(s, 12) == (Some(Symbol(")", Parenthesis)), 13)
    ensures PeekSpec(s, 13) == None
  {
    NumberAt(s, 6, 6, 7);
    assert s[6..7] == "2";
    OneCharAt(s, 7, 8);
    OneCharAt(s, 9, 10);
    NumberAt(s, 11, 11, 12);
    assert s[11..12] == "3";
    OneCharAt(s, 12, 12);
    EndOfInput(s, 13);
  }

  lemma InnerProductValue()
    ensures Evaluable(Node("*", Leaf("2"), Leaf("-3")))
    ensures Denote(Node("*", Leaf("2"), Leaf("-3"))) == Ok(-6.0)
  {
    LeafDenotes("2", 2);
    LeafDenotes("-3", -3);
    DenoteNode('*', Leaf("2"), Leaf("-3"), 2.0, -3.0);
  }

  lemma NegatedProductValue()
    ensures Evaluable(Node("*", Leaf("-1"), Node("*", Leaf("2"), Leaf("-3"))))
    ensures Denote(Node("*", Leaf("-1"), Node("*", Leaf("2"), Leaf("-3")))) == Ok(6.0)
  {
    InnerProductValue();
    LeafDenotes("-1", -1);
    DenoteNode('*', Leaf("-1"), Node("*", Leaf("2"), Leaf("-3")), -1.0, -6.0);
  }

  lemma NegatedParenthesesValue()
    ensures CalcInteger(Node("*", Leaf("1"), Node("*", Leaf("-1"), Node("*", Leaf("2"), Leaf("-3"))))) == Ok(6)
  {
    var neg := Node("*", Leaf("-1"), Node("*", Leaf("2"), Leaf("-3")));
    NegatedProductValue();
    LeafDenotes("1", 1);
    DenoteNode('*', Leaf("1"), neg, 1.0, 6.0);
    IntegerResult(Node("*", Leaf("1"), neg), 6);
  }

  /** `"1 + 2 * 3"`: `*` binds tighter than `+`. */
  lemma Precedence()
    ensures Parse("1 + 2 * 3") == Ok(Node("+", Leaf("1"), Node("*", Leaf("2"), Leaf("3"))))
  {
    var s := "1 + 2 * 3";
    ChainTokens(s, '+', '*');
    var plus, times := Some(Symbol("+", Operator)), Some(Symbol("*", Operator));
    var prod := Node("*", Leaf("2"), Leaf("3"));
    MonoNumberEnd(s, 0, None, None, "1", 1);
    MonoNumberStep(s, 3, None, None, "2", 5, "*", 7);
    MonoNumberEnd(s, 7, times, Some(Leaf("2")), "3", 9);
    PolyStep(s, 0, None, None, Leaf("1"), 1, "+", 3);
    PolyEnd(s, 3, plus, Some(Leaf("1")), prod, 9);
  }

  /** `"2(3)"`: a `(` right after a primary multiplies. */
  lemma ImplicitMultiplication()
    ensures Parse("2(3)") == Ok(Node("*", Leaf("2"), Leaf("3")))
  {
    var s := "2(3)";
    NumberAt(s, 0, 0, 1);
    assert s[0..1] == "2";
    OneCharAt(s, 1, 1);
    NumberAt(s, 2, 2, 3);
    assert s[2..3] == "3";
    OneCharAt(s, 3, 3);
    EndOfInput(s, 4);
    assert Monomial(s, 2) == Ok((Leaf("3"), 3));
    assert Polynomial(s, 2) == Ok((Leaf("3"), 3));
    assert Parenthesized(s, Symbol("(", Parenthesis), 2) == Ok((Leaf("3"), 4));
    var t := Node("*", Leaf("2"), Leaf("3"));
    assert MonoLoop(s, 1, Some(Symbol("*", Operator)), Some(Leaf("2"))) == Ok((t, 4));
    assert MonoLoop(s, 0, None, None) == Ok((t, 4));
    assert PolyLoop(s, 0, None, None) == Ok((t, 4));
  }

  /** `"1 + 2) 3"`: the top level stops at the unmatched `)` and the rest is never read. */
  lemma UnmatchedCloseIgnored()
    ensures Parse("1 + 2) 3") == Ok(Node("+", Leaf("1"), Leaf("2")))
  {
    var s := "1 + 2) 3";
    NumberAt(s, 0, 0, 1);
    assert s[0..1] == "1";
    OneCharAt(s, 1, 2);
    NumberAt(s, 3, 4, 5);
    assert s[4..5] == "2";
    OneCharAt(s, 5, 5);
    assert Monomial(s, 0) == Ok((Leaf("1"), 1));
    assert Monomial(s, 3) == Ok((Leaf("2"), 5));
    var t := Node("+", Leaf("1"), Leaf("2"));
    assert PolyLoop(s, 3, Some(Symbol("+", Operator)), Some(Leaf("1"))) == Ok((t, 5));
    assert PolyLoop(s, 0, None, None) == Ok((t, 5));
  }

  // ---------------------------------------------------------------------------
  // Errors

  /** `"1 + 2 + "`: the input ends where a primary is expected. */
  lemma TrailingOperator()
    ensures Parse("1 + 2 + ") == Err(ParseError)
  {
    var s := "1 + 2 + ";
    TrailingOperatorTokens(s);
    var plus := Some(Symbol("+", Operator));
    MonoNumberEnd(s, 0, None, None, "1", 1);
    PolyStep(s, 0, None, None, Leaf("1"), 1, "+", 3);
    MonoNumberEnd(s, 3, None, None, "2", 5);
    PolyStep(s, 3, plus, Some(Leaf("1")), Leaf("2"), 5, "+", 7);
    MonoAtEnd(s, 7, None, None);
    PolyFails(s, 7, plus, Some(Node("+", Leaf("1"), Leaf("2"))));
  }

  lemma TrailingOperatorTokens(s: string)
    requires s == "1 + 2 + "
    ensures ReadSpec(s, 0) == (Some(Symbol("1", Number)), 1)
    ensures PeekSpec(s, 1) == Some(Symbol("+", Operator)) && ReadSpec(s, 1) == (Some(Symbol("+", Operator)), 3)
    ensures ReadSpec(s, 3) == (Some(Symbol("2", Number)), 5)
    ensures PeekSpec(s, 5) == Some(Symbol("+", Operator)) && ReadSpec(s, 5) == (Some(Symbol("+", Operator)), 7)
    ensures ReadSpec(s, 7).0 == None
  {
    NumberAt(s, 0, 0, 1);
    assert s[0..1] == "1";
    OneCharAt(s, 1, 2);
    NumberAt(s, 3, 4, 5);
    assert s[4..5] == "2";
    OneCharAt(s, 5, 6);
    EndOfInput(s, 7);
  }

  /** `"(1+2+3"`: a `(` without its `)`. */
  lemma MissingClose()
    ensures Parse("(1+2+3") == Err(ParseError)
  {
    var s := "(1+2+3";
    MissingCloseTokens(s);
    var plus := Some(Symbol("+", Operator));
    var t1 := Node("+", Leaf("1"), Leaf("2"));
    var t := Node("+", t1, Leaf("3"));
    MonoNumberEnd(s, 1, None, None, "1", 2);
    PolyStep(s, 1, None, None, Leaf("1"), 2, "+", 3);
    MonoNumberEnd(s, 3, None, None, "2", 4);
    PolyStep(s, 3, plus, Some(Leaf("1")), Leaf("2"), 4, "+", 5);
    MonoNumberEnd(s, 5, None, None, "3", 6);
    PolyEnd(s, 5, plus, Some(t1), Leaf("3"), 6);
    ParenthesizedUnclosed(s, 1, t, 6);
    MonoPrimaryFails(s, 0, None, None, Symbol("(", Parenthesis), 1);
    PolyFails(s, 0, None, None);
  }

  lemma MissingCloseTokens(s: string)
    requires s == "(1+2+3"
    ensures ReadSpec(s, 0) == (Some(Symbol("(", Parenthesis)), 1)
    ensures ReadSpec(s, 1) == (Some(Symbol("1", Number)), 2)
    ensures PeekSpec(s, 2) == Some(Symbol("+", Operator)) && ReadSpec(s, 2) == (Some(Symbol("+", Operator)), 3)
    ensures ReadSpec(s, 3) == (Some(Symbol("2", Number)), 4)
    ensures PeekSpec(s, 4) == Some(Symbol("+", Operator)) && ReadSpec(s, 4) == (Some(Symbol("+", Operator)), 5)
    ensures ReadSpec(s, 5) == (Some(Symbol("3", Number)), 6)
    ensures PeekSpec(s, 6) == None
  {
    OneCharAt(s, 0, 0);
    NumberAt(s, 1, 1, 2);
    assert s[1..2] == "1";
    OneCharAt(s, 2, 2);
    NumberAt(s, 3, 3, 4);
    assert s[3..4] == "2";
    OneCharAt(s, 4, 4);
    NumberAt(s, 5, 5, 6);
    assert s[5..6] == "3";
    EndOfInput(s, 6);
  }

  /** `"1 + 2 2"`: a number where an operator is expected. */
  lemma NumberAfterNumber()
    ensures Parse("1 + 2 2") == Err(ParseError)
  {
    var s := "1 + 2 2";
    NumberAt(s, 0, 0, 1);
    assert s[0..1] == "1";
    OneCharAt(s, 1, 2);
    NumberAt(s, 3, 4, 5);
    assert s[4..5] == "2";
    NumberAt(s, 5, 6, 7);
    assert Monomial(s, 0) == Ok((Leaf("1"), 1));
    assert Monomial(s, 3) == Err(ParseError);
  }

  /** `")1 + 2"`: a leading `)`. */
  lemma LeadingClose()
    ensures Parse(")1 + 2") == Err(ParseError)
  {
    var s := ")1 + 2";
    OneCharAt(s, 0, 0);
    assert Monomial(s, 0) == Err(ParseError);
  }

  /** `"1 + + 2"`: a `+` where a primary is expected. */
  lemma DoubleOperator()
    ensures Parse("1 + + 2") == Err(ParseError)
  {
    var s := "1 + + 2";
    NumberAt(s, 0, 0, 1);
    assert s[0..1] == "1";
    OneCharAt(s, 1, 2);
    OneCharAt(s, 3, 4);
    assert Monomial(s, 0) == Ok((Leaf("1"), 1));
    assert Monomial(s, 3) == Err(ParseError);
  }

  /** `"sin(1)"`: a function name at a primary position. */
  lemma FunctionName()
    ensures Parse("sin(1)") == Err(ParseError)
  {
    var s := "sin(1)";
    WordAt(s, 0, 0, 3);
    assert Monomial(s, 0) == Err(ParseError);
  }
}
