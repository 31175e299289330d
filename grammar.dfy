/**
 * What `parser.Parser` computes, as pure functions of the text and the read
 * position. Each function mirrors one method of the parser: it returns the tree
 * built and the position after it, or the error that method raises. The loops
 * of `parsePolynomial` and `parseMonomial` are the tail-recursive `PolyLoop`
 * and `MonoLoop`, whose extra arguments are the loop's `operator` and `term`
 * variables.
 *
 * Recursion is on the unread length, `|s| - p`; at equal length a function may
 * only call one of lower rank (`Parenthesized` calls `Polynomial` before
 * reading, `Polynomial` calls `Monomial`).
 */
module Grammar {
  import opened Results
  import opened Text
  import opened Symbols
  import opened Terms
  import opened Readers
  import opened TermText

  /** A tree with the position after it. */
  type Parsed = (Term, nat)

  /** `getNextTerm(operator, prevTerm, newTerm)`. */
  function NextTerm(operator: Option<Symbol>, prev: Option<Term>, next: Term): (t: Term)
    ensures operator.None? ==> t == next
    ensures operator.Some? ==> t.sym == operator.value && t.left == prev && t.right == Some(next)
  {
    match operator
    case None => next
    case Some(op) => Term(op, prev, Some(next))
  }

  /** An OPERATOR symbol with one of the four operator texts. */
  predicate IsOperatorSymbol(sym: Symbol)
  {
    sym.kind == Operator && IsOperatorText(sym.text)
  }

  /** The loop variables of a fold: a pending operator has an operator text and a left operand. */
  predicate Pending(operator: Option<Symbol>, term: Option<Term>)
  {
    operator.Some? ==> IsOperatorSymbol(operator.value) && term.Some? && WellFormed(term.value) && PlainLeaves(term.value)
  }

  /** Where `parseMonomial` returns: at the end, before `+` or `-`, or before `)`. */
  predicate MonoStop(s: string, q: nat)
    requires q <= |s|
  {
    var o := PeekSpec(s, q);
    o.None? || o.value == Symbol("+", Operator) || o.value == Symbol("-", Operator)
    || o.value == Symbol(")", Parenthesis)
  }

  /** Where `parsePolynomial` returns: at the end or before `)`. */
  predicate PolyStop(s: string, q: nat)
    requires q <= |s|
  {
    var o := PeekSpec(s, q);
    o.None? || o.value == Symbol(")", Parenthesis)
  }

  /** `doParse(expression)`. */
  function Parse(s: string): (r: Result<Term>)
    ensures r.Ok? ==> WellFormed(r.value) && PlainLeaves(r.value)
  {
    var v :- Polynomial(s, 0);
    Ok(v.0)
  }

  /** `parsePolynomial(reader)`: monomials joined left to right by `+` and `-`. */
  function Polynomial(s: string, p: nat): (r: Result<Parsed>)
    requires p <= |s|
    ensures r.Ok? ==> p < r.value.1 <= |s|
    ensures r.Ok? ==> WellFormed(r.value.0) && PlainLeaves(r.value.0) && PolyStop(s, r.value.1)
    decreases |s| - p, 4
  {
    PolyLoop(s, p, None, None)
  }

  /** One pass of the `parsePolynomial` loop with the current `operator` and `term`. */
  function PolyLoop(s: string, p: nat, operator: Option<Symbol>, term: Option<Term>): (r: Result<Parsed>)
    requires p <= |s|
    ensures r.Ok? ==> p < r.value.1 <= |s|
    ensures r.Ok? ==> PolyStop(s, r.value.1)
    ensures r.Ok? && Pending(operator, term) ==> WellFormed(r.value.0) && PlainLeaves(r.value.0)
    decreases |s| - p, 3
  {
    var m :- Monomial(s, p);
    var t := NextTerm(operator, term, m.0);
    var o := PeekSpec(s, m.1);
    if o.None? || o.value.text == ")" then Ok((t, m.1))
    else
      PeekThenRead(s, m.1);
      var (next, q) := ReadSpec(s, m.1);
      PolyLoop(s, q, next, Some(t))
  }

  /** `parseMonomial(reader)`: primaries joined left to right by `*`, `/` and implicit `*`. */
  function Monomial(s: string, p: nat): (r: Result<Parsed>)
    requires p <= |s|
    ensures r.Ok? ==> p < r.value.1 <= |s|
    ensures r.Ok? ==> WellFormed(r.value.0) && PlainLeaves(r.value.0) && MonoStop(s, r.value.1)
    decreases |s| - p, 2
  {
    MonoLoop(s, p, None, None)
  }

  /** One pass of the `parseMonomial` loop with the current `operator` and `term`. */
  function MonoLoop(s: string, p: nat, operator: Option<Symbol>, term: Option<Term>): (r: Result<Parsed>)
    requires p <= |s|
    ensures r.Ok? ==> p < r.value.1 <= |s|
    ensures r.Ok? ==> MonoStop(s, r.value.1)
    ensures r.Ok? && Pending(operator, term) ==> WellFormed(r.value.0) && PlainLeaves(r.value.0)
    decreases |s| - p, 1
  {
    var (sym, q) := ReadSpec(s, p);
    if sym.None? then Err(ParseError)
    else
      NumberText(s, p);
      var m :- Primary(s, sym.value, q);
      var t := NextTerm(operator, term, m.0);
      match PeekSpec(s, m.1)
      case None => Ok((t, m.1))
      case Some(o) =>
        match o.kind
        case Operator =>
          if o.text == "+" || o.text == "-" then Ok((t, m.1))
          else
            PeekThenRead(s, m.1);
            var (next, q2) := ReadSpec(s, m.1);
            MonoLoop(s, q2, next, Some(t))
        case Parenthesis =>
          if o.text == ")" then Ok((t, m.1))
          else MonoLoop(s, m.1, Some(Symbol("*", Operator)), Some(t))
        case _ => Err(ParseError)
  }

  /**
   * The `switch (newSymbol.type())` of `parseMonomial`: a NUMBER is a leaf, an
   * OPERATOR starts a negation, a PARENTHESIS a parenthesised term, and a
   * MATHFUNCTION is an error.
   */
  function Primary(s: string, sym: Symbol, q: nat): (r: Result<Parsed>)
    requires q <= |s|
    requires sym.kind == Number ==> !IsOperatorText(sym.text) && forall i :: 0 <= i < |sym.text| ==> !IsMark(sym.text[i])
    ensures r.Ok? ==> q <= r.value.1 <= |s| && WellFormed(r.value.0) && PlainLeaves(r.value.0)
    decreases |s| - q, 6
  {
    match sym.kind
    case Number => Ok((Term(sym, None, None), q))
    case Operator => Negated(s, sym, q)
    case Parenthesis => Parenthesized(s, sym, q)
    case MathFunction => Err(ParseError)
  }

  /**
   * `perseParenthesizedTerm(newSymbol, reader)`: after `(`, a polynomial and the
   * `)` that ends it; no node is made for the parentheses.
   */
  function Parenthesized(s: string, sym: Symbol, q: nat): (r: Result<Parsed>)
    requires q <= |s|
    ensures r.Ok? ==> q < r.value.1 <= |s| && WellFormed(r.value.0) && PlainLeaves(r.value.0)
    ensures r.Ok? ==> sym.text == "(" && s[r.value.1 - 1] == ')'
    decreases |s| - q, 5
  {
    if sym.text == "(" then
      var inner :- Polynomial(s, q);
      if PeekSpec(s, inner.1).None? then Err(ParseError)
      else
        PeekThenRead(s, inner.1);
        var (_, q2) := ReadSpec(s, inner.1);
        Ok((inner.0, q2))
    else Err(ParseError)
  }

  /**
   * `parseNegatedTerm(newSymbol, reader)`: `-` followed by a number is the leaf
   * `-n`; followed by `(` it is `-1 * (…)`; anything else is an error.
   */
  function Negated(s: string, sym: Symbol, q: nat): (r: Result<Parsed>)
    requires q <= |s|
    ensures r.Ok? ==> q < r.value.1 <= |s| && WellFormed(r.value.0) && PlainLeaves(r.value.0)
    ensures r.Ok? ==> sym.text == "-"
    decreases |s| - q, 0
  {
    if sym.text == "-" then
      var (next, q2) := ReadSpec(s, q);
      if next.None? then Err(ParseError)
      else if next.value.kind == Number then
        NumberText(s, q);
        Ok((Term(Symbol("-" + next.value.text, Number), None, None), q2))
      else if next.value.kind == Parenthesis then
        var inner :- Parenthesized(s, next.value, q2);
        Ok((Term(Symbol("*", Operator), Some(Term(Symbol("-1", Number), None, None)), Some(inner.0)), inner.1))
      else Err(ParseError)
    else Err(ParseError)
  }

  /** What `toString()` prints for a parsed tree reads back as that tree. */
  lemma ParsedTreeReadsBack(s: string)
    requires Parse(s).Ok?
    ensures ReadTerm(Printed(Parse(s).value)) == Ok((Parse(s).value, ""))
  {
    PrintedReadsBack(Parse(s).value);
  }

  /** A NUMBER token is never an operator text, nor is the negation of one; neither holds a mark of the printed notation. */
  lemma NumberText(s: string, p: nat)
    requires p <= |s|
    ensures ReadSpec(s, p).0.Some? && ReadSpec(s, p).0.value.kind == Number ==>
              var text := ReadSpec(s, p).0.value.text;
              |text| > 0 && IsDigit(text[0]) && !IsOperatorText(text) && !IsOperatorText("-" + text)
              && (forall i :: 0 <= i < |text| ==> !IsMark(text[i]))
              && (forall i :: 0 <= i < |"-" + text| ==> !IsMark(("-" + text)[i]))
  {
    if ReadSpec(s, p).0.Some? && ReadSpec(s, p).0.value.kind == Number {
      NumberToken(s, p);
      var text := ReadSpec(s, p).0.value.text;
      forall i | 0 <= i < |"-" + text|
        ensures !IsMark(("-" + text)[i])
      {
        if i > 0 { assert ("-" + text)[i] == text[i - 1]; }
      }
    }
  }
}
