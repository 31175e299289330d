/**
 * `parser.Parser`: the recursive-descent parser, driving a `Reader`. Each method
 * performs the loop or the case analysis of its Java counterpart on the shared
 * reader and is proved to return what the matching `Grammar` function says and
 * to leave the reader at the position that function gives. An
 * `ExpressionParseException` is the result `Err(ParseError)`, passed up by
 * every caller.
 */
module Parsers {
  import opened Results
  import opened Symbols
  import opened Terms
  import opened Readers
  import opened Grammar

  /** A method's result and final position are those of the grammar's `spec`; after an error only the error counts. */
  predicate Completes(r: Result<Term>, pos: int, spec: Result<Parsed>)
  {
    match spec
    case Ok(v) => r == Ok(v.0) && pos == v.1
    case Err(e) => r == Err(e)
  }

  /** `doParse(expression)`: a fresh reader at position 0, then one polynomial. */
  method DoParse(expression: string) returns (r: Result<Term>)
    ensures r == Parse(expression)
    ensures r.Ok? ==> WellFormed(r.value)
  {
    var reader := new Reader(expression);
    r := ParsePolynomial(reader);
  }

  /** `parsePolynomial(reader)`. */
  method ParsePolynomial(reader: Reader) returns (r: Result<Term>)
    requires reader.Valid()
    modifies reader
    ensures reader.Valid()
    ensures Completes(r, reader.pos, Polynomial(reader.Text(), old(reader.pos)))
    decreases reader.len - reader.pos, 4
  {
    ghost var s, p0 := reader.Text(), reader.pos;
    var term: Option<Term> := None;
    var operator: Option<Symbol> := None;
    while true
      invariant reader.Valid() && p0 <= reader.pos
      invariant Polynomial(s, p0) == PolyLoop(s, reader.pos, operator, term)
      decreases reader.len - reader.pos
    {
      var monomial := ParseMonomial(reader);
      if monomial.Err? {
        return Err(monomial.error);
      }
      term := Some(NextTerm(operator, term, monomial.value));
      operator := reader.Peek();
      if operator.None? {
        break;
      }
      if operator.value.text == ")" {
        break;
      }
      operator := reader.Read();
    }
    return Ok(term.value);
  }

  /** `parseMonomial(reader)`. */
  method ParseMonomial(reader: Reader) returns (r: Result<Term>)
    requires reader.Valid()
    modifies reader
    ensures reader.Valid()
    ensures Completes(r, reader.pos, Monomial(reader.Text(), old(reader.pos)))
    decreases reader.len - reader.pos, 2
  {
    ghost var s, p0 := reader.Text(), reader.pos;
    var term: Option<Term> := None;
    var operator: Option<Symbol> := None;
    while true
      invariant reader.Valid() && p0 <= reader.pos
      invariant Monomial(s, p0) == MonoLoop(s, reader.pos, operator, term)
      decreases reader.len - reader.pos
    {
      ghost var p := reader.pos;
      var newSymbol := reader.Read();
      if newSymbol.None? {
        return Err(ParseError);
      }
      NumberText(s, p);
      var next: Result<Term>;
      match newSymbol.value.kind {
        case Number =>
          next := Ok(Term(newSymbol.value, None, None));
        case Operator =>
          next := ParseNegatedTerm(newSymbol.value, reader);
        case Parenthesis =>
          next := ParseParenthesizedTerm(newSymbol.value, reader);
        case MathFunction =>
          return Err(ParseError);
      }
      if next.Err? {
        return Err(next.error);
      }
      term := Some(NextTerm(operator, term, next.value));

      operator := reader.Peek();
      if operator.None? {
        break;
      }
      var symbol := operator.value.text;
      match operator.value.kind {
        case Operator =>
          if symbol == "+" || symbol == "-" {
            return Ok(term.value);
          }
          operator := reader.Read();
        case Parenthesis =>
          if symbol == ")" {
            return Ok(term.value);
          }
          operator := Some(Symbol("*", Operator));
        case _ =>
          return Err(ParseError);
      }
    }
    return Ok(term.value);
  }

  /** `perseParenthesizedTerm(newSymbol, reader)`. */
  method ParseParenthesizedTerm(newSymbol: Symbol, reader: Reader) returns (r: Result<Term>)
    requires reader.Valid()
    modifies reader
    ensures reader.Valid()
    ensures Completes(r, reader.pos, Parenthesized(reader.Text(), newSymbol, old(reader.pos)))
    decreases reader.len - reader.pos, 5
  {
    if newSymbol.text == "(" {
      var term := ParsePolynomial(reader);
      if term.Err? {
        return term;
      }
      var parenthesis := reader.Peek();
      if parenthesis.None? {
        return Err(ParseError);
      }
      var _ := reader.Read();
      return term;
    }
    return Err(ParseError);
  }

  /** `parseNegatedTerm(newSymbol, reader)`. */
  method ParseNegatedTerm(newSymbol: Symbol, reader: Reader) returns (r: Result<Term>)
    requires reader.Valid()
    modifies reader
    ensures reader.Valid()
    ensures Completes(r, reader.pos, Negated(reader.Text(), newSymbol, old(reader.pos)))
    decreases reader.len - reader.pos, 0
  {
    if newSymbol.text == "-" {
      var next := reader.Read();
      if next.Some? {
        if next.value.kind == Number {
          return Ok(Term(Symbol("-" + next.value.text, Number), None, None));
        } else if next.value.kind == Parenthesis {
          var mul := Symbol("*", Operator);
          var left := Term(Symbol("-1", Number), None, None);
          var right := ParseParenthesizedTerm(next.value, reader);
          if right.Err? {
            return right;
          }
          return Ok(Term(mul, Some(left), Some(right.value)));
        } else {
          return Err(ParseError);
        }
      } else {
        return Err(ParseError);
      }
    }
    return Err(ParseError);
  }
}
