/**
 * `model.Term`: an expression tree node. The label is a `Symbol`; the children
 * are nullable references, here `Option<Term>`. Nodes never change after
 * construction, so a tree is a datatype value.
 *
 * Evaluation dispatches on the label's text only: `+ - * /` apply the matching
 * `BigFraction` operation to the children's values (left first), any other text
 * is read by `parseBigFraction`. A missing child under an operator text is a
 * `NullPointerException` in Java; the model excludes it with `Evaluable` and
 * `Printable`.
 */
module Terms {
  import opened Results
  import opened Arith
  import opened Decimals
  import opened Fractions
  import opened Symbols

  datatype Term = Term(sym: Symbol, left: Option<Term>, right: Option<Term>)

  /** The operator a text spells, if it is one of `"+"`, `"-"`, `"*"`, `"/"`. */
  function OperatorOf(s: string): (r: Option<char>)
    ensures r.Some? <==> |s| == 1 && s[0] in "+-*/"
    ensures r.Some? ==> s == [r.value]
  {
    if |s| == 1 && s[0] in "+-*/" then Some(s[0]) else None
  }

  /** The four operator texts `calcFraction` and `toString` dispatch on. */
  predicate IsOperatorText(s: string)
  {
    OperatorOf(s).Some?
  }

  /** Every node whose text is an operator has both children. */
  predicate Evaluable(t: Term)
  {
    IsOperatorText(t.sym.text) ==>
      t.left.Some? && t.right.Some? && Evaluable(t.left.value) && Evaluable(t.right.value)
  }

  /** Every OPERATOR-kind node with an operator text has both children. */
  predicate Printable(t: Term)
  {
    t.sym.kind == Operator && IsOperatorText(t.sym.text) ==>
      t.left.Some? && t.right.Some? && Printable(t.left.value) && Printable(t.right.value)
  }

  /**
   * The shape of every tree the parser builds: operator nodes have kind
   * OPERATOR, an operator text and both children; leaves are NUMBER symbols
   * without children.
   */
  predicate WellFormed(t: Term)
  {
    if t.sym.kind == Operator then
      IsOperatorText(t.sym.text) && t.left.Some? && t.right.Some?
      && WellFormed(t.left.value) && WellFormed(t.right.value)
    else
      t.sym.kind == Number && !IsOperatorText(t.sym.text) && t.left.None? && t.right.None?
  }

  lemma {:induction false} WellFormedEvaluable(t: Term)
    requires WellFormed(t)
    ensures Evaluable(t) && Printable(t)
  {
    if t.sym.kind == Operator {
      WellFormedEvaluable(t.left.value);
      WellFormedEvaluable(t.right.value);
    }
  }

  // ---------------------------------------------------------------------------
  // Evaluation

  /** `calcFraction()`: post-order evaluation; the first error raised aborts it. */
  function CalcFraction(t: Term): (r: Result<BigFraction>)
    requires Evaluable(t)
    ensures r.Ok? ==> r.value.Valid()
  {
    match OperatorOf(t.sym.text)
    case Some('+') =>
      var a :- CalcFraction(t.left.value);
      var b :- CalcFraction(t.right.value);
      Ok(a.Add(b))
    case Some('-') =>
      var a :- CalcFraction(t.left.value);
      var b :- CalcFraction(t.right.value);
      Ok(a.Sub(b))
    case Some('*') =>
      var a :- CalcFraction(t.left.value);
      var b :- CalcFraction(t.right.value);
      Ok(a.Mul(b))
    case Some(_) =>
      var a :- CalcFraction(t.left.value);
      var b :- CalcFraction(t.right.value);
      a.Div(b)
    case None => ParseBigFraction(t.sym.text)
  }

  /** `calc()`. */
  function Calc(t: Term): (r: Result<BigFraction>)
    requires Evaluable(t)
    ensures r.Ok? ==> r.value.Valid()
    ensures r.Ok? <==> Denote(t).Ok?
    ensures r.Ok? ==> r.value.Value() == Denote(t).value
    ensures r.Err? ==> r.error == Denote(t).error
  {
    CalcMatchesDenote(t);
    CalcFraction(t)
  }

  /** `calc(int n)`: the value rounded half-up to `n` digits. */
  function CalcDecimal(t: Term, n: int): (r: Result<Decimal>)
    requires Evaluable(t)
    ensures r.Ok? <==> Denote(t).Ok?
    ensures r.Ok? ==> r.value.scale == n
    ensures r.Ok? ==> Calc(t).Ok?
    ensures r.Ok? && n >= 0 ==> WithinHalfUnit(Calc(t).value.numer, Calc(t).value.denom, n, r.value)
  {
    var c := Calc(t);
    if c.Err? then Err(c.error) else Ok(c.value.GetDecimal(n))
  }

  /** `calcInteger()`: the value truncated toward zero. */
  function CalcInteger(t: Term): (r: Result<int>)
    requires Evaluable(t)
    ensures r.Ok? <==> Denote(t).Ok?
    ensures r.Ok? ==>
              Arith.Abs(r.value) as real <= RealAbs(Denote(t).value) < (Arith.Abs(r.value) + 1) as real
    ensures r.Ok? && Denote(t).value >= 0.0 ==> r.value >= 0
    ensures r.Ok? && Denote(t).value <= 0.0 ==> r.value <= 0
  {
    var f :- Calc(t);
    SignOfValue(f);
    Ok(f.IntegerPart())
  }

  lemma SignOfValue(f: BigFraction)
    requires f.denom > 0
    ensures f.Value() >= 0.0 <==> f.numer >= 0
    ensures f.Value() <= 0.0 <==> f.numer <= 0
  {
    ScaledCompare(0, f.numer, f.denom);
    ScaledCompare(0, -f.numer, f.denom);
  }

  /**
   * Reference semantics: exact rational arithmetic in `real`, with an error
   * where a leaf does not parse or a divisor is zero (left operand first).
   */
  ghost function Denote(t: Term): Result<real>
    requires Evaluable(t)
  {
    match OperatorOf(t.sym.text)
    case None => LeafValue(t.sym.text)
    case Some(op) =>
      var a :- Denote(t.left.value);
      var b :- Denote(t.right.value);
      Apply(op, a, b)
  }

  /** One operator in exact arithmetic; division by zero is an error. */
  ghost function Apply(op: char, a: real, b: real): Result<real>
  {
    match op
    case '+' => Ok(a + b)
    case '-' => Ok(a - b)
    case '*' => Ok(a * b)
    case _ => if b == 0.0 then Err(DivByZero) else Ok(a / b)
  }

  ghost function LeafValue(s: string): Result<real>
  {
    match ParseBigFraction(s)
    case Ok(f) => Ok(f.Value())
    case Err(e) => Err(e)
  }

  /** `calcFraction` computes the reference semantics exactly. */
  lemma {:induction false} CalcMatchesDenote(t: Term)
    requires Evaluable(t)
    ensures Agrees(t)
  {
    match OperatorOf(t.sym.text)
    case None =>
    case Some(op) =>
      CalcMatchesDenote(t.left.value);
      CalcMatchesDenote(t.right.value);
      if op == '+' { AddAgrees(t); }
      else if op == '-' { SubAgrees(t); }
      else if op == '*' { MulAgrees(t); }
      else { DivAgrees(t); }
  }

  /** Evaluation and reference semantics agree on success, value and error. */
  ghost predicate Agrees(t: Term)
    requires Evaluable(t)
  {
    && (CalcFraction(t).Ok? <==> Denote(t).Ok?)
    && (CalcFraction(t).Ok? ==> CalcFraction(t).value.Value() == Denote(t).value)
    && (CalcFraction(t).Err? ==> CalcFraction(t).error == Denote(t).error)
  }

  lemma AddAgrees(t: Term)
    requires Evaluable(t) && OperatorOf(t.sym.text) == Some('+')
    requires Agrees(t.left.value) && Agrees(t.right.value)
    ensures Agrees(t)
  {
  }

  lemma SubAgrees(t: Term)
    requires Evaluable(t) && OperatorOf(t.sym.text) == Some('-')
    requires Agrees(t.left.value) && Agrees(t.right.value)
    ensures Agrees(t)
  {
  }

  lemma MulAgrees(t: Term)
    requires Evaluable(t) && OperatorOf(t.sym.text) == Some('*')
    requires Agrees(t.left.value) && Agrees(t.right.value)
    ensures Agrees(t)
  {
    var a, b := CalcFraction(t.left.value), CalcFraction(t.right.value);
    if a.Ok? && b.Ok? {
      MulBothOk(t);
    } else {
      MulSomeErr(t);
    }
  }

  lemma MulSomeErr(t: Term)
    requires Evaluable(t) && OperatorOf(t.sym.text) == Some('*')
    requires Agrees(t.left.value) && Agrees(t.right.value)
    requires CalcFraction(t.left.value).Err? || CalcFraction(t.right.value).Err?
    ensures Agrees(t)
  {
  }

  lemma MulBothOk(t: Term)
    requires Evaluable(t) && OperatorOf(t.sym.text) == Some('*')
    requires Agrees(t.left.value) && Agrees(t.right.value)
    requires CalcFraction(t.left.value).Ok? && CalcFraction(t.right.value).Ok?
    ensures Agrees(t)
  {
    var x, y := CalcFraction(t.left.value).value, CalcFraction(t.right.value).value;
    var p, q := Denote(t.left.value).value, Denote(t.right.value).value;
    var f := x.Mul(y);
    DenoteOperator(t);
    CalcMul(t);
    ProductOfValues(x, y, p, q);
    ApplyMul(p, q, f.Value());
    AgreesOk(t, f);
  }

  /** An operator node whose children both denote a value applies the operator to them. */
  lemma DenoteOperator(t: Term)
    requires Evaluable(t) && OperatorOf(t.sym.text).Some?
    requires Denote(t.left.value).Ok? && Denote(t.right.value).Ok?
    ensures Denote(t) == Apply(OperatorOf(t.sym.text).value, Denote(t.left.value).value, Denote(t.right.value).value)
  {
  }

  lemma ApplyMul(p: real, q: real, v: real)
    requires v == p * q
    ensures Apply('*', p, q) == Ok(v)
  {
  }

  lemma CalcMul(t: Term)
    requires Evaluable(t) && OperatorOf(t.sym.text) == Some('*')
    requires CalcFraction(t.left.value).Ok? && CalcFraction(t.right.value).Ok?
    ensures CalcFraction(t) == Ok(CalcFraction(t.left.value).value.Mul(CalcFraction(t.right.value).value))
  {
  }

  lemma AgreesOk(t: Term, f: BigFraction)
    requires Evaluable(t) && f.denom != 0
    requires CalcFraction(t) == Ok(f) && Denote(t) == Ok(f.Value())
    ensures Agrees(t)
  {
  }

  lemma DivAgrees(t: Term)
    requires Evaluable(t) && OperatorOf(t.sym.text) == Some('/')
    requires Agrees(t.left.value) && Agrees(t.right.value)
    ensures Agrees(t)
  {
    var a, b := CalcFraction(t.left.value), CalcFraction(t.right.value);
    if a.Ok? && b.Ok? {
      DivBothOk(t);
    } else {
      DivSomeErr(t);
    }
  }

  lemma DivSomeErr(t: Term)
    requires Evaluable(t) && OperatorOf(t.sym.text) == Some('/')
    requires Agrees(t.left.value) && Agrees(t.right.value)
    requires CalcFraction(t.left.value).Err? || CalcFraction(t.right.value).Err?
    ensures Agrees(t)
  {
  }

  lemma DivBothOk(t: Term)
    requires Evaluable(t) && OperatorOf(t.sym.text) == Some('/')
    requires Agrees(t.left.value) && Agrees(t.right.value)
    requires CalcFraction(t.left.value).Ok? && CalcFraction(t.right.value).Ok?
    ensures Agrees(t)
  {
    var x, y := CalcFraction(t.left.value).value, CalcFraction(t.right.value).value;
    DenoteOperator(t);
    CalcDiv(t);
    ZeroValue(y);
  }

  lemma CalcDiv(t: Term)
    requires Evaluable(t) && OperatorOf(t.sym.text) == Some('/')
    requires CalcFraction(t.left.value).Ok? && CalcFraction(t.right.value).Ok?
    ensures CalcFraction(t) == CalcFraction(t.left.value).value.Div(CalcFraction(t.right.value).value)
  {
    var op := OperatorOf(t.sym.text).value;
    assert op != '+' && op != '-' && op != '*';
  }

  lemma ProductOfValues(x: BigFraction, y: BigFraction, p: real, q: real)
    requires x.Valid() && y.Valid() && x.Value() == p && y.Value() == q
    ensures x.Mul(y).Value() == p * q
  {
  }

  /** A `/` node whose right operand evaluates to zero raises the arithmetic error. */
  lemma DivisionByZeroNode(t: Term)
    requires Evaluable(t) && t.sym.text == "/"
    requires Calc(t.left.value).Ok? && Calc(t.right.value).Ok?
    requires Calc(t.right.value).value.Value() == 0.0
    ensures Calc(t) == Err(DivByZero)
  {
  }

  // ---------------------------------------------------------------------------
  // Equality

  /** `equals(Object)`: structural over label, left and right; `None` is `null`. */
  function Equals(t: Term, o: Option<Term>): (r: bool)
    ensures r <==> o == Some(t)
    decreases t, 1
  {
    match o
    case None => false
    case Some(u) => t.sym.Equals(Some(u.sym)) && ChildEquals(t.left, u.left) && ChildEquals(t.right, u.right)
  }

  /** `Objects.equals(a, b)` on two children. */
  function ChildEquals(a: Option<Term>, b: Option<Term>): (r: bool)
    ensures r <==> a == b
    decreases a, 2
  {
    match a
    case None => b.None?
    case Some(x) => Equals(x, b)
  }

  // ---------------------------------------------------------------------------
  // Text

  /**
   * `toString()`: an OPERATOR node prints as `add(l, r)`, `sub(l, r)`, `mul(l, r)`
   * or `div(l, r)` (left printed first); an OPERATOR node with any other text is
   * `IllegalStateException`; every other node prints its text.
   */
  function ToString(t: Term): (r: Result<string>)
    requires Printable(t)
    ensures t.sym.kind != Operator ==> r == Ok(t.sym.text)
    ensures r.Err? <==> HasUnknownOperator(t)
    ensures r.Err? ==> r.error == IllegalState
    decreases t, 1
  {
    if t.sym.kind == Operator then
      match t.sym.text
      case "+" => Call("add", t)
      case "-" => Call("sub", t)
      case "*" => Call("mul", t)
      case "/" => Call("div", t)
      case _ => Err(IllegalState)
    else Ok(t.sym.text)
  }

  /** `name(l, r)` for a node's two children. */
  function Call(name: string, t: Term): (s: Result<string>)
    requires t.left.Some? && t.right.Some? && Printable(t.left.value) && Printable(t.right.value)
    ensures s.Err? <==> HasUnknownOperator(t.left.value) || HasUnknownOperator(t.right.value)
    ensures s.Err? ==> s.error == IllegalState
    decreases t, 0
  {
    var a :- ToString(t.left.value);
    var b :- ToString(t.right.value);
    Ok(name + "(" + a + ", " + b + ")")
  }

  /** Some OPERATOR-kind node of the tree has a text other than `+ - * /`. */
  predicate HasUnknownOperator(t: Term)
    requires Printable(t)
  {
    if t.sym.kind == Operator then
      !IsOperatorText(t.sym.text) || HasUnknownOperator(t.left.value) || HasUnknownOperator(t.right.value)
    else false
  }
}
