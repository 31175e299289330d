/**
 * The prefix notation `Term.toString()` prints, read back. `ReadTerm` is a
 * reader for that notation, written independently of the printer: a word
 * followed by `(` names an operator and is followed by two operands separated
 * by `", "` and closed by `)`; any other run of characters up to `,`, `)` or
 * the end is a leaf. Reading back what the printer wrote gives the tree again,
 * so `toString()` loses nothing about the trees the parser builds.
 */
module TermText {
  import opened Results
  import opened Symbols
  import opened Terms

  /** A character that ends a word: one of the notation's own punctuation marks. */
  predicate IsMark(c: char)
  {
    c == '(' || c == ',' || c == ')'
  }

  /** No leaf of the tree contains a punctuation mark of the notation. */
  predicate PlainLeaves(t: Term)
    requires WellFormed(t)
  {
    if t.sym.kind == Operator then PlainLeaves(t.left.value) && PlainLeaves(t.right.value)
    else forall i :: 0 <= i < |t.sym.text| ==> !IsMark(t.sym.text[i])
  }

  /** The length of the word `s` starts with: the characters before its first mark. */
  function WordLength(s: string): (k: nat)
    ensures k <= |s|
  {
    if |s| == 0 || IsMark(s[0]) then 0 else 1 + WordLength(s[1..])
  }

  /** The operator a printed name stands for. */
  function OperatorNamed(name: string): (r: Option<string>)
    ensures r.Some? ==> |name| == 3 && !IsMark(name[0]) && !IsMark(name[1]) && !IsMark(name[2])
  {
    if |name| != 3 then None
    else if name[0] == 'a' && name[1] == 'd' && name[2] == 'd' then Some("+")
    else if name[0] == 's' && name[1] == 'u' && name[2] == 'b' then Some("-")
    else if name[0] == 'm' && name[1] == 'u' && name[2] == 'l' then Some("*")
    else if name[0] == 'd' && name[1] == 'i' && name[2] == 'v' then Some("/")
    else None
  }

  /** One term of the notation at the start of `s`, with the text after it. */
  function ReadTerm(s: string): (r: Result<(Term, string)>)
    ensures r.Ok? ==> |r.value.1| <= |s|
    decreases |s|, 0
  {
    var k := WordLength(s);
    if k < |s| && s[k] == '(' then
      match OperatorNamed(s[..k])
      case None => Err(ParseError)
      case Some(op) => ReadOperands(s[k + 1..], op)
    else Ok((Term(Symbol(s[..k], Number), None, None), s[k..]))
  }

  /** After `name(`: the left operand, `", "`, the right operand and `)`. */
  function ReadOperands(s: string, op: string): (r: Result<(Term, string)>)
    ensures r.Ok? ==> |r.value.1| < |s|
    decreases |s|, 1
  {
    var left :- ReadTerm(s);
    var rest := left.1;
    if 2 <= |rest| && rest[0] == ',' && rest[1] == ' ' then
      var right :- ReadTerm(rest[2..]);
      var rest2 := right.1;
      if 0 < |rest2| && rest2[0] == ')' then
        Ok((Term(Symbol(op, Operator), Some(left.0), Some(right.0)), rest2[1..]))
      else Err(ParseError)
    else Err(ParseError)
  }

  /** A well-formed tree has no node `toString()` rejects. */
  lemma {:induction false} WellFormedPrints(t: Term)
    requires WellFormed(t)
    ensures Printable(t) && ToString(t).Ok?
  {
    WellFormedEvaluable(t);
    if t.sym.kind == Operator {
      WellFormedPrints(t.left.value);
      WellFormedPrints(t.right.value);
    }
  }

  /** The printed form of a well-formed tree. */
  function Printed(t: Term): (x: string)
    requires WellFormed(t)
  {
    WellFormedPrints(t);
    ToString(t).value
  }

  /** A word free of marks, followed by the end or by a mark, has exactly its own length. */
  lemma {:induction false} WordLengthOf(w: string, rest: string)
    requires forall i :: 0 <= i < |w| ==> !IsMark(w[i])
    requires rest == [] || IsMark(rest[0])
    ensures WordLength(w + rest) == |w|
    decreases |w|
  {
    if w != [] {
      assert (w + rest)[1..] == w[1..] + rest;
      WordLengthOf(w[1..], rest);
    } else {
      assert w + rest == rest;
    }
  }

  /** An operator node prints as its name, `(`, the left operand, `", "`, the right operand, `)`. */
  lemma PrintedNode(t: Term) returns (name: string)
    requires WellFormed(t) && t.sym.kind == Operator
    ensures OperatorNamed(name) == Some(t.sym.text) && |name| == 3
    ensures Printed(t) == name + "(" + Printed(t.left.value) + ", " + Printed(t.right.value) + ")"
  {
    WellFormedPrints(t);
    match t.sym.text {
      case "+" => name := "add"; PrintedAs(t, name);
      case "-" => name := "sub"; PrintedAs(t, name);
      case "*" => name := "mul"; PrintedAs(t, name);
      case "/" => name := "div"; PrintedAs(t, name);
    }
  }

  lemma PrintedAs(t: Term, name: string)
    requires WellFormed(t) && Printable(t) && t.sym.kind == Operator
    requires ToString(t) == Call(name, t)
    ensures Printed(t) == name + "(" + Printed(t.left.value) + ", " + Printed(t.right.value) + ")"
  {
    WellFormedPrints(t.left.value);
    WellFormedPrints(t.right.value);
  }

  /**
   * Reading a printed tree followed by the end, or by `,` or `)`, gives the
   * tree and leaves what followed it.
   */
  lemma {:induction false} ReadPrinted(t: Term, rest: string)
    requires WellFormed(t) && PlainLeaves(t)
    requires rest == [] || rest[0] == ',' || rest[0] == ')'
    ensures ReadTerm(Printed(t) + rest) == Ok((t, rest))
  {
    if t.sym.kind == Operator {
      var name := PrintedNode(t);
      var a, b := Printed(t.left.value), Printed(t.right.value);
      ReadPrinted(t.left.value, ", " + (b + (")" + rest)));
      ReadPrinted(t.right.value, ")" + rest);
      ReadNode(t, name, a, b, rest);
    } else {
      ReadLeaf(t, rest);
    }
  }

  /** A leaf reads back as itself. */
  lemma ReadLeaf(t: Term, rest: string)
    requires WellFormed(t) && PlainLeaves(t) && t.sym.kind != Operator
    requires rest == [] || rest[0] == ',' || rest[0] == ')'
    ensures ReadTerm(Printed(t) + rest) == Ok((t, rest))
  {
    var x := t.sym.text;
    assert Printed(t) == x;
    WordLengthOf(x, rest);
    assert (x + rest)[..|x|] == x && (x + rest)[|x|..] == rest;
  }

  /** `name(a, b)` followed by `rest` reads as the node `t` when `a` and `b` read as its operands. */
  lemma ReadNode(t: Term, name: string, a: string, b: string, rest: string)
    requires t.sym.kind == Operator && t.left.Some? && t.right.Some?
    requires OperatorNamed(name) == Some(t.sym.text)
    requires ReadTerm(a + (", " + (b + (")" + rest)))) == Ok((t.left.value, ", " + (b + (")" + rest))))
    requires ReadTerm(b + (")" + rest)) == Ok((t.right.value, ")" + rest))
    ensures ReadTerm(name + "(" + a + ", " + b + ")" + rest) == Ok((t, rest))
  {
    var inner := a + (", " + (b + (")" + rest)));
    Regroup(name, a, b, rest);
    ReadHead(name, t.sym.text, inner);
    ReadBoth(t, a, b, rest);
  }

  /** The printed node followed by `rest`, grouped from the right. */
  lemma Regroup(name: string, a: string, b: string, rest: string)
    ensures name + "(" + a + ", " + b + ")" + rest == name + ("(" + (a + (", " + (b + (")" + rest)))))
  {
  }

  /** A known name followed by `(` continues with its operands. */
  lemma ReadHead(name: string, op: string, inner: string)
    requires OperatorNamed(name) == Some(op)
    ensures ReadTerm(name + ("(" + inner)) == ReadOperands(inner, op)
  {
    var s := name + ("(" + inner);
    WordLengthOf(name, "(" + inner);
    assert s[..3] == name && s[3] == '(' && s[4..] == inner;
  }

  /** Two operands read in turn, separated by `", "` and closed by `)`, make the node `t`. */
  lemma ReadBoth(t: Term, a: string, b: string, rest: string)
    requires t.sym.kind == Operator && t.left.Some? && t.right.Some?
    requires ReadTerm(a + (", " + (b + (")" + rest)))) == Ok((t.left.value, ", " + (b + (")" + rest))))
    requires ReadTerm(b + (")" + rest)) == Ok((t.right.value, ")" + rest))
    ensures ReadOperands(a + (", " + (b + (")" + rest))), t.sym.text) == Ok((t, rest))
  {
    var rest2 := ")" + rest;
    var rest1 := ", " + (b + rest2);
    assert rest1[2..] == b + rest2 && rest2[1..] == rest;
    assert t == Term(Symbol(t.sym.text, Operator), Some(t.left.value), Some(t.right.value));
  }

  /** `toString()` of a parsed tree reads back as the same tree, with nothing left over. */
  lemma PrintedReadsBack(t: Term)
    requires WellFormed(t) && PlainLeaves(t)
    ensures ReadTerm(Printed(t)) == Ok((t, ""))
  {
    ReadPrinted(t, "");
    assert Printed(t) + "" == Printed(t);
  }

  /** Different parsed trees print differently. */
  lemma PrintedInjective(t1: Term, t2: Term)
    requires WellFormed(t1) && PlainLeaves(t1) && WellFormed(t2) && PlainLeaves(t2)
    requires Printed(t1) == Printed(t2)
    ensures t1 == t2
  {
    PrintedReadsBack(t1);
    PrintedReadsBack(t2);
  }
}
