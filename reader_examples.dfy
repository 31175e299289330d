/**
 * The reader's test trace: alternating `peek()` and `read()` over
 * `"-sin(1 + 2) * 3"`, performed on a `Reader` object.
 */
module ReaderExamples {
  import opened Results
  import opened Text
  import opened Symbols
  import opened Readers

  // ---------------------------------------------------------------------------
  // Tokens at known positions

  /** An operator or parenthesis at `j`, after spaces from `p`. */
  lemma OneCharAt(s: string, p: nat, j: nat)
    requires p <= j < |s| && (forall i :: p <= i < j ==> s[i] == ' ')
    requires IsOperatorChar(s[j]) || IsParenthesis(s[j])
    ensures PeekSpec(s, p) == Some(Symbol([s[j]], PeekKind(s[j])))
    ensures ReadSpec(s, p) == (PeekSpec(s, p), j + 1)
  {
    SkipSpacesUnique(s, p, j);
  }

  /** A number occupying `[j, k)`, after spaces from `p`. */
  lemma NumberAt(s: string, p: nat, j: nat, k: nat)
    requires p <= j < k <= |s| && (forall i :: p <= i < j ==> s[i] == ' ')
    requires IsDigit(s[j]) && (forall i :: j < i < k ==> IsDigit(s[i]) || s[i] == '.')
    requires k < |s| ==> !IsDigit(s[k]) && s[k] != '.'
    ensures PeekSpec(s, p) == Some(Symbol([s[j]], Number))
    ensures ReadSpec(s, p) == (Some(Symbol(s[j..k], Number)), k)
  {
    SkipSpacesUnique(s, p, j);
    RunEndUnique(s, j + 1, false, k);
  }

  /** A word occupying `[j, k)`, after spaces from `p`. */
  lemma WordAt(s: string, p: nat, j: nat, k: nat)
    requires p <= j < k <= |s| && (forall i :: p <= i < j ==> s[i] == ' ')
    requires forall i :: j <= i < k ==> IsLetter(s[i])
    requires k < |s| ==> !IsLetter(s[k])
    ensures PeekSpec(s, p) == Some(Symbol([s[j]], MathFunction))
    ensures ReadSpec(s, p) == (Some(Symbol(s[j..k], MathFunction)), k)
  {
    SkipSpacesUnique(s, p, j);
    RunEndUnique(s, j + 1, true, k);
  }

  /** The first four tokens of the trace: `-`, `sin`, `(` and `1`. */
  lemma TraceFirst(s: string)
    requires s == "-sin(1 + 2) * 3"
    ensures PeekSpec(s, 0) == Some(Symbol("-", Operator)) && ReadSpec(s, 0) == (Some(Symbol("-", Operator)), 1)
    ensures PeekSpec(s, 1) == Some(Symbol("s", MathFunction)) && ReadSpec(s, 1) == (Some(Symbol("sin", MathFunction)), 4)
    ensures PeekSpec(s, 4) == Some(Symbol("(", Parenthesis)) && ReadSpec(s, 4) == (Some(Symbol("(", Parenthesis)), 5)
    ensures PeekSpec(s, 5) == Some(Symbol("1", Number)) && ReadSpec(s, 5) == (Some(Symbol("1", Number)), 6)
  {
    OneCharAt(s, 0, 0);
    WordAt(s, 1, 1, 4);
    assert s[1..4] == "sin";
    OneCharAt(s, 4, 4);
    NumberAt(s, 5, 5, 6);
    assert s[5..6] == "1";
  }

  /** The middle tokens of the trace: `+`, `2` and `)`. */
  lemma TraceMiddle(s: string)
    requires s == "-sin(1 + 2) * 3"
    ensures PeekSpec(s, 6) == Some(Symbol("+", Operator)) && ReadSpec(s, 6) == (Some(Symbol("+", Operator)), 8)
    ensures PeekSpec(s, 8) == Some(Symbol("2", Number)) && ReadSpec(s, 8) == (Some(Symbol("2", Number)), 10)
    ensures PeekSpec(s, 10) == Some(Symbol(")", Parenthesis)) && ReadSpec(s, 10) == (Some(Symbol(")", Parenthesis)), 11)
  {
    OneCharAt(s, 6, 7);
    NumberAt(s, 8, 9, 10);
    assert s[9..10] == "2";
    OneCharAt(s, 10, 10);
  }

  /** The last tokens of the trace: `*`, `3` and the end of the input. */
  lemma TraceLast(s: string)
    requires s == "-sin(1 + 2) * 3"
    ensures PeekSpec(s, 11) == Some(Symbol("*", Operator)) && ReadSpec(s, 11) == (Some(Symbol("*", Operator)), 13)
    ensures PeekSpec(s, 13) == Some(Symbol("3", Number)) && ReadSpec(s, 13) == (Some(Symbol("3", Number)), 15)
    ensures PeekSpec(s, 15) == None && ReadSpec(s, 15) == (None, 15)
  {
    OneCharAt(s, 11, 12);
    NumberAt(s, 13, 14, 15);
    assert s[14..15] == "3";
    EndOfInput(s, 15);
  }

  /** `peek()` announces each token's first character; `read()` then returns the whole token. */
  method ReaderTrace()
  {
    var reader := new Reader("-sin(1 + 2) * 3");
    ghost var s := reader.Text();
    TraceFirst(s);
    TraceMiddle(s);
    TraceLast(s);
    var p := reader.Peek();
    var r := reader.Read();
    assert p == r == Some(Symbol("-", Operator));
    p := reader.Peek();
    r := reader.Read();
    assert p == Some(Symbol("s", MathFunction)) && r == Some(Symbol("sin", MathFunction));
    p := reader.Peek();
    r := reader.Read();
    assert p == r == Some(Symbol("(", Parenthesis));
    p := reader.Peek();
    r := reader.Read();
    assert p == r == Some(Symbol("1", Number));
    p := reader.Peek();
    r := reader.Read();
    assert p == r == Some(Symbol("+", Operator));
    p := reader.Peek();
    r := reader.Read();
    assert p == r == Some(Symbol("2", Number));
    p := reader.Peek();
    r := reader.Read();
    assert p == r == Some(Symbol(")", Parenthesis));
    p := reader.Peek();
    r := reader.Read();
    assert p == r == Some(Symbol("*", Operator));
    p := reader.Peek();
    r := reader.Read();
    assert p == r == Some(Symbol("3", Number));
    r := reader.Read();
    p := reader.Peek();
    assert r == None && p == None;
    var position := reader.GetPosition();
    assert position == 15;
  }
}
