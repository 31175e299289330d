/**
 * `parser.Reader`: a tokenizer over the characters of an expression with a
 * mutable read position.
 *
 * The scans are first defined as pure functions of the text and a position
 * (`SkipSpaces`, `RunEnd`, `ReadSpec`, `PeekSpec`); the `Reader` class then
 * performs them step by step on its `char[]` buffer and is proved to agree
 * with them.
 */
module Readers {
  import opened Results
  import opened Text
  import opened Symbols

  predicate IsLetter(c: char)
  {
    ('a' <= c <= 'z') || ('A' <= c <= 'Z')
  }

  predicate IsOperatorChar(c: char)
  {
    c == '-' || c == '+' || c == '*' || c == '/'
  }

  predicate IsParenthesis(c: char)
  {
    c == '(' || c == ')'
  }

  /** The characters that continue a token: digits and '.' for a number, letters for a word. */
  predicate InRun(c: char, word: bool)
  {
    if word then IsLetter(c) else IsDigit(c) || c == '.'
  }

  /** The first position at or after `p` that does not hold a space, or `|s|` if there is none. */
  function SkipSpaces(s: string, p: nat): (j: nat)
    requires p <= |s|
    ensures p <= j <= |s|
    ensures forall k :: p <= k < j ==> s[k] == ' '
    ensures j < |s| ==> s[j] != ' '
    decreases |s| - p
  {
    if p == |s| || s[p] != ' ' then p else SkipSpaces(s, p + 1)
  }

  /** The end of the maximal run of `InRun` characters starting at `i`. */
  function RunEnd(s: string, i: nat, word: bool): (k: nat)
    requires i <= |s|
    ensures i <= k <= |s|
    ensures forall m :: i <= m < k ==> InRun(s[m], word)
    ensures k < |s| ==> !InRun(s[k], word)
    decreases |s| - i
  {
    if i == |s| || !InRun(s[i], word) then i else RunEnd(s, i + 1, word)
  }

  /** The first non-space is determined by the two facts that characterise it. */
  lemma SkipSpacesUnique(s: string, p: nat, j: nat)
    requires p <= j <= |s|
    requires forall k :: p <= k < j ==> s[k] == ' '
    requires j < |s| ==> s[j] != ' '
    ensures SkipSpaces(s, p) == j
  {
  }

  /** The end of a run is determined by the two facts that characterise it. */
  lemma RunEndUnique(s: string, i: nat, word: bool, k: nat)
    requires i <= k <= |s|
    requires forall m :: i <= m < k ==> InRun(s[m], word)
    requires k < |s| ==> !InRun(s[k], word)
    ensures RunEnd(s, i, word) == k
  {
  }

  /**
   * What `read()` returns from position `p`, and the position after it: spaces
   * are skipped, then an operator or parenthesis is one character, a digit starts
   * a maximal run of digits and dots (a NUMBER), a letter a maximal run of letters
   * (a MATHFUNCTION). Any other character is consumed and gives `None` (`null`),
   * as does the end of the text.
   */
  function ReadSpec(s: string, p: nat): (r: (Option<Symbol>, nat))
    requires p <= |s|
    ensures p <= r.1 <= |s|
    ensures p < |s| ==> p < r.1
    ensures p == |s| ==> r == (None, p)
  {
    var j := SkipSpaces(s, p);
    if j == |s| then (None, |s|) else ScanAt(s, j)
  }

  /** The token that starts with the non-space character at `j`, and the position after it. */
  function ScanAt(s: string, j: nat): (r: (Option<Symbol>, nat))
    requires j < |s|
    ensures j < r.1 <= |s|
  {
    var c := s[j];
    if IsOperatorChar(c) then (Some(Symbol([c], Operator)), j + 1)
    else if IsParenthesis(c) then (Some(Symbol([c], Parenthesis)), j + 1)
    else if IsDigit(c) then
      var k := RunEnd(s, j + 1, false);
      (Some(Symbol(s[j..k], Number)), k)
    else if IsLetter(c) then
      var k := RunEnd(s, j + 1, true);
      (Some(Symbol(s[j..k], MathFunction)), k)
    else (None, j + 1)
  }

  /** The kind `peek()` gives a character: everything unrecognised is a MATHFUNCTION. */
  function PeekKind(c: char): (t: Type)
    ensures t == Operator <==> IsOperatorChar(c)
    ensures t == Parenthesis <==> IsParenthesis(c)
    ensures t == Number <==> IsDigit(c)
    ensures t == MathFunction <==> !IsOperatorChar(c) && !IsParenthesis(c) && !IsDigit(c)
  {
    if IsOperatorChar(c) then Operator
    else if IsParenthesis(c) then Parenthesis
    else if IsDigit(c) then Number
    else MathFunction
  }

  /** What `peek()` returns at position `p`: the next non-space character alone, or `None`. */
  function PeekSpec(s: string, p: nat): (r: Option<Symbol>)
    requires p <= |s|
    ensures r.None? <==> SkipSpaces(s, p) == |s|
    ensures r.Some? ==> r.value == Symbol([s[SkipSpaces(s, p)]], PeekKind(s[SkipSpaces(s, p)]))
  {
    var j := SkipSpaces(s, p);
    if j == |s| then None else Some(Symbol([s[j]], PeekKind(s[j])))
  }

  // ---------------------------------------------------------------------------
  // Properties of the scans

  /** At the end of the text, or when only spaces remain, both scans give `None`. */
  lemma EndOfInput(s: string, p: nat)
    requires p <= |s|
    requires forall k :: p <= k < |s| ==> s[k] == ' '
    ensures ReadSpec(s, p) == (None, |s|)
    ensures PeekSpec(s, p) == None
  {
    SkipSpacesUnique(s, p, |s|);
  }

  /**
   * An operator or a parenthesis is returned alike by `peek` and the `read` that
   * follows it, and `read` consumes exactly the leading spaces and that character.
   */
  lemma PeekThenRead(s: string, p: nat)
    requires p <= |s|
    requires PeekSpec(s, p).Some?
    requires PeekSpec(s, p).value.kind == Operator || PeekSpec(s, p).value.kind == Parenthesis
    ensures ReadSpec(s, p).0 == PeekSpec(s, p)
    ensures ReadSpec(s, p).1 == SkipSpaces(s, p) + 1
    ensures forall k :: p <= k < ReadSpec(s, p).1 - 1 ==> s[k] == ' '
  {
  }

  /**
   * A NUMBER token starts with a digit, holds only digits and dots, is exactly the
   * text from the first non-space to the new position, and is maximal: the
   * character at the new position, if any, is neither a digit nor a dot.
   */
  lemma NumberToken(s: string, p: nat)
    requires p <= |s|
    requires ReadSpec(s, p).0.Some? && ReadSpec(s, p).0.value.kind == Number
    ensures var (sym, q) := ReadSpec(s, p);
      && |sym.value.text| > 0 && IsDigit(sym.value.text[0])
      && (forall i :: 0 <= i < |sym.value.text| ==> IsDigit(sym.value.text[i]) || sym.value.text[i] == '.')
      && sym.value.text == s[SkipSpaces(s, p)..q]
      && (q < |s| ==> !IsDigit(s[q]) && s[q] != '.')
  {
    var j := SkipSpaces(s, p);
    var (sym, q) := ReadSpec(s, p);
    forall i | 0 <= i < |sym.value.text|
      ensures IsDigit(sym.value.text[i]) || sym.value.text[i] == '.'
    {
      assert sym.value.text[i] == s[j + i];
    }
  }

  /**
   * On a letter `read` returns the maximal run of letters as a MATHFUNCTION while
   * `peek` returns the first letter alone.
   */
  lemma WordToken(s: string, p: nat)
    requires p <= |s|
    requires SkipSpaces(s, p) < |s| && IsLetter(s[SkipSpaces(s, p)])
    ensures var (sym, q) := ReadSpec(s, p);
      && sym.Some? && sym.value.kind == MathFunction
      && sym.value.text == s[SkipSpaces(s, p)..q]
      && (forall i :: 0 <= i < |sym.value.text| ==> IsLetter(sym.value.text[i]))
      && (q < |s| ==> !IsLetter(s[q]))
    ensures PeekSpec(s, p) == Some(Symbol([s[SkipSpaces(s, p)]], MathFunction))
  {
    var j := SkipSpaces(s, p);
    var (sym, q) := ReadSpec(s, p);
    forall i | 0 <= i < |sym.value.text|
      ensures IsLetter(sym.value.text[i])
    {
      assert sym.value.text[i] == s[j + i];
    }
  }

  /**
   * On a character that starts no token, `read` consumes it and returns `None`,
   * whereas `peek` returns it as a MATHFUNCTION symbol.
   */
  lemma UnknownCharacter(s: string, p: nat)
    requires p <= |s|
    requires var j := SkipSpaces(s, p);
      j < |s| && !IsOperatorChar(s[j]) && !IsParenthesis(s[j]) && !IsDigit(s[j]) && !IsLetter(s[j])
    ensures ReadSpec(s, p) == (None, SkipSpaces(s, p) + 1)
    ensures PeekSpec(s, p) == Some(Symbol([s[SkipSpaces(s, p)]], MathFunction))
  {
  }

  /** `read` returns `None` while text remains exactly when the next non-space starts no token. */
  lemma ReadNone(s: string, p: nat)
    requires p <= |s|
    ensures ReadSpec(s, p).0.None? <==>
              PeekSpec(s, p).None? || (PeekSpec(s, p).value.kind == MathFunction && !IsLetter(PeekSpec(s, p).value.text[0]))
  {
  }

  /** Whatever `read` returns begins with what `peek` returns, and has the same kind. */
  lemma PeekIsPrefix(s: string, p: nat)
    requires p <= |s|
    requires ReadSpec(s, p).0.Some?
    ensures PeekSpec(s, p).Some?
    ensures PeekSpec(s, p).value.kind == ReadSpec(s, p).0.value.kind
    ensures |ReadSpec(s, p).0.value.text| >= 1
    ensures PeekSpec(s, p).value.text == ReadSpec(s, p).0.value.text[..1]
  {
  }

  // ---------------------------------------------------------------------------
  // The class

  /** `parser.Reader`: the characters of the expression, their number and the read position. */
  class Reader {
    const expression: array<char>
    const len: int
    var pos: int

    ghost predicate Valid()
      reads this
    {
      len == expression.Length && 0 <= pos <= len
    }

    /** The text being read. */
    ghost function Text(): string
      reads expression
    {
      expression[..]
    }

    /** `Reader(String)`: position 0 over a copy of the characters. */
    constructor(e: string)
      ensures Valid() && Text() == e && pos == 0
      ensures fresh(expression)
    {
      pos := 0;
      len := |e|;
      expression := new char[|e|](i requires 0 <= i < |e| => e[i]);
    }

    /** `read()`: the next token, consuming it. */
    method Read() returns (symbol: Option<Symbol>)
      requires Valid()
      modifies this
      ensures Valid()
      ensures (symbol, pos) == ReadSpec(Text(), old(pos))
    {
      ghost var s, p := Text(), pos;
      if pos >= len {
        return None;
      }
      var c := expression[pos];
      pos := pos + 1;
      while pos < len && c == ' '
        invariant p < pos <= len
        invariant c == s[pos - 1]
        invariant forall k :: p <= k < pos - 1 ==> s[k] == ' '
        decreases len - pos
      {
        c := expression[pos];
        pos := pos + 1;
      }
      if c == ' ' {
        SkipSpacesUnique(s, p, len);
        return None;
      }
      ghost var j := pos - 1;
      SkipSpacesUnique(s, p, j);
      assert ReadSpec(s, p) == ScanAt(s, j);
      if c == '-' || c == '+' || c == '*' || c == '/' {
        symbol := Some(Symbol([c], Operator));
      } else if c == '(' || c == ')' {
        symbol := Some(Symbol([c], Parenthesis));
      } else if '0' <= c <= '9' {
        var sb := ReadRun(false);
        symbol := Some(Symbol(sb, Number));
      } else if ('a' <= c <= 'z') || ('A' <= c <= 'Z') {
        var sb2 := ReadRun(true);
        symbol := Some(Symbol(sb2, MathFunction));
      } else {
        symbol := None;
      }
    }

    /**
     * The `StringBuffer` loop of `read()` after the first character of a number
     * (`word` false: digits and dots) or a function name (`word` true: letters):
     * the token from the character just consumed to the end of its run.
     */
    method ReadRun(word: bool) returns (sb: string)
      requires Valid() && 0 < pos
      modifies this
      ensures Valid()
      ensures pos == RunEnd(Text(), old(pos), word)
      ensures sb == Text()[old(pos) - 1..pos]
    {
      ghost var s, j := Text(), pos - 1;
      sb := [expression[pos - 1]];
      while pos < len
        invariant j < pos <= len
        invariant sb == s[j..pos]
        invariant forall m :: j + 1 <= m < pos ==> InRun(s[m], word)
        decreases len - pos
      {
        var c := expression[pos];
        if (word && (('a' <= c <= 'z') || ('A' <= c <= 'Z'))) || (!word && (IsDigit(c) || c == '.')) {
          sb := sb + [c];
          pos := pos + 1;
        } else {
          break;
        }
      }
      RunEndUnique(s, j + 1, word, pos);
    }

    /** `peek()`: the next token's first character, scanned with a local position. */
    method Peek() returns (symbol: Option<Symbol>)
      requires Valid()
      ensures symbol == PeekSpec(Text(), pos)
    {
      ghost var s := Text();
      if pos >= len {
        return None;
      }
      var pos2 := pos;
      var c := expression[pos2];
      pos2 := pos2 + 1;
      while pos2 < len && c == ' '
        invariant pos < pos2 <= len
        invariant c == s[pos2 - 1]
        invariant forall k :: pos <= k < pos2 - 1 ==> s[k] == ' '
        decreases len - pos2
      {
        c := expression[pos2];
        pos2 := pos2 + 1;
      }
      SkipSpacesUnique(s, pos, if c == ' ' then len else pos2 - 1);
      if c == '-' || c == '+' || c == '*' || c == '/' {
        symbol := Some(Symbol([c], Operator));
      } else if c == '(' || c == ')' {
        symbol := Some(Symbol([c], Parenthesis));
      } else if '0' <= c <= '9' {
        symbol := Some(Symbol([c], Number));
      } else if c == ' ' {
        symbol := None;
      } else {
        symbol := Some(Symbol([c], MathFunction));
      }
    }

    /** `getPosition()`. */
    method GetPosition() returns (p: int)
      requires Valid()
      ensures p == pos && 0 <= p <= len
    {
      p := pos;
    }
  }
}
