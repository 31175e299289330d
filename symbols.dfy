/**
 * `model.Symbol` and `model.Type`: a token is an immutable pair of its text and
 * its kind.
 */
module Symbols {
  import opened Results
  import Arith

  /** `model.Type`, the four token kinds. */
  datatype Type = Number | Operator | Parenthesis | MathFunction {

    /** The enum constant's name, which is also its `toString()`. */
    function Name(): (s: string)
      ensures |s| > 0
      ensures forall i :: 0 <= i < |s| ==> 'A' <= s[i] <= 'Z'
    {
      match this
      case Number => "NUMBER"
      case Operator => "OPERATOR"
      case Parenthesis => "PARENTHESIS"
      case MathFunction => "MATHFUNCTION"
    }
  }

  /** `Type.valueOf(String)`; `None` stands for `IllegalArgumentException`. */
  function TypeValueOf(s: string): (r: Option<Type>)
    ensures r.Some? ==> r.value.Name() == s
  {
    match s
    case "NUMBER" => Some(Number)
    case "OPERATOR" => Some(Operator)
    case "PARENTHESIS" => Some(Parenthesis)
    case "MATHFUNCTION" => Some(MathFunction)
    case _ => None
  }

  /** `valueOf` inverts `name()`, so no two constants share a name. */
  lemma TypeNameRoundTrip(t: Type)
    ensures TypeValueOf(t.Name()) == Some(t)
  {
  }

  /** `model.Symbol`: the token text and its kind. */
  datatype Symbol = Symbol(text: string, kind: Type) {

    /**
     * `equals(Object)`: `None` stands for `null` or an object of another class.
     * Text and kind must both match.
     */
    function Equals(o: Option<Symbol>): (r: bool)
      ensures r <==> o == Some(this)
      ensures r <==> o.Some? && o.value.text == text && o.value.kind == kind
    {
      match o
      case None => false
      case Some(other) => text == other.text && kind == other.kind
    }

    /**
     * `hashCode()`: `text.hashCode() * 31 + kind.hashCode()` in 32-bit
     * arithmetic. An enum's hash is an identity hash chosen at run time, so
     * it is a parameter here.
     */
    function HashCode(typeHash: int): (h: int)
      requires IsInt32(typeHash)
      ensures IsInt32(h)
    {
      Wrap32(StringHash(text) * 31 + typeHash)
    }

    /** `toString()`: `{Symbol: <text>, Type: <NAME>}`. */
    function ToString(): (s: string)
      ensures |s| > 9 && s[..9] == "{Symbol: " && s[|s| - 1] == '}'
      ensures |s| > 9 + |text| && s[9..9 + |text|] == text
    {
      "{Symbol: " + text + ", Type: " + kind.Name() + "}"
    }
  }

  predicate IsInt32(x: int)
  {
    -0x8000_0000 <= x < 0x8000_0000
  }

  /** Two's-complement wrap-around to 32 bits. */
  function Wrap32(x: int): (r: int)
    ensures IsInt32(r)
    ensures (r - x) % 0x1_0000_0000 == 0
  {
    (x + 0x8000_0000) % 0x1_0000_0000 - 0x8000_0000
  }

  /**
   * `String.hashCode()`: `h = 31·h + c` over the characters, in 32-bit
   * arithmetic. It is the documented sum `s[0]·31^(n-1) + … + s[n-1]`
   * reduced to 32 bits.
   */
  function StringHash(s: string): (h: int)
    ensures IsInt32(h)
    ensures (h - PolyHash(s)) % 0x1_0000_0000 == 0
  {
    if s == [] then 0
    else
      var p, c := s[..|s| - 1], s[|s| - 1];
      var h := StringHash(p);
      assert s == p + [c];
      PolyHashSnoc(p, c);
      HashStep(h, PolyHash(p), c as int);
      Wrap32(31 * h + c as int)
  }

  /** One step of the loop keeps the wrapped hash congruent to the exact sum. */
  lemma HashStep(h: int, e: int, c: int)
    requires (h - e) % 0x1_0000_0000 == 0
    ensures (Wrap32(31 * h + c) - (31 * e + c)) % 0x1_0000_0000 == 0
  {
    var x := 31 * h + c;
    assert (31 * e + c) - x == 31 * (e - h);
    Mod32Difference(0, h - e);
    ScaledResidue(e - h, 31);
    Mod32Difference(Wrap32(x) - x, (31 * e + c) - x);
  }

  /** The exact sum `s[0]·31^(n-1) + s[1]·31^(n-2) + … + s[n-1]`, without wrap-around. */
  ghost function PolyHash(s: string): int
  {
    if s == [] then 0 else s[0] as int * Arith.Power(31, |s| - 1) + PolyHash(s[1..])
  }

  /** Appending a character multiplies the sum by 31 and adds the character. */
  lemma {:induction false} PolyHashSnoc(s: string, c: char)
    ensures PolyHash(s + [c]) == 31 * PolyHash(s) + c as int
    decreases |s|
  {
    if s == [] {
      assert [] + [c] == [c] && [c][1..] == [];
    } else {
      var t := s + [c];
      assert t[0] == s[0] && t[1..] == s[1..] + [c];
      PolyHashSnoc(s[1..], c);
      assert Arith.Power(31, |t| - 1) == 31 * Arith.Power(31, |s| - 1);
    }
  }

  lemma ScaledResidue(d: int, k: int)
    requires d % 0x1_0000_0000 == 0
    ensures (k * d) % 0x1_0000_0000 == 0
  {
    var m := 0x1_0000_0000;
    assert d == m * (d / m);
    assert k * d == m * (k * (d / m));
  }

  /** Equal wrapped values come from numbers congruent modulo 2^32. */
  lemma Wrap32Residue(x: int, y: int)
    ensures Wrap32(x) == Wrap32(y) ==> (x - y) % 0x1_0000_0000 == 0
  {
    var a := Wrap32(x);
    if a == Wrap32(y) {
      assert x - y == (a - y) - (a - x);
      Mod32Difference(a - y, a - x);
    }
  }

  lemma Mod32Difference(p: int, q: int)
    requires p % 0x1_0000_0000 == 0 && q % 0x1_0000_0000 == 0
    ensures (p - q) % 0x1_0000_0000 == 0
  {
    var m := 0x1_0000_0000;
    assert p == m * (p / m);
    assert q == m * (q / m);
    assert p - q == m * (p / m - q / m);
  }

  /** The symbols of `"1"` and `"2"` hash differently whatever the kind's hash is. */
  lemma DigitSymbolsHashApart(typeHash: int)
    requires IsInt32(typeHash)
    ensures Symbol("1", Number).HashCode(typeHash) != Symbol("2", Number).HashCode(typeHash)
  {
    assert StringHash("1") == 49 by { assert "1"[..0] == []; }
    assert StringHash("2") == 50 by { assert "2"[..0] == []; }
    Wrap32Residue(49 * 31 + typeHash, 50 * 31 + typeHash);
  }

  /** The symbol `"1"` of kind NUMBER prints as `{Symbol: 1, Type: NUMBER}`. */
  lemma SymbolText()
    ensures Symbol("1", Number).ToString() == "{Symbol: 1, Type: NUMBER}"
  {
  }

  /** The last three letters of a constant's name identify it. */
  lemma NameSuffixInjective(a: Type, b: Type)
    requires |a.Name()| <= |b.Name()|
    requires a.Name()[|a.Name()| - 1] == b.Name()[|b.Name()| - 1]
    requires a.Name()[|a.Name()| - 2] == b.Name()[|b.Name()| - 2]
    requires a.Name()[|a.Name()| - 3] == b.Name()[|b.Name()| - 3]
    ensures a == b
  {
  }

  /** The characters of `n` sit at the end of `p + n + "}"`, just before the brace. */
  lemma TailChar(p: string, n: string, j: nat)
    requires 1 <= j <= |n|
    ensures (p + n + "}")[|p + n + "}"| - 1 - j] == n[|n| - j]
  {
  }

  /** Equal strings with equal surroundings have equal middles. */
  lemma MiddleDetermined(x: string, m1: string, m2: string, y: string)
    requires x + m1 + y == x + m2 + y
    ensures m1 == m2
  {
    var s := x + m1 + y;
    assert |m1| == |m2|;
    forall i | 0 <= i < |m1|
      ensures m1[i] == m2[i]
    {
      assert s[|x| + i] == m1[i];
      assert (x + m2 + y)[|x| + i] == m2[i];
    }
  }

  /** `toString()` loses nothing: different symbols print differently. */
  lemma ToStringInjective(a: Symbol, b: Symbol)
    requires a.ToString() == b.ToString()
    ensures a == b
  {
    SameKindPrinted(a, b);
    var tail := ", Type: " + a.kind.Name() + "}";
    assert a.ToString() == "{Symbol: " + a.text + tail;
    assert b.ToString() == "{Symbol: " + b.text + tail;
    MiddleDetermined("{Symbol: ", a.text, b.text, tail);
  }

  lemma SameKindPrinted(a: Symbol, b: Symbol)
    requires a.ToString() == b.ToString()
    ensures a.kind == b.kind
  {
    var na, nb := a.kind.Name(), b.kind.Name();
    var pa, pb := "{Symbol: " + a.text + ", Type: ", "{Symbol: " + b.text + ", Type: ";
    TailChar(pa, na, 1);
    TailChar(pb, nb, 1);
    TailChar(pa, na, 2);
    TailChar(pb, nb, 2);
    TailChar(pa, na, 3);
    TailChar(pb, nb, 3);
    if |na| <= |nb| {
      NameSuffixInjective(a.kind, b.kind);
    } else {
      NameSuffixInjective(b.kind, a.kind);
    }
  }
}
