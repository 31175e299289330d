/**
 * The `BigInteger` operations the fraction type relies on, over unbounded `int`:
 * truncating division (`divide`), `gcd`, `abs`, `signum` and `pow`, with the
 * number theory needed to reason about reduced fractions.
 */
module Arith {

  function Abs(x: int): (r: nat)
    ensures r == x || r == -x
  {
    if x < 0 then -x else x
  }

  /** `BigInteger.divide`: the quotient rounded toward zero (Dafny's `/` is Euclidean). */
  function TruncDiv(a: int, b: int): (q: int)
    requires b != 0
    ensures Abs(q) * Abs(b) <= Abs(a) < (Abs(q) + 1) * Abs(b)
    ensures (a >= 0) == (b > 0) ==> q >= 0
    ensures (a >= 0) != (b > 0) ==> q <= 0
  {
    var m := Abs(a) / Abs(b);
    TruncBounds(Abs(a), Abs(b));
    var q := if (a >= 0) == (b > 0) then m else -m;
    assert Abs(q) == m;
    q
  }

  /** The magnitude of the truncated quotient is the Euclidean quotient of the magnitudes. */
  lemma TruncDivMagnitude(a: int, b: int)
    requires b != 0
    ensures Abs(TruncDiv(a, b)) == Abs(a) / Abs(b)
  {
  }

  lemma TruncBounds(x: nat, y: nat)
    requires y > 0
    ensures (x / y) * y <= x < (x / y + 1) * y
  {
    var m := x / y;
    assert x == y * m + x % y;
    assert (m + 1) * y == m * y + y;
  }

  /** `BigInteger.pow` for a non-negative exponent. */
  function Power(b: int, e: nat): (r: int)
    ensures r == 0 <==> b == 0 && e > 0
  {
    if e == 0 then 1 else b * Power(b, e - 1)
  }

  function Pow10(e: nat): (r: nat)
    ensures r > 0
  {
    if e == 0 then 1 else 10 * Pow10(e - 1)
  }

  /** `c` is a positive divisor of `a`. */
  predicate Divides(c: int, a: int)
  {
    c > 0 && a % c == 0
  }

  /** `BigInteger.gcd` on magnitudes (Euclid's algorithm); `Gcd(0, 0) == 0`. */
  function Gcd(a: nat, b: nat): (g: nat)
    ensures (a > 0 || b > 0) ==> g > 0
    decreases b
  {
    if b == 0 then a else Gcd(b, a % b)
  }

  // ---------------------------------------------------------------------------
  // Division facts

  lemma MulPositive(x: int, y: int)
    requires x > 0 && y > 0
    ensures x * y > 0
  {
  }

  lemma MulAtLeast(y: int, k: int)
    requires y > 0 && k >= 1
    ensures y * k >= y
  {
    assert y * k == y + y * (k - 1);
    if k > 1 {
      MulPositive(y, k - 1);
    }
  }

  /** Euclidean division is unique. */
  lemma DivModUnique(x: int, y: int, q: int, r: int)
    requires y > 0 && x == y * q + r && 0 <= r < y
    ensures x / y == q && x % y == r
  {
    var q' := x / y;
    var r' := x % y;
    assert x == y * q' + r';
    assert y * (q - q') == r' - r;
    if q - q' >= 1 {
      MulAtLeast(y, q - q');
    } else if q' - q >= 1 {
      assert y * (q' - q) == r - r';
      MulAtLeast(y, q' - q);
    }
  }

  lemma DividesMul(c: int, k: int)
    requires c > 0
    ensures Divides(c, c * k)
  {
    DivModUnique(c * k, c, k, 0);
  }

  lemma DividesQuotient(c: int, a: int)
    requires Divides(c, a)
    ensures a == c * (a / c)
  {
  }

  lemma DividesLinear(c: int, a: int, b: int, x: int, y: int)
    requires Divides(c, a) && Divides(c, b)
    ensures Divides(c, a * x + b * y)
  {
    var i, j := a / c, b / c;
    DividesQuotient(c, a);
    DividesQuotient(c, b);
    assert a * x + b * y == c * (i * x + j * y) by {
      assert a * x == c * i * x;
      assert b * y == c * j * y;
    }
    DividesMul(c, i * x + j * y);
  }

  lemma DividesNeg(c: int, a: int)
    requires Divides(c, a)
    ensures Divides(c, -a) && Divides(c, Abs(a))
  {
    DividesLinear(c, a, a, -1, 0);
  }

  /** A positive divisor is no larger than a positive multiple. */
  lemma DivisorBound(c: int, a: int)
    requires Divides(c, a) && a > 0
    ensures c <= a
  {
    DividesQuotient(c, a);
    var k := a / c;
    assert k > 0;
    MulAtLeast(c, k);
  }

  /** Two positive numbers that divide each other are equal. */
  lemma DividesAntisymmetric(a: int, b: int)
    requires a > 0 && b > 0 && Divides(a, b) && Divides(b, a)
    ensures a == b
  {
    DivisorBound(a, b);
    DivisorBound(b, a);
  }

  /** Scaling both operands scales the Euclidean quotient's remainder. */
  lemma ModScale(k: int, a: int, b: int)
    requires k > 0 && b > 0 && a >= 0
    ensures (k * a) % (k * b) == k * (a % b)
  {
    var q, r := a / b, a % b;
    assert a == b * q + r;
    assert k * a == (k * b) * q + k * r;
    assert 0 <= k * r < k * b by {
      if r > 0 { MulPositive(k, r); }
      MulPositive(k, b - r);
      assert k * b - k * r == k * (b - r);
    }
    MulPositive(k, b);
    DivModUnique(k * a, k * b, q, k * r);
  }

  // ---------------------------------------------------------------------------
  // Greatest common divisor

  lemma {:induction false} GcdDivides(a: nat, b: nat)
    requires a > 0 || b > 0
    ensures Divides(Gcd(a, b), a) && Divides(Gcd(a, b), b)
    decreases b
  {
    if b == 0 {
      DividesMul(a, 1);
      DividesMul(a, 0);
    } else {
      var g := Gcd(a, b);
      GcdDivides(b, a % b);
      assert a == b * (a / b) + a % b;
      DividesLinear(g, b, a % b, a / b, 1);
    }
  }

  lemma {:induction false} GcdGreatest(a: nat, b: nat, c: int)
    requires Divides(c, a) && Divides(c, b)
    ensures Divides(c, Gcd(a, b))
    decreases b
  {
    if b != 0 {
      assert a % b == a * 1 + b * (-(a / b));
      DividesLinear(c, a, b, 1, -(a / b));
      GcdGreatest(b, a % b, c);
    }
  }

  lemma {:induction false} GcdScale(k: nat, a: nat, b: nat)
    requires k > 0
    ensures Gcd(k * a, k * b) == k * Gcd(a, b)
    decreases b
  {
    if b == 0 {
    } else {
      MulPositive(k, b);
      ModScale(k, a, b);
      GcdScale(k, b, a % b);
    }
  }

  /** Dividing both operands by their gcd leaves coprime numbers. */
  lemma CoprimeQuotients(a: nat, b: nat)
    requires a > 0 || b > 0
    ensures Gcd(a, b) > 0
    ensures a / Gcd(a, b) >= 0 && b / Gcd(a, b) >= 0
    ensures Gcd(a / Gcd(a, b), b / Gcd(a, b)) == 1
  {
    var g := Gcd(a, b);
    GcdDivides(a, b);
    var a', b' := a / g, b / g;
    DividesQuotient(g, a);
    DividesQuotient(g, b);
    assert a' > 0 || b' > 0 by {
      if a > 0 { assert g * a' > 0; } else { assert g * b' > 0; }
    }
    GcdScale(g, a', b');
    var h := Gcd(a', b');
    assert g * h == g * 1;
    ScaleCancel(g, h, 1);
  }

  lemma ScaleCancel(k: int, x: int, y: int)
    requires k != 0 && k * x == k * y
    ensures x == y
  {
    assert k * (x - y) == 0;
  }

  /** Euclid's lemma: a divisor of `p * s` that is coprime to `p` divides `s`. */
  lemma CoprimeDividesFactor(q: nat, p: nat, s: nat)
    requires q > 0 && Gcd(p, q) == 1 && Divides(q, p * s)
    ensures Divides(q, s)
  {
    if s == 0 {
      DividesMul(q, 0);
    } else {
      GcdScale(s, p, q);
      assert s * p == p * s && s * q == q * s;
      DividesMul(q, s);
      GcdGreatest(p * s, q * s, q);
    }
  }

  /** The gcd of a number with 1, or with itself. */
  lemma GcdOne(a: nat)
    ensures Gcd(a, 1) == 1
  {
    assert a % 1 == 0;
  }

  lemma GcdWithMultiple(a: nat, b: nat)
    requires b > 0 && Divides(b, a)
    ensures Gcd(a, b) == b
  {
    assert Gcd(a, b) == Gcd(b, a % b) == Gcd(b, 0) == b;
  }
}
