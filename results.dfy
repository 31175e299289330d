/**
 * Outcome types shared by the calculator model.
 *
 * The Java code signals failure by throwing: `ArithmeticException` for a zero
 * denominator, `IllegalArgumentException` / `NumberFormatException` for a literal
 * that does not parse, `ExpressionParseException` for a malformed expression and
 * `IllegalStateException` when an operator node with an unknown operator is
 * printed. Each of those becomes one kind of `Error`, carried by `Result`.
 */
module Results {

  /** A value, or the absence of one (Java `null`). */
  datatype Option<+T> = None | Some(value: T)

  /** The kinds of failure the core can raise. */
  datatype Error =
    | DivByZero        // ArithmeticException("/ by zero")
    | NegativeExponent // ArithmeticException("Negative exponent") from BigInteger.pow
    | InvalidFormat    // IllegalArgumentException, NumberFormatException
    | ParseError       // ExpressionParseException
    | IllegalState     // IllegalStateException

  /** Either a successful value or the error that aborted the computation. */
  datatype Result<+T> = Ok(value: T) | Err(error: Error) {
    predicate IsFailure() { Err? }

    function PropagateFailure<U>(): Result<U>
      requires Err?
    {
      Err(error)
    }

    function Extract(): T
      requires Ok?
    {
      value
    }
  }
}
