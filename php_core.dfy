/**
 * The few PHP run-time notions the plugins rely on: nullable values,
 * the errors that can escape a call, and the truthiness of strings.
 */
module PhpCore {

  datatype Option<+T> = None | Some(value: T)

  /** The throwables the modelled code can raise. */
  datatype PhpError =
    | DivisionByZeroError       // `/` with a zero divisor (PHP 8)
    | TypeError                 // a value of the wrong type for a typed parameter
    | InvalidArgumentException  // thrown by the fraction library on a malformed fraction

  /**
   * `catch ( Exception $e )` catches only the Exception hierarchy; the
   * engine's own Error classes (DivisionByZeroError, TypeError) pass through it.
   */
  predicate IsException(e: PhpError) {
    e.InvalidArgumentException?
  }

  /** A value, or the throwable that escaped the call. */
  datatype Result<+T> = Ok(value: T) | Err(error: PhpError) {
    predicate IsFailure() {
      Err?
    }

    function PropagateFailure<U>(): Result<U>
      requires Err?
    {
      Err(error)
    }

    function Extract(): T
      requires Ok?
    {
      value
    }
  }

  /**
   * PHP's `empty()` on a string, which is also the falsiness used by `!`,
   * `?:` and `array_filter`: exactly "" and "0" are falsy.
   */
  predicate Falsy(s: string) {
    s == "" || s == "0"
  }

  predicate Truthy(s: string) {
    !Falsy(s)
  }
}
