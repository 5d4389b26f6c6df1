/** Option, Result and the Python exceptions the modelled code can raise. */
module Wrappers {

  datatype Option<+T> = None | Some(value: T)

  /** The built-in Python exceptions that surface from the modelled functions,
      plus the one exception class the repository defines (MathIsBroken). */
  datatype Error =
    | KeyError        // a dict lookup with a missing key
    | IndexError      // a list index past the end, or a random pick from an empty list
    | ValueError      // int() of a malformed string, or a malformed edge line
    | AssertionError  // a failing `assert` statement
    | MathIsBroken    // prime_util.MathIsBroken: the sieve held too few primes

  datatype Result<+T> = Ok(value: T) | Err(error: Error) {
    predicate IsFailure() { Err? }

    function PropagateFailure<U>(): Result<U>
      requires Err?
    {
      Err(error)
    }

    function Extract(): T
      requires Ok?
    {
      value
    }
  }
}
