/** Shared value types: optional values, results, and the exceptions the
    throttle code can raise, named after the Python exceptions they stand for. */
module Base {

  datatype Option<+T> = None | Some(value: T)

  /** A value, or the exception that the Python code would raise instead. */
  datatype Result<+T, +E> = Ok(value: T) | Err(error: E)

  /** Why `ImproperlyConfigured` was raised. */
  datatype ConfigProblem =
    | ScopeUnset      // neither `.scope` nor `.rate` is set (or `.scope` is falsy)
    | NoRateForScope  // `.scope` is not a key of `THROTTLE_RATES`

  /** Exceptions raised while configuring a throttle or resolving an identity. */
  datatype Error =
    | UnpackError                              // ValueError: `num, period = rate.split('/')` got != 2 parts
    | IntLiteralError                          // ValueError: `int(num)` rejected its argument
    | IndexError                               // a list or string index out of range
    | KeyError                                 // a dictionary lookup of a missing key
    | ImproperlyConfigured(problem: ConfigProblem)

  function Min(a: int, b: int): int { if a <= b then a else b }
}
