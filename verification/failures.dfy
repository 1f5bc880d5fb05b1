/**
 The outcome of a computation that may raise one of the Python exceptions the
 modelled scripts can run into. Only the exception's class is kept: the
 messages are not part of any behaviour the scripts rely on.
 */
module Failures {

  /** The Python exception classes reachable from the modelled code paths. */
  datatype Error =
    | ValueError         // float('abc'), np.hstack([]), DataFrame column-count mismatch
    | IndexError         // a missing field of str.split, a column past the activity matrix
    | KeyError           // a missing dictionary key
    | NameError          // a local that was never bound on the path taken
    | ZeroDivisionError  // integer division or modulo by zero
    | SyntaxError        // eval of a malformed literal such as 1e--2
    | OverflowError      // int() of an infinite float
    | RuntimeError       // a tensor library check, such as a zero split size

  datatype Option<+T> = None | Some(value: T)

  datatype Result<+T> = Success(value: T) | Failure(error: Error) {

    predicate IsFailure() {
      Failure?
    }

    function PropagateFailure<U>(): Result<U>
      requires Failure?
    {
      Failure(error)
    }

    function Extract(): T
      requires Success?
    {
      value
    }
  }
}
