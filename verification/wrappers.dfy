/** Failure-compatible result types for the worker model.

    Every step of the worker that can raise a Python exception returns a
    `Result`; the exception kind is kept so that contracts can say which
    failure a step produces.
 */
module Wrappers {

  datatype Option<+T> = None | Some(value: T)

  /** The Python exception a failing extraction step raises. */
  datatype Error =
    | IndexError      // `[...][0]` on an empty list
    | KeyError        // a missing key in the decoded JSON document
    | TypeError       // a JSON value of the wrong kind, or `float(None)`
    | ValueError      // `int()`, `datetime()` or `json.loads` rejecting its input
    | AttributeError  // a method called on `None` or on a non-string
    | OverflowError   // a number outside the C `int` range `datetime()` converts to

  datatype Result<+T> = Ok(value: T) | Err(error: Error) {

    predicate IsFailure() {
      Err?
    }

    function PropagateFailure<U>(): Result<U>
      requires Err?
    {
      Err(error)
    }

    function Extract(): T
      requires Ok?
    {
      value
    }
  }
}
