/** Failure-compatible wrappers shared by the whole model.

    The migration script reports a missing assignment by logging and returning,
    but a malformed document or a missing key escapes as a Python exception.
    `Error` names the exception class that escapes; `Result` carries either the
    value computed or that exception. */
module Wrappers {

  datatype Option<+T> = None | Some(value: T)

  /** The Python exception an operation lets escape. */
  datatype Error =
    | AttributeError          // an attribute lookup on an object that lacks it
    | TypeError               // an operation applied to a value of the wrong kind
    | KeyError(key: string)   // a subscript with a key the mapping does not hold
    | IndexError              // a subscript past the end of a list or string
    | YamlError               // the YAML loader rejected the text

  datatype Result<+T> = Ok(value: T) | Err(error: Error) {

    predicate IsFailure() {
      Err?
    }

    function PropagateFailure<U>(): Result<U>
      requires Err?
    {
      Err(error)
    }

    function Extract(): T
      requires Ok?
    {
      value
    }
  }

  /** The outcome of an operation that returns nothing but may raise. */
  datatype Outcome = Pass | Fail(error: Error)
}
