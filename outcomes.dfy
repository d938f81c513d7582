/** Option and Result types shared by every module of the model.

    Errors are modelled after the error values the program builds: a chain of
    human-readable messages, the outermost context first, as produced by
    attaching context to an underlying error. */
module Outcomes {

  datatype Option<+T> = None | Some(value: T) {
    function GetOr(default: T): T {
      match this
      case Some(v) => v
      case None => default
    }
  }

  /** An error value: its messages, outermost context first. */
  datatype Error = Error(chain: seq<string>) {
    /** The same error with one more layer of context on top. */
    function WithContext(msg: string): Error {
      Error([msg] + chain)
    }
  }

  function Fail(msg: string): Error {
    Error([msg])
  }

  datatype Result<+T> = Ok(value: T) | Err(error: Error) {
    predicate IsFailure() {
      Err?
    }

    function PropagateFailure<U>(): Result<U>
      requires Err?
    {
      Err(error)
    }

    function Extract(): T
      requires Ok?
    {
      value
    }
  }

  /** The unit value carried by operations that only succeed or fail. */
  datatype Unit = Unit
}
