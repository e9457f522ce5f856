/** Failure-compatible result types shared by the whole model. */
module Wrappers {

  /** A value that may be absent: Python's `None` versus a value. */
  datatype Option<+T> = None | Some(value: T) {

    predicate IsFailure() {
      None?
    }

    function PropagateFailure<U>(): Option<U>
      requires None?
    {
      None
    }

    function Extract(): T
      requires Some?
    {
      value
    }

    function GetOr(default: T): T {
      match this
      case Some(v) => v
      case None => default
    }
  }

  /** The outcome of a piece of Python code that may raise.
      `Caught` is an exception the surrounding `try` handles
      (KeyError, ValueError, IndexError in the metadata mapping);
      `Raised` is one that escapes to the caller (TypeError, AttributeError). */
  datatype Outcome<+T> = Ok(value: T) | Caught | Raised {

    predicate IsFailure() {
      !Ok?
    }

    function PropagateFailure<U>(): Outcome<U>
      requires !Ok?
    {
      if Caught? then Caught else Raised
    }

    function Extract(): T
      requires Ok?
    {
      value
    }
  }
}
