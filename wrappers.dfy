/** Option and Result: the source's null pointers and exceptions become values. */
module Wrappers {
  datatype Option<T> = None | Some(value: T)

  /** An edit that either succeeds or stops with the message the source throws. */
  datatype Outcome = Pass | Fail(msg: string)

  /** A computation that either yields a value or stops with the message the source throws. */
  datatype Result<T> = Ok(value: T) | Err(msg: string) {
    predicate IsFailure() {
      Err?
    }

    function PropagateFailure<U>(): Result<U>
      requires Err?
    {
      Err(msg)
    }

    function Extract(): T
      requires Ok?
    {
      value
    }
  }
}
