/** std::io::Error as the core uses it, and the Result/Option shapes around it. */
module Errors {

  /** The `io::ErrorKind`s the core raises, and Panicked, which marks the outcome of an operation
      that panics in the source instead of returning an error. */
  datatype ErrorKind = InvalidInput | InvalidData | Other | Panicked

  datatype Error = Error(kind: ErrorKind, message: string)

  datatype Option<T> = None | Some(value: T)

  /** `io::Result`; the three members let `:-` propagate an error as Rust's `?` does. */
  datatype Result<T> = Ok(value: T) | Err(error: Error) {
    predicate IsFailure() {
      Err?
    }

    function PropagateFailure<U>(): Result<U>
      requires Err?
    {
      Err(error)
    }

    function Extract(): T
      requires Ok?
    {
      value
    }
  }

  /** `gerr`: the generic error the whole program raises, of kind `Other`. */
  function Gerr(msg: string): (e: Error)
    ensures e.kind == Other && e.message == msg
  {
    Error(Other, msg)
  }
}
