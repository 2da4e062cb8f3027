/** Failure-compatible wrappers shared by every pass of the configuration compiler.
    A Go `panic` or `error` return becomes an `Err`; a Go nil pointer becomes `None`. */
module Results {

  /** An optional value: `None` stands for a nil pointer. */
  datatype Option<+T> = None | Some(value: T) {

    /** The wrapped value, or `default` when there is none. */
    function GetOr(default: T): T {
      match this
      case Some(v) => v
      case None => default
    }
  }

  /** The outcome of a pass: a value, or the error that stopped it. */
  datatype Result<+T, +E> = Ok(value: T) | Err(error: E) {

    predicate IsFailure() {
      Err?
    }

    function PropagateFailure<U>(): Result<U, E>
      requires Err?
    {
      Err(error)
    }

    function Extract(): T
      requires Ok?
    {
      value
    }
  }
}
