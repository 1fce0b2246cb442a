/** Small shared vocabulary: bytes, optional values and failure-compatible results. */
module Base {

  /** One byte of a `&[u8]` payload or of a Python `bytes` object. */
  type uint8 = b: int | 0 <= b < 256

  /** Rust's `Option<T>`. */
  datatype Option<+T> = None | Some(value: T)

  /** Rust's `Result<T, E>`, usable with `:-`. */
  datatype Result<+T, +E> = Ok(value: T) | Err(error: E) {
    predicate IsFailure() {
      Err?
    }

    function PropagateFailure<U>(): Result<U, E>
      requires Err?
    {
      Err(error)
    }

    function Extract(): T
      requires Ok?
    {
      value
    }
  }

  /** Rust's `Result<(), E>`: a step that either succeeds or reports an error. */
  datatype Outcome<+E> = Pass | Fail(error: E)
}
