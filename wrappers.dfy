/** Failure-compatible wrappers: Rust's `Result<T, E>` and `Option<T>`. */
module Wrappers {

  /** `Result<T, E>`; usable with `:-`, which plays the part of Rust's `?`. */
  datatype Result<+T, +E> = Ok(value: T) | Err(error: E) {
    predicate IsFailure() {
      Err?
    }

    function PropagateFailure<U>(): Result<U, E>
      requires Err?
    {
      Err(error)
    }

    function Extract(): T
      requires Ok?
    {
      value
    }
  }

  /** `Option<T>`. */
  datatype Option<+T> = None | Some(value: T) {
    /** Rust's `unwrap`: it panics on `None`, so every caller must prove `Some?`. */
    function Unwrap(): T
      requires Some?
    {
      value
    }
  }
}
