/** Option and Result, the two shapes the Rust code returns (`Option<T>`, `Result<T, E>`).
    Result is failure-compatible so that `:-` propagates an `Err` as Rust's `?` does. */
module Wrappers {

  datatype Option<+T> = None | Some(value: T)

  datatype Result<+T, +E> = Ok(value: T) | Err(error: E) {

    predicate IsFailure() {
      Err?
    }

    function PropagateFailure<U>(): Result<U, E>
      requires Err?
    {
      Err(error)
    }

    function Extract(): T
      requires Ok?
    {
      value
    }
  }
}
