/**
 * Failure-carrying result types shared by the model: `Option` for values
 * the source returns as `Option<T>`, and `Result` for its `Result<T, E>`
 * returns and for the panics (`unwrap` on a missing key) that the model
 * turns into error values.
 */
module Wrappers {

  datatype Option<+T> = None | Some(value: T) {
    /** Rust's `Option::or`: this value if present, otherwise `other`. */
    function Or(other: Option<T>): Option<T> {
      if Some? then this else other
    }
  }

  datatype Result<+R, +E> = Success(value: R) | Failure(error: E)
}
