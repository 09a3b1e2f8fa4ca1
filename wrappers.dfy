/** Option and panic-aware outcome types shared by every module of the model. */
module Wrappers {

  /** Rust's `Option<T>`. */
  datatype Option<+T> = None | Some(value: T)

  /** The result of an operation that may panic: either it completes with a
      value, or it panics with the message passed to `expect`. */
  datatype Outcome<+T> = Done(value: T) | Panic(message: string)
}
