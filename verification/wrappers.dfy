/** Option and Result: the "maybe a value" and "a value or an error" shapes the
    connector gets from prelude.ts (`Option`, `single()`, `getOrThrow`). */
module Wrappers {

  datatype Option<+T> = None | Some(value: T)

  /** A computation that either produced a value or threw an error with a message. */
  datatype Result<+T, +E> = Success(value: T) | Failure(error: E)
}
