/** Option and Result: a missing value (JavaScript's `undefined` / `null`)
    and an action that is refused with a message. */
module Wrappers {

  datatype Option<+T> = None | Some(value: T)

  datatype Result<+R, +E> = Success(value: R) | Failure(error: E)
}
