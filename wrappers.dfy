/** Option, Result and Outcome: the model's stand-ins for JavaScript's
    `undefined` and for exceptions thrown by the engine. */
module Wrappers {

  datatype Option<+T> = None | Some(value: T)

  datatype Result<+T, +E> = Success(value: T) | Failure(error: E)

  datatype Outcome<+E> = Pass | Fail(error: E)
}
