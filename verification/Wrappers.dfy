/** Outcome types shared by the model of the daemon. */
module Wrappers {

  datatype Option<+T> = None | Some(value: T)

  datatype Result<+T, +E> = Ok(value: T) | Err(error: E)

  /** The outcome of code that can also panic, which unwinds the daemon's task. */
  datatype Outcome<+T, +E> = Done(value: T) | Failed(error: E) | Panicked
}
