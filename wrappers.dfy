/** Failure-carrying results used throughout the model. */
module Wrappers {

  datatype Option<+T> = None | Some(value: T)

  /** A Python call that either returns a value or raises (modelled as Err). */
  datatype Result<+T> = Ok(value: T) | Err(reason: string)
}
