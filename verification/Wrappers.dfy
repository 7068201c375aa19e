/** Result types shared by the models. */
module Wrappers {

  datatype Option<+T> = None | Some(value: T)

  /** A Python call that either returns or raises. */
  datatype Result<+T, +E> = Ok(value: T) | Err(error: E)
}
