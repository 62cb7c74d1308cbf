/** The two wrapper types of the model: an optional value, for chrono's
    `*_opt` constructors, and a value or an error, for the operations where
    chrono would panic.
 */
module Wrappers {
  datatype Option<T> = None | Some(value: T)

  datatype Result<T, E> = Ok(value: T) | Err(error: E)
}
