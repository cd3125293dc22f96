/** Results that may be missing. */
module Wrappers {
  datatype Option<T> = None | Some(value: T)

  /** A call's value, or the client's exception. */
  datatype Outcome<T> = Ok(value: T) | Thrown
}
