/** Option and Result, the two Rust wrappers the model needs. */
module Wrappers {

  datatype Option<+T> = None | Some(value: T)

  datatype Result<+T, +E> = Ok(value: T) | Err(error: E)

  /** `Option::and_then`. */
  function AndThen<T, U>(o: Option<T>, f: T -> Option<U>): Option<U>
  {
    match o
    case None => None
    case Some(v) => f(v)
  }

  /** `Option::map`. */
  function Map<T, U>(o: Option<T>, f: T -> U): Option<U>
  {
    match o
    case None => None
    case Some(v) => Some(f(v))
  }

  /** `Option::unwrap_or`. */
  function UnwrapOr<T>(o: Option<T>, default: T): T
  {
    match o
    case None => default
    case Some(v) => v
  }
}
