/** Option and Result, the two shapes of failure the generated type reports. */
module Wrappers {

  /** `Option<T>`: `None` is the only failure signal of the plain lookup. */
  datatype Option<+T> = None | Some(value: T)

  /** `Result<T, E>`: the typed failure of the parsing entry points. */
  datatype Result<+T, +E> = Ok(value: T) | Err(error: E)
}
