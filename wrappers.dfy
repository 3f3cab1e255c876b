/** Optional values and results shared by the search toolkit. */
module Wrappers {

  /** Python's `Optional[X]`: `None` or a present value. */
  datatype Option<+T> = None | Some(value: T)

  /** A value, or the exception that a Python call would raise instead. */
  datatype Result<+R, +E> = Ok(value: R) | Err(error: E)
}
