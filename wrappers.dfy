/** Optional values and error-carrying results shared by every module of the model. */
module Wrappers {

  /** A value that may be missing: a nullable database column, a dictionary lookup. */
  datatype Option<+T> = None | Some(value: T)

  /** The outcome of a route: the payload it renders, or the error that makes it redirect. */
  datatype Result<+T, +E> = Ok(value: T) | Err(error: E)
}
