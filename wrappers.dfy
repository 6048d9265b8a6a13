/** Optional values and validated results shared by the publishing model. */
module Wrappers {

  /** A present value, or the "no data" answer a query gives instead of an empty collection. */
  datatype Option<+T> = None | Some(value: T)

  /** The outcome of a validated construction: the new entity, or the one validation error kind. */
  datatype Result<+T> = Success(value: T) | ValidationError
}
