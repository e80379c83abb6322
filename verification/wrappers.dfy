/** Small failure-carrying datatypes shared by the chunk model. */
module Wrappers {

  /** An optional value; stands in for a null pointer in the source. */
  datatype Option<+T> = None | Some(value: T)

  /** Either a value or the reason a fatal consistency check fired. */
  datatype Result<+T, +E> = Success(value: T) | Failure(error: E)
}
