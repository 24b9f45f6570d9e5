/** Optional and fallible results, used where the analysis has no defined value. */
module Outcomes {

  /** A value that may be absent. */
  datatype Option<+T> = None | Some(value: T)

  /** Either a computed value or the reason there is none. */
  datatype Result<+R, +E> = Success(value: R) | Failure(error: E)
}
