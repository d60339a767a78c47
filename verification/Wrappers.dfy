/** Optional values, results that may carry an error instead of a value, and attempts that may fail. */
module Wrappers {
  datatype Option<+T> = None | Some(value: T)

  datatype Result<+T, +E> = Success(value: T) | Failure(error: E)

  /** Whether a request gets through, or its reply comes back; always, where nothing fails. */
  method Attempt(reliable: bool) returns (works: bool)
    ensures reliable ==> works
  {
    works := *;
    works := works || reliable;
  }
}
