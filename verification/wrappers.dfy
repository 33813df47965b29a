/** Optional values and results with the library's failure modes. */
module Wrappers {

  datatype Option<T> = None | Some(value: T)

  /**
   * How an operation of the library goes wrong: `std::abort()`, a debug
   * `assert` that fails, or a read or write outside the memory it was given
   * (undefined behaviour in the library; an error here).
   */
  datatype Failure = Abort | AssertionFailure | OutOfBounds

  datatype Result<T> = Ok(value: T) | Err(failure: Failure)
}
