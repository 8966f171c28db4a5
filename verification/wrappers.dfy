/** Optional values and fallible results, the two shapes the pipeline needs
    to speak about a missing attribute and about a file that could not be read. */
module Wrappers {

  datatype Option<+T> = None | Some(value: T)

  /** A file-level outcome: either the value or the error that aborted it. */
  datatype Result<+T, +E> = Success(value: T) | Failure(error: E)
}
