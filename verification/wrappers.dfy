/** Option and Result values: `undefined` results and thrown exceptions of the
    utility functions are modelled as values rather than excluded by preconditions. */
module Wrappers {

  datatype Option<+T> = None | Some(value: T)

  datatype Result<+T, +E> = Success(value: T) | Failure(error: E)

  /** The only exception the modelled helpers raise. */
  datatype Exception = TypeError
}
