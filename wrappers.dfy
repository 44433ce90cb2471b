/** Option and Result, the two outcome shapes of the scanner's API:
    `Option` for "found / not found", `Result` for "parsed / parse error". */
module Wrappers {

  datatype Option<+T> = None | Some(value: T)

  datatype Result<+T, +E> = Success(value: T) | Failure(error: E)
}
