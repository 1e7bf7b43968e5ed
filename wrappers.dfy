/** The success/failure value that stands for Rust's `Result` (and `anyhow::Result`). */
module Wrappers {

  datatype Result<+T, +E> = Success(value: T) | Failure(error: E)
}
