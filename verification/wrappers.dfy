/** Optional values and typed failures, used wherever the ledger's Python
    code returns `None` or raises. */
module Wrappers {

  /** A value that may be absent (`None` in the source). */
  datatype Option<+T> = None | Some(value: T)

  /** The outcome of an operation that can fail with a typed error instead
      of raising. */
  datatype Result<+T, +E> = Ok(value: T) | Err(error: E)
}
