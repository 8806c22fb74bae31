/** Optional values and error returns, as the Go code uses nil pointers and (value, error) pairs. */
module Wrappers {

  /** A Go pointer or interface that may be nil. */
  datatype Option<T> = None | Some(value: T)

  /** A Go (value, error) return where exactly one side is meaningful; the error is its message. */
  datatype Result<T> = Ok(value: T) | Err(error: string)
}
