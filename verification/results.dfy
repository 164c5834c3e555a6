/** Optional values and error-carrying results, used where the Go code returns
    `(T, error)`, an `error`, or a "not found" index of -1. */
module Results {

  datatype Option<+T> = None | Some(value: T)

  datatype Result<+T, +E> = Ok(value: T) | Err(error: E)
}
