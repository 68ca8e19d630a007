/** Optional values and outcomes that carry an error message, standing in for
    JavaScript's `undefined` and for thrown exceptions. */
module Results {

  datatype Option<+T> = None | Some(value: T)

  /** `Failure(msg)` is an operation that throws `new Error(msg)`. */
  datatype Result<+T> = Success(value: T) | Failure(error: string)
}
