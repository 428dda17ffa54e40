/** Optional values and the outcome of an operation that may throw an `Error`
    whose message is a string. */
module Results {

  datatype Option<T> = None | Some(value: T)

  /** `Err(message)` stands for a thrown `new Error(message)`. */
  datatype Result<T> = Ok(value: T) | Err(message: string)
}
