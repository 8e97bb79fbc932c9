/** Optional values and the outcomes of the library's event handlers. */
module Results {

  /** A value that may be absent: TypeScript's `T | null`. */
  datatype Option<+T> = None | Some(value: T)

  /**
   An event handler either produces a new state, or stops early (with an alert
   or silently) and leaves every piece of state as it was.
   */
  datatype Result<+T, +E> = Ok(value: T) | Err(error: E)
}
