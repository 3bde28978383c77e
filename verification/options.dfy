/** Optional values and results, used wherever the page script has a
    nullable reference or an operation that can throw. */
module Options {

  /** `None` plays the part of JavaScript's `null` / `undefined`. */
  datatype Option<T> = None | Some(value: T)

  /** A value or the error the script would have thrown. */
  datatype Result<T, E> = Ok(value: T) | Err(error: E)
}
