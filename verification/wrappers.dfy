/** Optional values and results with an error, as the rest of the model uses them. */
module Wrappers {

  /** A value that may be absent: a JavaScript property that is `undefined`, or a lookup that
      found nothing. */
  datatype Option<+T> = None | Some(value: T)

  /** A computation that either produced a value or failed with an error (a thrown exception or
      a rejected promise in the original program). */
  datatype Result<+T, +E> = Ok(value: T) | Err(error: E)
}
