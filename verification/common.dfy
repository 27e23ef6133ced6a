/** Small value types shared by every page: optional values, handler outcomes and dates. */
module Common {

  /** A value that may be absent; stands for TypeScript's `T | null`. */
  datatype Option<T> = None | Some(value: T)

  /** The outcome of a form handler: the new list, or the reason the handler aborted. */
  datatype Result<T, E> = Success(value: T) | Failure(error: E)

  /** A JavaScript `Date`, kept as an opaque instant that is only ever copied. */
  datatype Date = Date(epochMillis: int)
}
