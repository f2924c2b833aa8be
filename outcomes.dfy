/** Results of the collection's bounds-checked operations.  An index outside
    the valid range is reported as an error value, never by a partial update. */
module Outcomes {

  /** The single error kind of the collection. */
  datatype Error = IndexOutOfRange

  /** An operation that yields a value (indexed get, RemoveAt). */
  datatype Result<+T> = Ok(value: T) | Err(error: Error)

  /** An operation that yields no value (indexed set, InsertAt, Exchange). */
  datatype Outcome = Pass | Fail(error: Error)
}
