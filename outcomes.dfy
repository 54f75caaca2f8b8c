/** Optional values, results and error values for the operations of the password manager. */
module Outcomes {

  /** A value that may be absent (Python's `None`). */
  datatype Option<T> = None | Some(value: T)

  /** The exceptions the manager raises, one constructor per raise site. */
  datatype Error =
    | NotFound(id: int)              // "Entry with id ... not found"
    | InvalidUnit(unit: string)      // ValueError from set_expiration_interval
    | InvalidThreshold(given: real)  // ValueError from set_fuzzy_match_threshold
    | EmptyMax                       // ValueError from max() of an empty list
    | UnboundName                    // NameError

  /** The result of an operation that returns nothing on success. */
  datatype Outcome = Pass | Fail(error: Error)

  /** The result of an operation that returns a value on success. */
  datatype Result<T> = Ok(value: T) | Err(error: Error)
}
