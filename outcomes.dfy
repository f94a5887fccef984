/** Outcomes of the service's operations. Every Python exception raised inside a
    route handler is caught by the handler and turned into the same error
    response, so the model only needs to know that an operation failed and,
    for the reader, which kind of Python exception the failure stands for. */
module Outcomes {

  datatype Option<+T> = None | Some(value: T)

  /** The exception classes the handlers can run into. */
  datatype Failure =
    | KeyMissing       // `KeyError`: a catalog index or ephemeris segment that does not exist
    | IndexOutOfRange  // `IndexError`: a missing line, field or array element
    | BadNumber        // `ValueError`: text that `int()` or `float()` rejects
    | OracleFailure    // any exception raised inside the astronomy library
    | Unserialisable   // `TypeError`: `jsonify` given arrays where it expects numbers

  datatype Result<+T> = Ok(value: T) | Err(failure: Failure)
}
