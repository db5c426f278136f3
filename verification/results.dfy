/** Optional values, the error kinds the controllers report, and a
    Result type for operations that either produce a new state or fail. */
module Results {

  /** A value that may be absent (SQL NULL, a PHP null, a missing row). */
  datatype Option<+T> = None | Some(value: T)

  /** The outcomes the controllers distinguish when a request does not succeed. */
  datatype Error =
    | NotFound                                                  // findOrFail found no row (404)
    | ValidationFailed                                          // the request validator rejected the payload (422)
    | RequiredFieldMissing(fieldName: string)                   // "Field <name> is required"
    | InvalidOptionValue(fieldName: string, offending: Option<string>) // no Option of the field has that option_value
    | Conflict                                                  // template still owns records
    | Forbidden                                                 // access or admin check failed (403)
    | ServerError                                               // any other exception, answered 500

  /** Either the new state of the world or the error that aborted the operation. */
  datatype Result<+T> = Ok(value: T) | Err(error: Error) {

    predicate IsFailure() {
      Err?
    }

    function PropagateFailure<U>(): Result<U>
      requires Err?
    {
      Err(error)
    }

    function Extract(): T
      requires Ok?
    {
      value
    }
  }
}
