/** Failure-compatible wrappers shared by every module of the model. */
module Results {

  /** An optional value; `None` stands for Ruby's `nil` (and `false`). */
  datatype Option<+T> = None | Some(value: T) {
    function GetOr(default: T): T {
      match this
      case Some(v) => v
      case None => default
    }
  }

  /** The errors the modelled code raises. */
  datatype Error =
    | MissingParameter(key: string)        // ArgumentError: mandatory parameter absent
    | NilParameter(key: string)            // ArgumentError: parameter value is nil
    | InvalidFields                        // :fields is not a list of field declarations
    | OffsetNotAsExpected                  // ValidityError: expectation is false or nil
    | OffsetMismatch(offset: int)          // ValidityError: offset differs from expectation
    | UnknownField(name: string)           // NoMethodError from the name-based accessors
    | ShortRead                            // the stream holds fewer bytes than requested
    | MissingLeftover                      // TypeError: a nil leftover byte OR'd into a byte
    | EmptyScratch                         // NoMethodError: nothing was written to the scratch buffer

  /** Either a value or an error; usable with `:-`. */
  datatype Result<+R> = Ok(value: R) | Err(error: Error) {
    predicate IsFailure() {
      Err?
    }

    function PropagateFailure<U>(): Result<U>
      requires Err?
    {
      Err(error)
    }

    function Extract(): R
      requires Ok?
    {
      value
    }
  }
}
