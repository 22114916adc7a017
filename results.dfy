/** Failure-compatible wrappers shared by every module of the model, and the
    failures the TypeScript code raises as exceptions or returns as values. */
module Results {

  datatype Option<+T> = None | Some(value: T)

  /** Every way an operation of the modelled code can fail. */
  datatype Error =
    | RangeError            // a negative power of ten: an exponent or precision above 33
    | DivisionByZero        // BN division by a zero-valued Precision
    | SyntaxError           // BigInt(text) on text that is not an integer literal
    | InvalidTokenForPool(id: string)  // crypto calculator: token id missing from the pool pair
    | UnknownPool(poolId: string)      // pool lookup on an id the pool table does not hold
    | NoRateReturned        // forex calculator: no rate for the quote currency
    | UnknownToken          // the Result-returning TokenMap.get on a missing id

  datatype Result<+T> = Ok(value: T) | Err(error: Error) {
    predicate IsFailure() {
      Err?
    }

    function PropagateFailure<U>(): Result<U>
      requires Err?
    {
      Err(error)
    }

    function Extract(): T
      requires Ok?
    {
      value
    }
  }
}
