/** The error type of the crate and the result types its functions return. */
module Wrappers {

  datatype Option<+T> = None | Some(value: T)

  /** The errors of the crate, one constructor per variant. */
  datatype Error =
    | Deserialize
    | InputValidation
    | InvalidInput
    | LengthMismatch
    | Verify
    | Inverse
    | DeriveKeyPair
    | InputTooLong
    | InconsistentState

  /** `Result<T, Error>`: usable with `:-`, which plays the part of the `?` operator. */
  datatype Result<+T> = Ok(value: T) | Err(error: Error) {
    predicate IsFailure() {
      Err?
    }

    function PropagateFailure<U>(): Result<U>
      requires Err?
    {
      Err(error)
    }

    function Extract(): T
      requires Ok?
    {
      value
    }
  }
}
