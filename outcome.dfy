/** Failure values for the two ways the resolution and annotation code panics. */
module Outcome {

  /** Why a call panicked instead of returning. */
  datatype Panic =
    /** `Option::unwrap` was called on an argument that has no name. */
    | UnwrapOnNone
    /** An annotation parameter other than `pre` or `post` was given. */
    | UnsupportedParameter(name: string)

  /** The value a call returns, or the panic that ended it; usable with `:-`. */
  datatype Result<+T> = Ok(value: T) | Err(error: Panic) {

    predicate IsFailure() {
      Err?
    }

    function PropagateFailure<U>(): Result<U>
      requires Err?
    {
      Err(error)
    }

    function Extract(): T
      requires Ok?
    {
      value
    }
  }
}
