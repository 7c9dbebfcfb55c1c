/** Failure-carrying results shared by every module of the model.
    The source signals failures by throwing (its `assert` helper throws an
    `Error`, the runtime throws `TypeError` / `RangeError`); the model returns
    them as values instead. */
module Wrappers {

  /** The kind of exception the source would throw, with a short reason. */
  datatype Error =
    | AssertionError(reason: string)
    | TypeError(reason: string)
    | RangeError(reason: string)
    | OutOfMemory

  datatype Result<+T> = Ok(value: T) | Err(error: Error) {
    predicate IsFailure() {
      Err?
    }

    function PropagateFailure<U>(): Result<U>
      requires Err?
    {
      Err(error)
    }

    function Extract(): T
      requires Ok?
    {
      value
    }
  }

  /** The result of a check that only passes or throws. */
  datatype Outcome = Pass | Fail(error: Error) {
    predicate IsFailure() {
      Fail?
    }

    function PropagateFailure<U>(): Result<U>
      requires Fail?
    {
      Err(error)
    }
  }

  /** The source's `assert(condition, message)`: passes or throws an `Error`. */
  function Need(condition: bool, reason: string): (o: Outcome)
  {
    if condition then Pass else Fail(AssertionError(reason))
  }

  datatype Option<+T> = None | Some(value: T)
}
