/** Failure-compatible datatypes shared by the model. */
module Wrappers {

  /** A value, or None where the program panics. */
  datatype Option<+T> = None | Some(value: T) {
    predicate IsFailure() { None? }

    function PropagateFailure<U>(): Option<U>
      requires None?
    {
      None
    }

    function Extract(): T
      requires Some?
    {
      value
    }
  }

  /** How a state-changing method ends: normally, or in a panic that aborts the process. */
  datatype Outcome = Done | Panic {
    predicate IsFailure() { Panic? }

    function PropagateFailure(): Outcome
      requires Panic?
    {
      Panic
    }
  }
}
