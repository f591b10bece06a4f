// Option and outcome types shared by every module of the model.
module Wrappers {
  datatype Option<T> = None | Some(value: T)

  /** The Java exception classes that the modelled code can throw. */
  datatype Exception =
    | IllegalArgument
    | NullPointer
    | ClassCast
    | IndexOutOfBounds
    | StringIndexOutOfBounds
    | Runtime
    | IntegrityConstraint
    | NumberFormat
    | Permissions
    | EndOfFile

  /** A Java call that either returns a value or throws. */
  datatype Outcome<T> = Returned(value: T) | Threw(exc: Exception) {
    predicate IsFailure() {
      Threw?
    }

    function PropagateFailure<U>(): Outcome<U>
      requires Threw?
    {
      Threw(exc)
    }

    function Extract(): T
      requires Returned?
    {
      value
    }
  }

  /** What a schema-editing call answers: a null ReturnVal for success, or an error dialog. */
  datatype Reply = Done | Refused
}
