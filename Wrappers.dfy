/** Option and Result, used for C# nulls and for the exceptions the engine lets through. */
module Wrappers {

  /** `None` stands for a C# null reference. */
  datatype Option<+T> = None | Some(value: T)

  /** The outcome of an operation that either returns a value or throws. */
  datatype Result<+R, +E> = Success(value: R) | Failure(error: E) {

    predicate IsFailure() {
      Failure?
    }

    function PropagateFailure<U>(): Result<U, E>
      requires Failure?
    {
      Failure(error)
    }

    function Extract(): R
      requires Success?
    {
      value
    }
  }
}

/** The exceptions that the comparison engine raises or lets through to its caller. */
module Errors {

  datatype Error =
    /** NullReferenceException: a rule's comparison predicate was never set. */
    | NullPredicate(member: string)
    /** NullReferenceException: neither a synchronous nor an asynchronous message function is set. */
    | NullMessageProvider(member: string)
    /** NullReferenceException: the member resolver gave null, so the property type cannot be read. */
    | NullMember
    /** InvalidCastException: the resolved member is a field or method, not a property. */
    | NotAProperty(member: string)
    /** InvalidCastException: a predicate's typed wrapper received an operand of another type. */
    | InvalidCast
    /** ArgumentException: a dictionary or dynamic object already holds this key. */
    | DuplicateKey(key: string)
}
