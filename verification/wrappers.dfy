/** Failure-carrying values shared by every module of the model. */
module Wrappers {

  /** A value that may be absent: the model's stand-in for a C# `null`. */
  datatype Option<+T> = None | Some(value: T)

  /** Either a value or the exception the source would throw instead. */
  datatype Result<+T, +E> = Success(value: T) | Failure(error: E) {
    predicate IsFailure() { Failure? }

    function PropagateFailure<U>(): Result<U, E>
      requires Failure?
    {
      Failure(error)
    }

    function Extract(): T
      requires Success?
    {
      value
    }
  }
}

/** The exceptions the engine raises, by .NET exception class. */
module Errors {

  /** Why an `ArgumentException` was raised. */
  datatype ArgumentReason =
    | UnknownKind          // kind short name missing from the registry
    | UnknownProperty      // initializer names a property the kind lacks
    | NoDefaultProperty    // bare initializer on a kind without a default property
    | AlreadyRegistered    // short name registered twice
    | NotRegistered        // unregistering an absent short name
    | NotDecorated         // kind class without a short-name attribute
    | NoSeparator          // CSDL unit without ':'
    | BlankInput           // blank text handed to the text processor
    | NoSetter             // initializer names a read-only property
    | DuplicateKey         // the same initializer key twice

  datatype Error =
    | ArgumentNull
    | Argument(reason: ArgumentReason)
    | ArgumentOutOfRange
    | InvalidOperation     // duplicate unit name in a syntax
    | InvalidCast          // context value of the wrong type
    | NullReference
    | Format               // initializer value that does not convert
    | Overflow             // initializer number outside the property's range
    | TargetInvocation     // a property setter threw (an invalid regular expression)
    | JsonReader           // malformed JSON initializer
    | DivideByZero         // scoring a syntax without slots
    | OperationCanceled
    | MatchNotFound(inputText: string)
}
