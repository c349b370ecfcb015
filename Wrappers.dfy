/** Optional values and results, used where the Java code has null references and exceptions. */
module Wrappers {

  /** A Java reference that may be null. */
  datatype Option<T> = None | Some(value: T)

  /** The value a Java method returns, or the exception it throws. */
  datatype Result<T, E> = Success(value: T) | Failure(error: E)

  /** The outcome of a Java method returning void: normal completion or an exception. */
  datatype Outcome<E> = Pass | Fail(error: E)
}

/** The exceptions thrown by the keyword automaton. */
module Errors {

  datatype Error =
      /** IllegalArgumentException: a null or blank keyword. */
    | IllegalArgument
      /** IllegalStateException: a keyword added after compilation. */
    | IllegalState
      /** NullPointerException from the argument check; names the offending parameter. */
    | NullPointer(parameter: string)
      /** StringIndexOutOfBoundsException from StringBuilder.setLength with a negative length. */
    | StringIndexOutOfBounds(index: int)
}
