/** Option and Result wrappers, and the error kinds thrown by the library
    (src/Typescript/Error.ts). A thrown `Error(kind, context)` becomes an `Err`. */
module Wrappers {

  /** `None` models an absent field, `undefined` or Luau `nil`. */
  datatype Option<+T> = None | Some(value: T) {
    predicate IsFailure() { None? }

    function PropagateFailure<U>(): Option<U>
      requires None?
    {
      None
    }

    function Extract(): T
      requires Some?
    {
      value
    }

    function GetOr(default: T): T {
      match this
      case Some(v) => v
      case None => default
    }
  }

  /** The ErrorType enumeration. */
  datatype ErrorKind =
    | MaxDepthExceeded | CacheError | TensorError | DerivativeError | EvaluatorError
    | PolynomialError | VisualizerError | ComplexError | ParserError | TokenizerError
    /** Used for a host-level failure the code does not name (an unbounded recursion). */
    | Diverges
    /** A runtime error of the host itself: indexing or comparing with nil. */
    | HostError
    /** The kind TokenStream.nextToken throws; the enumeration has no such member. */
    | UnexpectedEndOfInput

  /** A thrown error: its kind and a short reason in place of the context record. */
  datatype Error = Error(kind: ErrorKind, reason: string)

  datatype Result<+T> = Ok(value: T) | Err(error: Error) {
    predicate IsFailure() { Err? }

    function PropagateFailure<U>(): Result<U>
      requires Err?
    {
      Err(error)
    }

    function Extract(): T
      requires Ok?
    {
      value
    }
  }

  function Fail<T>(kind: ErrorKind, reason: string): Result<T> {
    Err(Error(kind, reason))
  }
}
