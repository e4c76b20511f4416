/** Optional values, the library's error kinds, and results that carry one of them. */
module Wrappers {

  datatype Option<+T> = None | Some(value: T)

  /** Every way an operation of the library (or of the primitives under it) can fail. */
  datatype Error =
    | InvalidTypeSpecifier     // coerceType could not resolve its input
    | InvalidIndirectionLevel  // get/set with an indirection below 1
    | UnknownType              // get/set through the default descriptor of an untyped region
    | NotABuffer               // writePointer given something that is neither null nor a Buffer
    | NotAString               // writeCString given something that is not a string
    | NotAnInteger             // writeInt64/writeUInt64 given neither a Number nor a String
    | NotANumber               // a checked scalar writer given a non-number
    | ValueOutOfRange          // a checked scalar writer given a number outside its width
    | OutOfBounds              // a checked scalar accessor used past the end of its Buffer
    | NullPointer              // a read or reinterpret through the NULL address
    | Unmapped                 // an access to memory that belongs to no allocation
    | NoHandle                 // readObject where no object handle was written
    | FloatingPoint            // float/double accessors, which are not modelled
    | OutOfMemory              // the allocator could not provide the region

  datatype Result<+T> = Success(value: T) | Failure(error: Error) {
    predicate IsFailure() { Failure? }

    function PropagateFailure<U>(): Result<U>
      requires Failure?
    {
      Failure(error)
    }

    function Extract(): T
      requires Success?
    {
      value
    }
  }

  /** A result that carries no value: the outcome of an operation run for its effect. */
  datatype Outcome = Pass | Fail(error: Error) {
    predicate IsFailure() { Fail? }

    function PropagateFailure<U>(): Result<U>
      requires Fail?
    {
      Failure(error)
    }
  }
}
