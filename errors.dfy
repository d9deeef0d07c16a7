/** The exceptions of dspacket.h (all thrown as DSError with a message) and the
    boolean failures of dsbuffer.h, as values. */
module Errors {

  /** The four failure kinds the codec distinguishes. */
  datatype DSError =
    | CapacityExceeded   // a buffer would grow past its maximum block count
    | OversizeString     // a string longer than its length prefix can say
    | ShortRead          // a read needs more bytes than remain
    | TrailingData       // finish() with bytes left over

  /** A value or the error that stopped its computation. */
  datatype Result<+T> = Ok(value: T) | Err(error: DSError) {
    predicate IsFailure() { Err? }
    function PropagateFailure<U>(): Result<U> requires Err? { Err(error) }
    function Extract(): T requires Ok? { value }
  }

  /** Success or the error of an operation that produces no value. */
  datatype Outcome = Pass | Fail(error: DSError) {
    predicate IsFailure() { Fail? }
    function PropagateFailure(): Outcome requires Fail? { this }
  }
}
