/** Option and Result, and the failures the modelled machine can report. */
module Wrappers {

  datatype Option<+T> = None | Some(value: T)

  datatype Result<+T, +E> = Success(value: T) | Failure(error: E) {
    predicate IsFailure() {
      Failure?
    }

    function PropagateFailure<U>(): Result<U, E>
      requires Failure?
    {
      Failure(error)
    }

    function Extract(): T
      requires Success?
    {
      value
    }
  }

  /** Memory, trace and arithmetic failures; the CPU passes the first two through unchanged. */
  datatype MachineError =
    | AddressOutOfRange(address: int)
    | FixedBankUnavailable(bank: int)
    | FixedOffsetOutOfRange(offset: int)
    | FixedWrite(address: int)
    | RopeSize(actual: int)
    | TraceOrdering(previousSequence: nat, sequence: nat)
    | IntegerOutOfRange(value: int)
}
