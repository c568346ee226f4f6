/**
 * Failure-carrying result types and the error kinds of the engine.
 *
 * Every Java exception the core raises (the `Error` enum, the
 * `OperationFailException` constants, the runtime faults of the JDK that
 * the code does not catch) becomes one `Error` value; a `Panic` becomes
 * an error value as well, and the caller decides what to do with it.
 */
module Wrappers {

  datatype Option<+T> = None | Some(value: T)

  datatype Error =
    // fatal conditions (Panic.panic in the source)
    | BadLogFile
    | BadXidFile
    | CacheFull
    | MemTooSmall
    | DataTooLarge
    | DatabaseBusy
    // conflicts returned to the calling transaction
    | DeadLock
    | ConcurrentUpdate
    | NullEntry
    // upper-layer errors
    | InvalidCommand
    | InvalidField
    | InvalidValues
    | FieldNotIndexed
    | FieldNotFound
    | InvalidLogOp
    | TableNoIndex
    | NestedTransaction
    | NoTransaction
    | InvalidMem
    | NumberFormat
    // unchecked faults of the Java runtime that the source lets escape
    | NullPointer
    | IndexOutOfBounds
    | IllegalArgument
    | NegativeArraySize
    | ConcurrentModification
    | ClassCast

  datatype Result<+T> = Ok(value: T) | Err(error: Error) {
    predicate IsFailure() { Err? }

    function PropagateFailure<U>(): Result<U>
      requires Err?
    {
      Err(error)
    }

    function Extract(): T
      requires Ok?
    {
      value
    }
  }

  /** An operation that produces no value but may fail. */
  datatype Outcome = Pass | Fail(error: Error) {
    predicate IsFailure() { Fail? }

    function PropagateFailure(): Outcome
      requires Fail?
    {
      this
    }
  }
}
