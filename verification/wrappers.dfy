/** Failure-compatible result type for the operations of the canvas that the
    .NET runtime would abort with an exception. */
module Wrappers {

  /** The faults the update loop can run into while editing the line store:
      the two dictionary exceptions, and a misuse of the tree that the
      abstract tree reports (the tree library itself is not modelled). */
  datatype Fault =
    | DuplicateKey(key: int)   // Dictionary.Add on a key already present
    | KeyNotFound(key: int)    // Dictionary indexer on a missing key
    | DeadLeaf(handle: nat)    // removing a handle that is not a live leaf of the abstract tree

  datatype Result<+T> = Success(value: T) | Failure(fault: Fault) {

    predicate IsFailure() {
      Failure?
    }

    function PropagateFailure<U>(): Result<U>
      requires Failure?
    {
      Failure(fault)
    }

    function Extract(): T
      requires Success?
    {
      value
    }
  }
}
