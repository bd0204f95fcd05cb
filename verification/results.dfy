/** The failure type of the pipeline.  Every stage of the automation reports
    trouble through one coarse-grained error kind (Python's `ValueError`),
    so that the orchestrator has a single failure to handle. */
module Results {

  /** The only failure kind the core raises. */
  datatype Error = ValueError

  /** A value that may be absent (Python's `None`). */
  datatype Option<+T> = None | Some(value: T)

  /** Either the value a stage produced or the failure it raised.  The
      members below make the type usable with Dafny's `:-` operator. */
  datatype Result<+T> = Success(value: T) | Failure(error: Error) {

    predicate IsFailure() {
      Failure?
    }

    function PropagateFailure<U>(): Result<U>
      requires Failure?
    {
      Failure(error)
    }

    function Extract(): T
      requires Success?
    {
      value
    }
  }
}
