/** Failure-compatible wrappers and the error taxonomy of the object store.
    Every Ruby `raise` of the modelled code becomes a `Failure` carrying one
    of the `Error` values below. */
module Results {

  datatype Option<+T> = None | Some(value: T) {

    function GetOr(default: T): T {
      match this
      case Some(v) => v
      case None => default
    }
  }

  /** The exception classes raised by the modelled code. The first group is
      declared in head_fsck.rb, the enumerator errors in lib/my_enum_for.rb;
      the rest are Ruby built-ins the code runs into. */
  datatype Error =
    | InvalidModeError
    | InvalidSha1Error(sha1: string, expected: string)
    | InvalidSizeError
    | InvalidTypeError
    | MissingObjectError
    | ExcessiveCommitDataError(field: string)
    | MissingCommitDataError(field: string)
    | InvalidTreeData
    | StopIteration
    | InvalidEnumeratorIndex
    | AssertionError
    | NoMethodError
    | NotImplementedError
    | TypeError
    | StackLevelTooDeep
    | RuntimeError(message: string)

  datatype Result<+T> = Success(value: T) | Failure(error: Error) {

    predicate IsFailure() {
      Failure?
    }

    function PropagateFailure<U>(): Result<U>
      requires Failure?
    {
      Failure(error)
    }

    function Extract(): T
      requires Success?
    {
      value
    }
  }
}
