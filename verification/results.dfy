/** Failure-compatible wrappers used throughout the model. */
module Results {

  /** A value that may be missing: a map lookup, a decoded field. */
  datatype Option<+T> = None | Some(value: T)

  /** Either a value or the error that stopped the computation; usable with `:-`. */
  datatype Result<+T, +E> = Success(value: T) | Failure(error: E) {

    predicate IsFailure() {
      Failure?
    }

    function PropagateFailure<U>(): Result<U, E>
      requires Failure?
    {
      Failure(error)
    }

    function Extract(): T
      requires Success?
    {
      value
    }
  }
}

/** The conditions on which the deployer stops the whole process. In the Go
    program each of them is a `log.Fatalf`; here each is an error value. */
module Failures {

  datatype Error =
    | WalkFailed(path: string)                 // the repository walk reported an error
    | NoManifests                              // no file carries a manifest name
    | DuplicateUnit(name: string)              // two manifests share a directory name
    | HashWalkFailed(path: string)             // the hashing walk reported an error
    | HashFileFailed(path: string)             // a file could not be opened or read for hashing
    | ManifestUnreadable(path: string)         // a manifest could not be opened
    | ManifestMalformed(path: string)          // a manifest could not be decoded
    | BuildFailed(unit: string, output: string) // the build or zip command failed
    | StoreReadFailed(message: string)         // reading the prior snapshot failed
}
