/** Structured outcomes of the store's operations.
    The source reports a failure in several ways: a logged message and an
    early return, a `null` from `updateFolderName`, or an exception that
    nothing catches (`readdirSync` on a file). The model turns each of these
    into an error kind returned to the caller, and `Err` always means that
    nothing was written. */
module Outcomes {

  /** Why an operation did not take effect. */
  datatype Error =
    | NotFound       // the path that must exist does not
    | AlreadyExists  // the path that must be absent is present
    | NotEmpty       // a folder to delete still has entries
    | SameName       // a rename whose destination is the source itself
    | IOFailure      // the underlying fs call fails (wrong entry kind, rmdir of ".", ...)
    | ParseFailure   // the catch around JSON.parse and the callback is reached
    | NoMatch        // no record has an `id` strictly equal to the key

  datatype Result<+T> = Ok(value: T) | Err(error: Error)
}
