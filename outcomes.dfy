/** Error values and the failure-carrying result types shared by the task store and the task service. */
module Outcomes {

  /** The errors the store and the service report to their callers. */
  datatype Error =
    | NotFound        // no task with the given id (or no archive built for it yet)
    | AlreadyExists   // the store's id allocator met an id already in use
    | Validation      // a malformed link
    | Busy            // the admission cap of open tasks is reached
    | ArchiveFailed   // building the archive failed

  datatype Option<+T> = None | Some(value: T)

  /** A value or an error, as Go's `(T, error)` pair. */
  datatype Result<+T> = Ok(value: T) | Err(error: Error)

  /** Success or an error, as Go's lone `error` return. */
  datatype Outcome = Pass | Fail(error: Error)
}
