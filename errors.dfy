/** Error kinds and result wrappers shared by the storage kernel model. */
module Errors {
  /** The kinds of failure the kernel reports to its callers. */
  datatype ErrorKind =
    | IoError          // a file-system write or extension failed
    | CorruptionError  // a read found no block where one was expected
    | ExhaustedError   // the buffer pool has no unpinned buffer left

  datatype Option<T> = None | Some(value: T)

  datatype Result<T> = Ok(value: T) | Err(error: ErrorKind)
}
