/** Failure-carrying values used in place of the exceptions the Python code raises. */
module Errors {

  datatype Option<T> = None | Some(value: T)

  /**
   * The exception classes raised by the core, each carrying its exact message text; `OSError` is
   * the one `subprocess.run` raises when apt-get cannot be started, which the core lets through.
   */
  datatype Error =
    | ValueError(message: string)
    | PermissionError(message: string)
    | RuntimeError(message: string)
    | OSError(message: string)

  /** Either the value a Python function returns or the exception it raises. */
  datatype Result<T> = Ok(value: T) | Err(error: Error)
}
