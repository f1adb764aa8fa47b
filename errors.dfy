/** Error values of the download-requirements configuration step, and the
    result wrappers that carry them instead of Python exceptions. */
module Errors {

  /** The exceptions that leave the configuration step. `CriticalError` is the
      run-ending error the program raises itself; `ManifestError` stands for any
      other exception the manifest reader lets escape (it is not caught). */
  datatype Error =
    | CriticalError(message: string)
    | ManifestError(message: string)

  /** A value or the error raised instead of returning it. */
  datatype Result<+T> = Ok(value: T) | Err(error: Error)

  /** Completion of a procedure that returns nothing: normal return or an error raised. */
  datatype Outcome = Pass | Fail(error: Error)

  datatype Option<+T> = None | Some(value: T)
}
