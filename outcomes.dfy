/** Values shared by every component: optional values, the exceptions the
    Python code raises, and results that carry either a value or one of them. */
module Outcomes {

  /** Python's `None` / a present value. */
  datatype Option<+T> = None | Some(value: T)

  /** The exception kinds the modelled code raises or lets through. */
  datatype Error =
    | GitCommandError(text: string)            // a failed git invocation (GitPython)
    | GithubException(status: int, text: string) // a failed tracker-API call (PyGithub)
    | RuntimeError(text: string)
    | ValueError(text: string)
    | OSError(text: string)                     // a missing file or path
  {
    /** `str(e)`: the exception's message. */
    function Message(): string {
      match this
      case GitCommandError(t) => t
      case GithubException(_, t) => t
      case RuntimeError(t) => t
      case ValueError(t) => t
      case OSError(t) => t
    }
  }

  /** A returned value, or the exception that escaped the call. */
  datatype Result<+T> = Ok(value: T) | Err(error: Error)
}
