/** Values shared by every part of the bridge: optional values, results,
    the C++ exceptions a command can raise, and the (identifier, message)
    pairs that reach the MATLAB host through mexErrMsgIdAndTxt. */
module Outcomes {

  datatype Option<+T> = None | Some(value: T)

  datatype Result<+R, +E> = Success(value: R) | Failure(error: E)

  /** What a C++ `throw` can carry across the dispatcher's catch clauses.
      `StdException` stands for every `std::exception` that is not a
      `std::invalid_argument` (std::runtime_error among them); `NonStandard`
      is anything caught only by `catch (...)`. */
  datatype Exception =
    | InvalidArgument(what: string)
    | StdException(what: string)
    | NonStandard

  /** The pair handed to mexErrMsgIdAndTxt. Reporting it ends the host call. */
  datatype ErrorReport = ErrorReport(id: string, message: string)

  /** How one invocation of a bound command ends: it returns normally, it
      throws, or it reports an error to the host itself (which aborts the
      call without passing through any catch clause). */
  datatype Completion =
    | Completed
    | Threw(exception: Exception)
    | Aborted(report: ErrorReport)
}
