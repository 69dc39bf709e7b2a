/** What an agent turn reports back (`internal/agent/backend_acp.go`). */
module Turns {
  import opened Verdicts

  datatype Violation = Violation(path: string, message: string)

  /** The error in a batch result: none, the cancellation of a shutdown, the batch timeout, or another. */
  datatype Failure = NoFailure | Canceled | DeadlineExceeded | OtherFailure(message: string)

  /** `OtherStatus` stands for a status the coordinator does not know. */
  datatype BatchStatus = Success | Failed | OtherStatus

  datatype BatchResult = BatchResult(
    status: BatchStatus, eventResults: seq<EventResult>, summary: string, violations: seq<Violation>,
    indexStale: bool, error: Failure)

  /** What the backend's call returns: an error of its own, or a batch result. */
  datatype RunOutcome = OuterError | Completed(result: BatchResult)
}
