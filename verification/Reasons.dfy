/** The closed list of reasons for which the outcome of an event is unknown (`internal/agent/batch.go`). */
module Reasons {
  const NO_PER_EVENT_VERDICT := "no_per_event_verdict"
  const MALFORMED_VERDICT := "malformed_verdict"
  const TURN_ENDED_NO_OUTPUT := "turn_ended_no_output"
  const PARSER_ERROR := "parser_error"
  const RECOVERED_FROM_CRASH := "recovered_from_frontmatter"
  const UNCLASSIFIED := "unclassified"

  const TRANSCRIPT_UNAVAILABLE := "transcript-unavailable"

  predicate IsValidUnknownReason(reason: string) {
    || reason == NO_PER_EVENT_VERDICT || reason == MALFORMED_VERDICT || reason == TURN_ENDED_NO_OUTPUT
    || reason == PARSER_ERROR || reason == RECOVERED_FROM_CRASH || reason == UNCLASSIFIED
  }

  /** The reason under which an unknown outcome is filed: foreign texts become "unclassified". */
  function ClampReason(reason: string): (clamped: string)
    ensures IsValidUnknownReason(clamped)
    ensures IsValidUnknownReason(reason) ==> clamped == reason
    ensures !IsValidUnknownReason(reason) ==> clamped == UNCLASSIFIED
  {
    if IsValidUnknownReason(reason) then reason else UNCLASSIFIED
  }
}
