/** The unknown-streak breaker of `internal/agent/coordinator.go`, as values, and what it guarantees over
    whole runs in which flushes, notifies and resets interleave. */
module Breaker {
  import opened Verdicts

  /** How many consecutive all-unknown batches trip the breaker. */
  const STREAK_LIMIT := 3

  /** The evidence kept when the breaker trips. */
  datatype StreakStop = StreakStop(batches: nat, reasons: multiset<string>, transcripts: seq<string>)

  /** `reasons` is the map from reason to count, as a multiset. */
  datatype State = State(
    suspended: bool, stop: Option<StreakStop>, streak: nat, reasons: multiset<string>, transcripts: seq<string>)

  function CountOf(results: seq<EventResult>, status: ResultStatus): nat {
    if results == [] then 0
    else CountOf(results[..|results| - 1], status) + if results[|results| - 1].status == status then 1 else 0
  }

  function AdjudicatedCount(results: seq<EventResult>): nat {
    CountOf(results, Integrated) + CountOf(results, Skipped) + CountOf(results, FailedByAgent)
  }

  function UnknownReasons(results: seq<EventResult>): multiset<string> {
    if results == [] then multiset{}
    else
      var last := results[|results| - 1];
      UnknownReasons(results[..|results| - 1]) + if last.status == Unknown then multiset{last.reason} else multiset{}
  }

  /** The transcript of the first unknown result that has one. */
  function FirstTranscript(results: seq<EventResult>): Option<string> {
    if results == [] then None
    else if results[0].status == Unknown && results[0].transcriptPath != "" then Some(results[0].transcriptPath)
    else FirstTranscript(results[1..])
  }

  /** No event was adjudicated and at least one ended unknown. */
  predicate AllUnknown(results: seq<EventResult>) {
    AdjudicatedCount(results) == 0 && CountOf(results, Unknown) > 0
  }

  predicate Trips(b: State, results: seq<EventResult>) {
    AllUnknown(results) && b.streak + 1 >= STREAK_LIMIT
  }

  /** `recordBatchOutcomes`. */
  function Recorded(b: State, results: seq<EventResult>): State {
    if AdjudicatedCount(results) > 0 then b.(streak := 0, reasons := multiset{}, transcripts := [])
    else if CountOf(results, Unknown) == 0 then b
    else
      var transcript := FirstTranscript(results);
      var next := b.(
        streak := b.streak + 1,
        reasons := b.reasons + UnknownReasons(results),
        transcripts := if |b.transcripts| < STREAK_LIMIT && transcript.Some? then b.transcripts + [transcript.value]
                       else b.transcripts);
      if next.streak < STREAK_LIMIT then next
      else next.(suspended := true, stop := Some(StreakStop(next.streak, next.reasons, next.transcripts)))
  }

  /** `NotifyNewEvent`, and a reset that succeeds. */
  function Recovered(b: State): State {
    b.(suspended := false, stop := None)
  }

  /** An automatic flush does not start while the coordinator is suspended. */
  predicate MayStart(b: State, explicit: bool) {
    explicit || !b.suspended
  }

  function Started(b: State, explicit: bool): State
    requires MayStart(b, explicit)
  {
    b.(suspended := false, stop := if explicit then None else b.stop)
  }

  /** `scheduleNext`: a flush that stopped for one of the suspending reasons suspends, whatever came since. */
  function Scheduled(b: State, suspending: bool): State {
    if suspending then b.(suspended := true) else b
  }

  // ---------------------------------------------------------------- runs

  datatype Phase = Idle | Flushing | Ending(suspending: bool)

  /** The breaker with its history since the last adjudicated outcome: batches run that were all unknown,
      their unknown results, and recovery steps (notify, reset, explicit flush start). */
  datatype System = System(b: State, phase: Phase, unknownBatches: nat, unknownResults: nat, recoveries: nat)

  datatype Step =
    | Recover
    | StartFlush(explicit: bool)
    | BatchDone(results: seq<EventResult>)
    | EndFlush(suspending: bool)
    | ScheduleNext

  /** A step that the phase does not allow leaves the system as it is. */
  function Next(s: System, step: Step): System {
    match step
    case Recover => s.(b := Recovered(s.b), recoveries := s.recoveries + 1)
    case StartFlush(explicit) =>
      if s.phase != Idle then s
      else if !MayStart(s.b, explicit) then s.(phase := Ending(false))
      else s.(b := Started(s.b, explicit), phase := Flushing, recoveries := s.recoveries + if explicit then 1 else 0)
    case BatchDone(results) =>
      if s.phase != Flushing then s
      else
        var phase := if Trips(s.b, results) then Ending(true) else Flushing;
        var recorded := s.(b := Recorded(s.b, results), phase := phase);
        if AdjudicatedCount(results) > 0 then recorded.(unknownBatches := 0, unknownResults := 0, recoveries := 0)
        else if AllUnknown(results) then
          recorded.(
            unknownBatches := s.unknownBatches + 1,
            unknownResults := s.unknownResults + CountOf(results, Unknown))
        else recorded
    case EndFlush(suspending) => if s.phase != Flushing then s else s.(phase := Ending(suspending))
    case ScheduleNext =>
      if !s.phase.Ending? then s else s.(b := Scheduled(s.b, s.phase.suspending), phase := Idle)
  }

  function Run(s: System, steps: seq<Step>): System {
    if steps == [] then s else Next(Run(s, steps[..|steps| - 1]), steps[|steps| - 1])
  }

  const FRESH := System(State(false, None, 0, multiset{}, []), Idle, 0, 0, 0)

  /** Whether the next thing that happens may be a batch without a recovery step first. */
  predicate Runnable(s: System) {
    s.phase == Flushing || !s.b.suspended
  }

  ghost predicate Inv(s: System) {
    && s.b.streak == s.unknownBatches
    && |s.b.reasons| == s.unknownResults
    && |s.b.transcripts| <= STREAK_LIMIT
    && (s.phase == Flushing ==> !s.b.suspended)
    && (s.unknownBatches >= STREAK_LIMIT ==>
          s.unknownBatches <= STREAK_LIMIT + s.recoveries
          && (Runnable(s) ==> s.unknownBatches < STREAK_LIMIT + s.recoveries))
  }

  lemma {:induction false} UnknownReasonsSize(results: seq<EventResult>)
    ensures |UnknownReasons(results)| == CountOf(results, Unknown)
  {
    if results != [] {
      UnknownReasonsSize(results[..|results| - 1]);
    }
  }

  lemma NextKeepsInv(s: System, step: Step)
    requires Inv(s)
    ensures Inv(Next(s, step))
  {
    if step.BatchDone? {
      UnknownReasonsSize(step.results);
    }
  }

  lemma {:induction false} InvAlways(steps: seq<Step>)
    ensures Inv(Run(FRESH, steps))
  {
    if steps != [] {
      InvAlways(steps[..|steps| - 1]);
      NextKeepsInv(Run(FRESH, steps[..|steps| - 1]), steps[|steps| - 1]);
    }
  }

  /** Since the last adjudicated outcome, at most the limit plus one batch per recovery step came back
      all unknown; the reason counts sum to the streak's unknown results; at most the limit of transcripts
      is kept; and no batch runs while the coordinator is suspended. */
  lemma BreakerBound(steps: seq<Step>)
    ensures
      var s := Run(FRESH, steps);
      && s.unknownBatches <= STREAK_LIMIT + s.recoveries
      && s.b.streak == s.unknownBatches
      && |s.b.reasons| == s.unknownResults
      && |s.b.transcripts| <= STREAK_LIMIT
      && (s.phase == Flushing ==> !s.b.suspended)
  {
    InvAlways(steps);
  }

  /** Once the limit is reached without a recovery step since, no batch runs until there is one. */
  lemma TrippedMeansQuiet(steps: seq<Step>, results: seq<EventResult>)
    requires
      var s := Run(FRESH, steps);
      s.unknownBatches >= STREAK_LIMIT && s.recoveries == 0
    ensures
      var s := Run(FRESH, steps);
      && s.b.suspended && s.phase != Flushing
      && Next(s, BatchDone(results)) == s
      && Next(s, StartFlush(false)).phase != Flushing
  {
    InvAlways(steps);
  }

  /** Only a recovery step removes the stop record: automatic flushes and their batches leave it. */
  lemma StopRecordSurvives(s: System, step: Step)
    requires s.b.stop.Some? && step != Recover && step != StartFlush(true)
    ensures Next(s, step).b.stop.Some?
  {
  }
}
