/** What a flush of `internal/agent/coordinator.go` does, told as the history of its attempts. */
module Flushing {
  import opened Batching
  import opened Packing
  import opened Verdicts
  import opened Turns
  import opened Splitting
  import opened Schedule
  import Breaker
  import Store

  type EventId = Store.EventId

  // ---------------------------------------------------------------- the world around a flush

  datatype Head = Proceed | EnvelopeOver | StopRequested

  /** What the coordinator does not decide: how the n-th attempt goes, what the clock and the stop channel
      say at the n-th loop head, and how the n-th append to the status log goes. */
  datatype Env = Env(run: (nat, Batch) -> RunOutcome, head: nat -> Head, append: nat -> Store.AppendIo)

  datatype StopReason = RanToCompletion | EnvelopeTimeout | Stopped | InternalErrorLimit | StoreError | UnknownStreak

  const OUTER_ERROR_LIMIT := 3
  const WRITE_FAILURE_LIMIT := 3

  /** `remaining` is -1 when the store could not be asked. */
  datatype FlushResult = FlushResult(
    attempted: nat, succeeded: nat, failed: nat,
    integrated: nat, skipped: nat, eventsFailed: nat, unknown: nat,
    indexStale: bool, statusWriteErrors: nat, remaining: int, stopped: StopReason)

  const EMPTY_RESULT := FlushResult(0, 0, 0, 0, 0, 0, 0, false, 0, 0, RanToCompletion)

  // ---------------------------------------------------------------- what is written about an attempt

  /** A status to append, or a verdict that has no terminal status to append. */
  datatype Posting = Post(entry: Store.StatusEntry) | Unwritable(eventId: EventId)

  function PostingOf(result: EventResult, batchId: string): Posting {
    var id := Store.EventId(result.eventId);
    var status := match result.status
      case Integrated => Store.Integrated
      case Skipped => Store.Skipped
      case FailedByAgent => Store.Failed
      case Unknown => Store.Unknown
      case Other(text) => Store.Invalid(text);
    if result.status.Other? then Unwritable(id)
    else
      Post(Store.StatusEntry(
        id, Store.EventStatus(status, batchId, result.reason, result.pages, result.transcriptPath)))
  }

  /** `terminalFailureReason`. */
  function FailureReason(result: BatchResult): string {
    if result.error == DeadlineExceeded then "batch_timeout_at_max_depth"
    else if result.violations != [] then "collateral: bisect terminal with poison event"
    else match result.error
      case OtherFailure(message) => "batch_crash_at_max_depth: " + message
      case _ => "batch_failed_at_max_depth"
  }

  function FailurePosting(event: PendingEvent, batchId: string, reason: string): Posting {
    Post(Store.StatusEntry(Store.EventId(event.id), Store.EventStatus(Store.Failed, batchId, reason, [], "")))
  }

  function ResultPostings(results: seq<EventResult>, batchId: string): seq<Posting> {
    if results == [] then []
    else ResultPostings(results[..|results| - 1], batchId) + [PostingOf(results[|results| - 1], batchId)]
  }

  function FailurePostings(events: seq<PendingEvent>, batchId: string, reason: string): seq<Posting> {
    if events == [] then []
    else
      FailurePostings(events[..|events| - 1], batchId, reason) +
      [FailurePosting(events[|events| - 1], batchId, reason)]
  }

  /** A success posts its verdicts, a batch that failed for good posts every event as failed. */
  function PostingsOf(a: Attempt): seq<Posting> {
    if Succeeded(a) then ResultPostings(a.outcome.result.eventResults, a.batch.id)
    else if FailedForGood(a) then FailurePostings(a.batch.events, a.batch.id, FailureReason(a.outcome.result))
    else []
  }

  /** The status log's side of a flush: the store, the write failures of each event, the events deferred
      for it, how many appends were made and how many failed. */
  datatype Book = Book(s: Store.State, failCounts: map<EventId, nat>, deferred: set<EventId>, appends: nat, errors: nat)

  function WriteFailed(book: Book, id: EventId): Book {
    var count := 1 + if id in book.failCounts then book.failCounts[id] else 0;
    book.(errors := book.errors + 1,
          failCounts := book.failCounts[id := count],
          deferred := if count >= WRITE_FAILURE_LIMIT then book.deferred + {id} else book.deferred)
  }

  function WriteSucceeded(book: Book, id: EventId): Book {
    book.(failCounts := book.failCounts - {id}, deferred := book.deferred - {id})
  }

  function PostOne(book: Book, posting: Posting, append: nat -> Store.AppendIo): Book {
    match posting
    case Unwritable(id) => WriteFailed(book, id)
    case Post(entry) =>
      var io := append(book.appends);
      var next := book.(s := Store.Written(book.s, [entry], io), appends := book.appends + 1);
      if Store.Writable(entry) && io.Done? then WriteSucceeded(next, entry.eventId)
      else WriteFailed(next, entry.eventId)
  }

  function PostAll(book: Book, postings: seq<Posting>, append: nat -> Store.AppendIo): Book {
    if postings == [] then book
    else PostOne(PostAll(book, postings[..|postings| - 1], append), postings[|postings| - 1], append)
  }

  lemma PostAllNext(book: Book, postings: seq<Posting>, posting: Posting, append: nat -> Store.AppendIo)
    ensures PostAll(book, postings + [posting], append) == PostOne(PostAll(book, postings, append), posting, append)
  {
    assert (postings + [posting])[..|postings|] == postings;
  }

  // ---------------------------------------------------------------- what a flush starts from

  function EventIds(events: seq<PendingEvent>): (ids: seq<EventId>)
    ensures |ids| == |events| && forall i :: 0 <= i < |events| ==> ids[i] == Store.EventId(events[i].id)
  {
    seq(|events|, i requires 0 <= i < |events| => Store.EventId(events[i].id))
  }

  function PendingTest(pending: set<EventId>): PendingEvent -> bool {
    (event: PendingEvent) => Store.EventId(event.id) in pending
  }

  /** The pending events of the snapshot, and those of them that are not deferred. */
  function Listed(events: seq<PendingEvent>, s: Store.State): seq<PendingEvent> {
    Keep(events, PendingTest(s.pending))
  }

  function Actionable(events: seq<PendingEvent>, s: Store.State, deferred: set<EventId>): seq<PendingEvent> {
    Drop(Listed(events, s), PendingTest(deferred))
  }

  /** Reconciled with the snapshot, and with the write failures of events that are no longer pending
      forgotten. */
  function OpeningBook(book: Book, events: seq<PendingEvent>): Book {
    var s := Store.Reconciled(book.s, Store.IdSet(EventIds(events)));
    var listed := Store.IdSet(EventIds(Listed(events, s)));
    Book(s, book.failCounts - (book.deferred - listed), book.deferred * listed, 0, 0)
  }

  function OpeningWork(book: Book, events: seq<PendingEvent>, limits: BatchLimits, digest: Digest): seq<Batch> {
    var opening := OpeningBook(book, events);
    BatchesOf(Groups(SortEvents(Actionable(events, opening.s, opening.deferred)), FitTest(limits)), digest)
  }

  // ---------------------------------------------------------------- folds over a history

  function BookAfter(book: Book, trace: seq<Attempt>, append: nat -> Store.AppendIo): Book {
    if trace == [] then book
    else PostAll(BookAfter(book, trace[..|trace| - 1], append), PostingsOf(trace[|trace| - 1]), append)
  }

  function BreakerStep(b: Breaker.State, a: Attempt): Breaker.State {
    if Succeeded(a) then Breaker.Recorded(b, a.outcome.result.eventResults) else b
  }

  function BreakerAfter(b: Breaker.State, trace: seq<Attempt>): Breaker.State {
    if trace == [] then b else BreakerStep(BreakerAfter(b, trace[..|trace| - 1]), trace[|trace| - 1])
  }

  /** Consecutive errors of the backend's own; an invalid status counts as the first of a new series. */
  function OuterErrorsStep(count: nat, a: Attempt): nat {
    match a.outcome
    case OuterError => count + 1
    case Completed(result) => if result.status == OtherStatus then 1 else 0
  }

  function OuterErrorsAfter(count: nat, trace: seq<Attempt>): nat {
    if trace == [] then count else OuterErrorsStep(OuterErrorsAfter(count, trace[..|trace| - 1]), trace[|trace| - 1])
  }

  predicate IsCancelled(a: Attempt) {
    a.outcome.Completed? && a.outcome.result.status == Failed && a.outcome.result.error == Canceled
  }

  /** Why the flush ends right after this attempt, if it does. */
  function EndsWith(b: Breaker.State, count: nat, a: Attempt): Option<StopReason> {
    if a.outcome.OuterError? && count + 1 >= OUTER_ERROR_LIMIT then Some(InternalErrorLimit)
    else if Succeeded(a) && Breaker.Trips(b, a.outcome.result.eventResults) then Some(UnknownStreak)
    else if IsCancelled(a) then Some(Stopped)
    else None
  }

  /** Why the flush ends right after the last attempt of the history, if it does. */
  function EndsAfter(b: Breaker.State, count: nat, trace: seq<Attempt>): Option<StopReason>
    requires trace != []
  {
    var before := trace[..|trace| - 1];
    EndsWith(BreakerAfter(b, before), OuterErrorsAfter(count, before), trace[|trace| - 1])
  }

  /** Attempt i was made because the loop head let it, and the flush went on after it. */
  ghost predicate WentOn(b: Breaker.State, count: nat, trace: seq<Attempt>, env: Env, i: nat)
    requires i < |trace|
  {
    env.head(i) == Proceed && EndsAfter(b, count, trace[..i + 1]).None?
  }

  /** Attempt i is what the environment and the coordinator make of its batch. */
  ghost predicate Genuine(a: Attempt, i: nat, env: Env, digest: Digest) {
    a.outcome == env.run(i, a.batch) && a.retries == RetriesFor(a.batch, a.outcome, digest)
  }

  /** The flush went through these attempts and is at the head of its loop again. */
  ghost predicate AtHead(
      work: seq<Batch>, trace: seq<Attempt>, env: Env, digest: Digest, b: Breaker.State, count: nat) {
    && Follows(work, trace)
    && (forall i :: 0 <= i < |trace| ==> Genuine(trace[i], i, env, digest))
    && AllWentOn(b, count, trace, env)
  }

  /** The flush went through these attempts and stopped for the reason. */
  ghost predicate Ended(
      work: seq<Batch>, trace: seq<Attempt>, env: Env, digest: Digest, b: Breaker.State, count: nat,
      reason: StopReason) {
    if trace != [] && EndsAfter(b, count, trace).Some? then
      && EndsAfter(b, count, trace) == Some(reason)
      && Follows(work, trace) && Genuine(trace[|trace| - 1], |trace| - 1, env, digest)
      && env.head(|trace| - 1) == Proceed
      && AtHead(work, trace[..|trace| - 1], env, digest, b, count)
    else
      && AtHead(work, trace, env, digest, b, count)
      && match reason
         case RanToCompletion => Left(work, trace) == []
         case EnvelopeTimeout => Left(work, trace) != [] && env.head(|trace|) == EnvelopeOver
         case Stopped => Left(work, trace) != [] && env.head(|trace|) == StopRequested
         case _ => false
  }

  ghost predicate BroughtStale(trace: seq<Attempt>) {
    exists i :: 0 <= i < |trace| && Succeeded(trace[i]) && trace[i].outcome.result.indexStale
  }

  /** The counters of the result are those of the history. */
  ghost predicate Tallies(result: FlushResult, trace: seq<Attempt>) {
    && result.attempted == |trace|
    && result.succeeded == CountWhere(trace, IsSuccess())
    && result.failed == CountWhere(trace, IsFailure())
    && result.integrated == VerdictTotal(trace, Integrated)
    && result.skipped == VerdictTotal(trace, Skipped)
    && result.eventsFailed == FailedTotal(trace)
    && result.unknown == VerdictTotal(trace, Unknown)
    && (result.indexStale <==> BroughtStale(trace))
  }

  /** The counters after one more attempt. */
  function WithAttempt(result: FlushResult, a: Attempt): FlushResult {
    if Succeeded(a) then WithVerdicts(result, a.outcome.result)
    else
      result.(
        attempted := result.attempted + 1,
        failed := result.failed + 1,
        eventsFailed := result.eventsFailed + if FailedForGood(a) then |a.batch.events| else 0)
  }

  function WithVerdicts(result: FlushResult, success: BatchResult): FlushResult {
    var results := success.eventResults;
    result.(
      attempted := result.attempted + 1,
      succeeded := result.succeeded + 1,
      integrated := result.integrated + Breaker.CountOf(results, Integrated),
      skipped := result.skipped + Breaker.CountOf(results, Skipped),
      eventsFailed := result.eventsFailed + Breaker.CountOf(results, FailedByAgent),
      unknown := result.unknown + Breaker.CountOf(results, Unknown),
      indexStale := result.indexStale || success.indexStale)
  }

  lemma TalliesNext(result: FlushResult, trace: seq<Attempt>, a: Attempt)
    requires Tallies(result, trace)
    ensures Tallies(WithAttempt(result, a), trace + [a])
  {
    var longer := trace + [a];
    assert longer[..|trace|] == trace && longer[|trace|] == a;
    assert BroughtStale(longer) <==> BroughtStale(trace) || (Succeeded(a) && a.outcome.result.indexStale) by {
      if BroughtStale(trace) {
        var i :| 0 <= i < |trace| && Succeeded(trace[i]) && trace[i].outcome.result.indexStale;
        assert longer[i] == trace[i];
      }
    }
    FailedTotalNext(trace, a);
  }

  lemma FailedTotalNext(trace: seq<Attempt>, a: Attempt)
    ensures FailedTotal(trace + [a]) == FailedTotal(trace)
      + Breaker.CountOf(if Succeeded(a) then a.outcome.result.eventResults else [], FailedByAgent)
      + if FailedForGood(a) then |a.batch.events| else 0
  {
    assert (trace + [a])[..|trace|] == trace;
  }

  // ---------------------------------------------------------------- one more attempt

  lemma FoldsNext(
      trace: seq<Attempt>, a: Attempt, b: Breaker.State, count: nat, book: Book, append: nat -> Store.AppendIo)
    ensures
      var longer := trace + [a];
      && BreakerAfter(b, longer) == BreakerStep(BreakerAfter(b, trace), a)
      && OuterErrorsAfter(count, longer) == OuterErrorsStep(OuterErrorsAfter(count, trace), a)
      && BookAfter(book, longer, append) == PostAll(BookAfter(book, trace, append), PostingsOf(a), append)
      && EndsAfter(b, count, longer) == EndsWith(BreakerAfter(b, trace), OuterErrorsAfter(count, trace), a)
  {
    assert (trace + [a])[..|trace|] == trace;
  }

  lemma FollowsNext(work: seq<Batch>, trace: seq<Attempt>, a: Attempt)
    requires Follows(work, trace) && WellSplit(a) && Left(work, trace) != [] && a.batch == Left(work, trace)[0]
    ensures Follows(work, trace + [a])
    ensures Left(work, trace + [a]) == a.retries + Left(work, trace)[1..]
  {
    var longer := trace + [a];
    assert longer[..|trace|] == trace;
    forall i | 0 <= i < |longer|
      ensures WellSplit(longer[i]) && Left(work, longer[..i]) != [] && longer[i].batch == Left(work, longer[..i])[0]
    {
      if i < |trace| {
        assert longer[..i] == trace[..i];
      }
    }
  }

  lemma GenuineNext(trace: seq<Attempt>, a: Attempt, env: Env, digest: Digest)
    requires forall i :: 0 <= i < |trace| ==> Genuine(trace[i], i, env, digest)
    requires Genuine(a, |trace|, env, digest)
    ensures forall i :: 0 <= i < |trace + [a]| ==> Genuine((trace + [a])[i], i, env, digest)
  {
  }

  ghost predicate AllWentOn(b: Breaker.State, count: nat, trace: seq<Attempt>, env: Env) {
    forall i :: 0 <= i < |trace| ==> WentOn(b, count, trace, env, i)
  }

  lemma WentOnNext(trace: seq<Attempt>, a: Attempt, env: Env, b: Breaker.State, count: nat)
    requires AllWentOn(b, count, trace, env)
    requires env.head(|trace|) == Proceed && EndsAfter(b, count, trace + [a]).None?
    ensures AllWentOn(b, count, trace + [a], env)
  {
    var longer := trace + [a];
    forall i | 0 <= i < |longer| ensures WentOn(b, count, longer, env, i) {
      if i < |trace| {
        assert longer[..i + 1] == trace[..i + 1];
        assert WentOn(b, count, trace, env, i);
      } else {
        assert longer[..i + 1] == longer;
      }
    }
  }

  /** Stopping at the loop head: the batches ran out, or the clock or the stop channel said so. */
  lemma EndsAtHead(
      work: seq<Batch>, trace: seq<Attempt>, env: Env, digest: Digest, b: Breaker.State, count: nat, reason: StopReason)
    requires AtHead(work, trace, env, digest, b, count)
    requires match reason
      case RanToCompletion => Left(work, trace) == []
      case EnvelopeTimeout => Left(work, trace) != [] && env.head(|trace|) == EnvelopeOver
      case Stopped => Left(work, trace) != [] && env.head(|trace|) == StopRequested
      case _ => false
    ensures Ended(work, trace, env, digest, b, count, reason)
  {
    if trace != [] {
      assert trace[..|trace| - 1 + 1] == trace;
      assert WentOn(b, count, trace, env, |trace| - 1);
    }
  }

  /** One more attempt, after which the flush is at the head of its loop again. */
  lemma HistoryGoesOn(
      work: seq<Batch>, trace: seq<Attempt>, a: Attempt, env: Env, digest: Digest, b: Breaker.State, count: nat)
    requires AtHead(work, trace, env, digest, b, count) && Left(work, trace) != [] && a.batch == Left(work, trace)[0]
    requires env.head(|trace|) == Proceed && Genuine(a, |trace|, env, digest)
    requires EndsAfter(b, count, trace + [a]).None?
    ensures AtHead(work, trace + [a], env, digest, b, count)
    ensures Left(work, trace + [a]) == a.retries + Left(work, trace)[1..]
  {
    RetriesForWellSplit(a, digest);
    FollowsNext(work, trace, a);
    GenuineNext(trace, a, env, digest);
    WentOnNext(trace, a, env, b, count);
  }

  /** One more attempt, after which the flush ends. */
  lemma HistoryEnds(
      work: seq<Batch>, trace: seq<Attempt>, a: Attempt, env: Env, digest: Digest, b: Breaker.State, count: nat,
      reason: StopReason)
    requires AtHead(work, trace, env, digest, b, count) && Left(work, trace) != [] && a.batch == Left(work, trace)[0]
    requires env.head(|trace|) == Proceed && Genuine(a, |trace|, env, digest)
    requires EndsAfter(b, count, trace + [a]) == Some(reason)
    ensures Ended(work, trace + [a], env, digest, b, count, reason)
  {
    RetriesForWellSplit(a, digest);
    FollowsNext(work, trace, a);
    assert (trace + [a])[..|trace|] == trace;
  }
}
