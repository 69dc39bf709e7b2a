/** The batch coordinator of `internal/agent/coordinator.go`. Its methods are proved against the history
    of a flush (`Flushing`), the values of the breaker (`Breaker`) and those of the store (`Store`). */
module Coordinator {
  import opened Batching
  import opened Packing
  import opened Verdicts
  import opened Turns
  import opened Splitting
  import opened Schedule
  import opened Flushing
  import Breaker
  import Store

  /** What an admin request comes to; the coordinator refuses to move an event out of the wrong status. */
  datatype AdminOutcome = Moved | EventNotFound | WrongStatus(current: Store.CurrentStatus) | LogWriteFailed

  /** What becomes of the flush timer. */
  datatype TimerAction = ResumeLater | StopTimer

  /** An event that ended unknown or failed can be reset. */
  predicate MayReset(s: Store.State, id: EventId, rawLog: set<EventId>) {
    id in rawLog && id in s.terminal && s.terminal[id].status in {Store.Unknown, Store.Failed}
  }

  /** An event that ended unknown can be confirmed. */
  predicate MayConfirm(s: Store.State, id: EventId, rawLog: set<EventId>) {
    id in rawLog && id in s.terminal && s.terminal[id].status == Store.Unknown
  }

  function ConfirmedEntry(id: EventId): Store.StatusEntry {
    Store.StatusEntry(id, Store.EventStatus(Store.Integrated, "", "operator_confirmed", [], ""))
  }

  class BatchCoordinator {
    const store: Store.PendingEventStore
    const digest: Digest
    const limits: BatchLimits
    var writeFailCounts: map<EventId, nat>
    var deferredSet: set<EventId>
    var unknownStreakStop: Option<Breaker.StreakStop>
    var unknownStreak: nat
    var unknownStreakReasons: multiset<string>
    var unknownStreakTranscripts: seq<string>
    var consecutiveOuterErrors: nat
    var suspended: bool
    var indexStale: bool

    constructor (store: Store.PendingEventStore, digest: Digest, limits: BatchLimits)
      ensures this.store == store && this.digest == digest && this.limits == limits
      ensures writeFailCounts == map[] && deferredSet == {} && consecutiveOuterErrors == 0
      ensures BreakerState() == Breaker.FRESH.b
    {
      this.store, this.digest, this.limits := store, digest, limits;
      writeFailCounts, deferredSet := map[], {};
      unknownStreakStop, unknownStreak, unknownStreakReasons, unknownStreakTranscripts := None, 0, multiset{}, [];
      consecutiveOuterErrors, suspended, indexStale := 0, false, false;
    }

    function BreakerState(): Breaker.State
      reads this
    {
      Breaker.State(suspended, unknownStreakStop, unknownStreak, unknownStreakReasons, unknownStreakTranscripts)
    }

    function BookWith(appends: nat, errors: nat): Book
      reads this, store
    {
      Book(store.Value(), writeFailCounts, deferredSet, appends, errors)
    }

    // -------------------------------------------------------------- explicit recovery

    method NotifyNewEvent(eventID: EventId)
      modifies this`suspended, this`unknownStreakStop, store
      ensures store.Value() == Store.Notified(old(store.Value()), eventID)
      ensures BreakerState() == Breaker.Recovered(old(BreakerState()))
    {
      store.NotifyAppended(eventID);
      suspended := false;
      unknownStreakStop := None;
    }

    /** Only an unknown or failed event can be reset. */
    method ResetEvent(eventID: EventId, rawLog: set<EventId>, io: Store.AppendIo) returns (outcome: AdminOutcome)
      modifies this`suspended, this`unknownStreakStop, store
      ensures outcome == Moved <==>
        && eventID in rawLog && eventID in old(store.terminal)
        && old(store.terminal)[eventID].status in {Store.Unknown, Store.Failed}
        && !eventID.Empty() && io.Done?
      ensures outcome == Moved ==>
        && store.Value() == Store.Tombstoned(old(store.Value()), eventID, io)
        && eventID in store.pendingIDs && eventID !in store.terminal
        && BreakerState() == Breaker.Recovered(old(BreakerState()))
      ensures outcome != Moved ==> BreakerState() == old(BreakerState())
      ensures outcome.LogWriteFailed? ==> store.Value() == Store.Tombstoned(old(store.Value()), eventID, io)
      ensures outcome.EventNotFound? || outcome.WrongStatus? ==> store.Value() == old(store.Value())
      ensures outcome.EventNotFound? || outcome.WrongStatus? <==>
        !MayReset(old(store.Value()), eventID, rawLog)
    {
      var status := store.GetEventStatus(eventID, rawLog);
      if status.NotFound? {
        return EventNotFound;
      }
      if status.Pending? || !(status.outcome.status.Unknown? || status.outcome.status.Failed?) {
        return WrongStatus(status);
      }
      var err := store.WriteTombstone(eventID, io);
      if err != Store.NoError {
        return LogWriteFailed;
      }
      store.NotifyAppended(eventID);
      suspended := false;
      unknownStreakStop := None;
      outcome := Moved;
    }

    /** Only an unknown event can be confirmed; it becomes integrated. */
    method ConfirmEvent(eventID: EventId, rawLog: set<EventId>, io: Store.AppendIo) returns (outcome: AdminOutcome)
      modifies store
      ensures outcome == Moved <==>
        && eventID in rawLog && eventID in old(store.terminal)
        && old(store.terminal)[eventID].status == Store.Unknown
        && !eventID.Empty() && io.Done?
      ensures outcome == Moved ==> eventID in store.terminal && store.terminal[eventID].status == Store.Integrated
      ensures outcome.Moved? || outcome.LogWriteFailed? ==>
        store.Value() == Store.Written(old(store.Value()), [ConfirmedEntry(eventID)], io)
      ensures outcome.EventNotFound? || outcome.WrongStatus? <==>
        !MayConfirm(old(store.Value()), eventID, rawLog)
      ensures outcome.EventNotFound? || outcome.WrongStatus? ==> store.Value() == old(store.Value())
    {
      var status := store.GetEventStatus(eventID, rawLog);
      if status.NotFound? {
        return EventNotFound;
      }
      if status.Pending? || !status.outcome.status.Unknown? {
        return WrongStatus(status);
      }
      var entry := ConfirmedEntry(eventID);
      var err := store.WriteStatuses([entry], io);
      if err != Store.NoError {
        return LogWriteFailed;
      }
      OneEntry(entry);
      outcome := Moved;
    }

    // -------------------------------------------------------------- bookkeeping

    method RecordStatusWriteFailure(eventID: EventId)
      modifies this`writeFailCounts, this`deferredSet
      ensures
        var count := 1 + if eventID in old(writeFailCounts) then old(writeFailCounts)[eventID] else 0;
        && writeFailCounts == old(writeFailCounts)[eventID := count]
        && deferredSet == old(deferredSet) + if count >= WRITE_FAILURE_LIMIT then {eventID} else {}
    {
      var count := if eventID in writeFailCounts then writeFailCounts[eventID] else 0;
      writeFailCounts := writeFailCounts[eventID := count + 1];
      if writeFailCounts[eventID] >= 3 {
        deferredSet := deferredSet + {eventID};
      }
    }

    method ClearStatusWriteFailure(eventID: EventId)
      modifies this`writeFailCounts, this`deferredSet
      ensures writeFailCounts == old(writeFailCounts) - {eventID} && deferredSet == old(deferredSet) - {eventID}
    {
      writeFailCounts := writeFailCounts - {eventID};
      deferredSet := deferredSet - {eventID};
    }

    /** Writes one status and keeps count of the failure, if it is one. */
    method PostStatus(posting: Posting, append: nat -> Store.AppendIo, appends: nat, errors: nat)
      returns (nextAppends: nat, nextErrors: nat)
      modifies this`writeFailCounts, this`deferredSet, store
      ensures BookWith(nextAppends, nextErrors) == PostOne(old(BookWith(appends, errors)), posting, append)
    {
      nextAppends, nextErrors := appends, errors;
      match posting {
        case Unwritable(id) =>
          nextErrors := errors + 1;
          RecordStatusWriteFailure(id);
        case Post(entry) =>
          nextAppends := appends + 1;
          var err := store.WriteStatuses([entry], append(appends));
          OneEntry(entry);
          if err != Store.NoError {
            nextErrors := errors + 1;
            RecordStatusWriteFailure(entry.eventId);
          } else {
            ClearStatusWriteFailure(entry.eventId);
          }
      }
    }

    method PersistEventStatuses(
        results: seq<EventResult>, batchId: string, append: nat -> Store.AppendIo, appends: nat, errors: nat)
      returns (nextAppends: nat, nextErrors: nat)
      modifies this`writeFailCounts, this`deferredSet, store
      ensures BookWith(nextAppends, nextErrors) ==
        PostAll(old(BookWith(appends, errors)), ResultPostings(results, batchId), append)
    {
      nextAppends, nextErrors := appends, errors;
      for index := 0 to |results|
        invariant BookWith(nextAppends, nextErrors) ==
          PostAll(old(BookWith(appends, errors)), ResultPostings(results[..index], batchId), append)
      {
        assert results[..index + 1][..index] == results[..index];
        var posting := PostingOf(results[index], batchId);
        PostAllNext(old(BookWith(appends, errors)), ResultPostings(results[..index], batchId), posting, append);
        nextAppends, nextErrors := PostStatus(posting, append, nextAppends, nextErrors);
      }
      assert results[..|results|] == results;
    }

    /** Every event of a batch that failed for good is posted as failed. */
    method PersistBatchFailure(
        events: seq<PendingEvent>, batchId: string, reason: string, append: nat -> Store.AppendIo, appends: nat,
        errors: nat)
      returns (nextAppends: nat, nextErrors: nat)
      modifies this`writeFailCounts, this`deferredSet, store
      ensures BookWith(nextAppends, nextErrors) ==
        PostAll(old(BookWith(appends, errors)), FailurePostings(events, batchId, reason), append)
    {
      nextAppends, nextErrors := appends, errors;
      for index := 0 to |events|
        invariant BookWith(nextAppends, nextErrors) ==
          PostAll(old(BookWith(appends, errors)), FailurePostings(events[..index], batchId, reason), append)
      {
        assert events[..index + 1][..index] == events[..index];
        var posting := FailurePosting(events[index], batchId, reason);
        PostAllNext(old(BookWith(appends, errors)), FailurePostings(events[..index], batchId, reason), posting, append);
        nextAppends, nextErrors := PostStatus(posting, append, nextAppends, nextErrors);
      }
      assert events[..|events|] == events;
    }

    method CountVerdicts(results: seq<EventResult>)
      returns (integrated: nat, skipped: nat, failedByAgent: nat, unknown: nat)
      ensures integrated == Breaker.CountOf(results, Integrated) && skipped == Breaker.CountOf(results, Skipped)
      ensures failedByAgent == Breaker.CountOf(results, FailedByAgent) && unknown == Breaker.CountOf(results, Unknown)
    {
      integrated, skipped, failedByAgent, unknown := 0, 0, 0, 0;
      for index := 0 to |results|
        invariant integrated == Breaker.CountOf(results[..index], Integrated)
        invariant skipped == Breaker.CountOf(results[..index], Skipped)
        invariant failedByAgent == Breaker.CountOf(results[..index], FailedByAgent)
        invariant unknown == Breaker.CountOf(results[..index], Unknown)
      {
        assert results[..index + 1][..index] == results[..index];
        match results[index].status
        case Integrated => integrated := integrated + 1;
        case Skipped => skipped := skipped + 1;
        case FailedByAgent => failedByAgent := failedByAgent + 1;
        case Unknown => unknown := unknown + 1;
        case Other(_) =>
      }
      assert results[..|results|] == results;
    }

    method AddVerdicts(batchResult: BatchResult, result: FlushResult)
      returns (next: FlushResult, adjudicated: nat, batchUnknown: nat)
      ensures next == WithVerdicts(result, batchResult)
      ensures adjudicated == Breaker.AdjudicatedCount(batchResult.eventResults)
      ensures batchUnknown == Breaker.CountOf(batchResult.eventResults, Unknown)
    {
      var integrated, skipped, failedByAgent, unknown := CountVerdicts(batchResult.eventResults);
      next := result.(
        attempted := result.attempted + 1,
        succeeded := result.succeeded + 1,
        integrated := result.integrated + integrated,
        skipped := result.skipped + skipped,
        eventsFailed := result.eventsFailed + failedByAgent,
        unknown := result.unknown + unknown,
        indexStale := result.indexStale || batchResult.indexStale);
      adjudicated, batchUnknown := integrated + skipped + failedByAgent, unknown;
    }

    method AddUnknownReasons(results: seq<EventResult>)
      modifies this`unknownStreakReasons
      ensures unknownStreakReasons == old(unknownStreakReasons) + Breaker.UnknownReasons(results)
    {
      for index := 0 to |results|
        invariant unknownStreakReasons == old(unknownStreakReasons) + Breaker.UnknownReasons(results[..index])
      {
        assert results[..index + 1][..index] == results[..index];
        if results[index].status == Unknown {
          unknownStreakReasons := unknownStreakReasons + multiset{results[index].reason};
        }
      }
      assert results[..|results|] == results;
    }

    method AddTranscript(results: seq<EventResult>)
      modifies this`unknownStreakTranscripts
      ensures
        var transcript := Breaker.FirstTranscript(results);
        unknownStreakTranscripts ==
          if transcript.Some? then old(unknownStreakTranscripts) + [transcript.value] else old(unknownStreakTranscripts)
    {
      for index := 0 to |results|
        invariant unknownStreakTranscripts == old(unknownStreakTranscripts)
        invariant Breaker.FirstTranscript(results) == Breaker.FirstTranscript(results[index..])
      {
        if results[index].status == Unknown && results[index].transcriptPath != "" {
          unknownStreakTranscripts := unknownStreakTranscripts + [results[index].transcriptPath];
          return;
        }
      }
    }

    method RecordBatchOutcomes(results: seq<EventResult>, adjudicated: nat, batchUnknown: nat) returns (tripped: bool)
      requires adjudicated == Breaker.AdjudicatedCount(results) && batchUnknown == Breaker.CountOf(results, Unknown)
      modifies this`suspended, this`unknownStreakStop, this`unknownStreak, this`unknownStreakReasons,
        this`unknownStreakTranscripts
      ensures BreakerState() == Breaker.Recorded(old(BreakerState()), results)
      ensures tripped <==> Breaker.Trips(old(BreakerState()), results)
    {
      if adjudicated > 0 {
        unknownStreak, unknownStreakReasons, unknownStreakTranscripts := 0, multiset{}, [];
        return false;
      }
      if batchUnknown == 0 {
        return false;
      }
      unknownStreak := unknownStreak + 1;
      AddUnknownReasons(results);
      if |unknownStreakTranscripts| < Breaker.STREAK_LIMIT {
        AddTranscript(results);
      }
      if unknownStreak < Breaker.STREAK_LIMIT {
        return false;
      }
      suspended := true;
      unknownStreakStop := Some(Breaker.StreakStop(unknownStreak, unknownStreakReasons, unknownStreakTranscripts));
      tripped := true;
    }

    method RecordOuterError() returns (count: nat)
      modifies this`consecutiveOuterErrors
      ensures count == consecutiveOuterErrors == old(consecutiveOuterErrors) + 1
    {
      consecutiveOuterErrors := consecutiveOuterErrors + 1;
      count := consecutiveOuterErrors;
    }

    // -------------------------------------------------------------- the flush

    /** `insertBatches`. */
    method InsertBatches(batches: seq<Batch>, index: nat, inserted: seq<Batch>) returns (result: seq<Batch>)
      requires index <= |batches|
      ensures result == batches[..index] + inserted + batches[index..]
      ensures result[index..] == inserted + batches[index..]
    {
      result := batches[..index];
      result := result + inserted;
      result := result + batches[index..];
    }

    method RecordIndexState(stale: bool)
      modifies this`indexStale
      ensures indexStale == stale
    {
      indexStale := stale;
    }

    /** A successful batch: its statuses are written, its verdicts counted, the breaker told. */
    method FinishSuccess(a: Attempt, env: Env, appends: nat, errors: nat, result: FlushResult)
      returns (nextAppends: nat, nextErrors: nat, next: FlushResult, tripped: bool)
      requires Succeeded(a)
      modifies this, store
      ensures unchanged(this`consecutiveOuterErrors)
      ensures BookWith(nextAppends, nextErrors) == PostAll(old(BookWith(appends, errors)), PostingsOf(a), env.append)
      ensures BreakerState() == BreakerStep(old(BreakerState()), a)
      ensures tripped <==> Breaker.Trips(old(BreakerState()), a.outcome.result.eventResults)
      ensures next == WithAttempt(result, a)
    {
      var batchResult := a.outcome.result;
      RecordIndexState(batchResult.indexStale);
      nextAppends, nextErrors := PersistEventStatuses(batchResult.eventResults, a.batch.id, env.append, appends,
        errors);
      var adjudicated, unknown;
      next, adjudicated, unknown := AddVerdicts(batchResult, result);
      tripped := RecordBatchOutcomes(batchResult.eventResults, adjudicated, unknown);
    }

    /** A batch that failed for good: every event in it is written off. */
    method FinishFailure(a: Attempt, env: Env, appends: nat, errors: nat, result: FlushResult)
      returns (nextAppends: nat, nextErrors: nat, next: FlushResult)
      requires a.outcome.Completed? && FailedForGood(a)
      modifies this`writeFailCounts, this`deferredSet, store
      ensures BookWith(nextAppends, nextErrors) == PostAll(old(BookWith(appends, errors)), PostingsOf(a), env.append)
      ensures next == WithAttempt(result, a)
    {
      nextAppends, nextErrors :=
        PersistBatchFailure(a.batch.events, a.batch.id, FailureReason(a.outcome.result), env.append, appends, errors);
      next := result.(
        attempted := result.attempted + 1,
        failed := result.failed + 1,
        eventsFailed := result.eventsFailed + |a.batch.events|);
    }

    /** A failed batch that was not cancelled: split and retried, or written off. */
    method SplitOrFinish(batch: Batch, batchResult: BatchResult, env: Env, appends: nat, errors: nat,
        result: FlushResult)
      returns (retries: seq<Batch>, nextAppends: nat, nextErrors: nat, next: FlushResult)
      requires batchResult.status == Failed && batchResult.error != Canceled
      modifies this`writeFailCounts, this`deferredSet, store
      ensures retries == Retries(batch, batchResult, digest)
      ensures
        var a := Attempt(batch, Completed(batchResult), retries);
        && next == WithAttempt(result, a)
        && BookWith(nextAppends, nextErrors) == PostAll(old(BookWith(appends, errors)), PostingsOf(a), env.append)
    {
      retries := ClassifyAndSplit(batch, batchResult, digest);
      if |retries| > 0 {
        nextAppends, nextErrors := appends, errors;
        next := result.(attempted := result.attempted + 1, failed := result.failed + 1);
      } else {
        nextAppends, nextErrors, next :=
          FinishFailure(Attempt(batch, Completed(batchResult), []), env, appends, errors, result);
      }
    }

    /** One turn of the loop of `flush`, from the backend's answer on. */
    method FinishAttempt(batch: Batch, outcome: RunOutcome, env: Env, appends: nat, errors: nat, result: FlushResult)
      returns (retries: seq<Batch>, nextAppends: nat, nextErrors: nat, next: FlushResult, stop: Option<StopReason>)
      modifies this, store
      ensures retries == RetriesFor(batch, outcome, digest)
      ensures
        var a := Attempt(batch, outcome, retries);
        && next == WithAttempt(result, a)
        && BookWith(nextAppends, nextErrors) == PostAll(old(BookWith(appends, errors)), PostingsOf(a), env.append)
        && BreakerState() == BreakerStep(old(BreakerState()), a)
        && consecutiveOuterErrors == OuterErrorsStep(old(consecutiveOuterErrors), a)
        && stop == EndsWith(old(BreakerState()), old(consecutiveOuterErrors), a)
    {
      retries, nextAppends, nextErrors, stop := [], appends, errors, None;
      next := result.(attempted := result.attempted + 1, failed := result.failed + 1);
      if outcome.OuterError? {
        var count := RecordOuterError();
        if count >= 3 {
          stop := Some(InternalErrorLimit);
        }
        return;
      }
      consecutiveOuterErrors := 0;
      match outcome.result.status {
        case Success =>
          var tripped;
          nextAppends, nextErrors, next, tripped :=
            FinishSuccess(Attempt(batch, outcome, []), env, appends, errors, result);
          if tripped {
            stop := Some(UnknownStreak);
          }
        case Failed =>
          if outcome.result.error == Canceled {
            stop := Some(Stopped);
            return;
          }
          retries, nextAppends, nextErrors, next := SplitOrFinish(batch, outcome.result, env, appends, errors, result);
        case OtherStatus =>
          var count := RecordOuterError();
          if count >= 3 {
            assert false;
          }
      }
    }

    /** One round of the loop: the batch is run, what follows from the outcome is done, and the history is
        one attempt longer. */
    method RunNext(
        batch: Batch, env: Env, appends: nat, errors: nat, result: FlushResult,
        ghost work: seq<Batch>, ghost trace: seq<Attempt>, ghost b: Breaker.State, ghost count: nat, ghost book: Book)
      returns (retries: seq<Batch>, nextAppends: nat, nextErrors: nat, next: FlushResult, stop: Option<StopReason>,
        ghost longer: seq<Attempt>)
      requires AtHead(work, trace, env, digest, b, count) && Left(work, trace) != [] && batch == Left(work, trace)[0]
      requires Tallies(result, trace) && env.head(|trace|) == Proceed
      requires BookWith(appends, errors) == BookAfter(book, trace, env.append)
      requires BreakerState() == BreakerAfter(b, trace)
      requires consecutiveOuterErrors == OuterErrorsAfter(count, trace)
      modifies this, store
      ensures Tallies(next, longer)
      ensures BookWith(nextAppends, nextErrors) == BookAfter(book, longer, env.append)
      ensures BreakerState() == BreakerAfter(b, longer)
      ensures consecutiveOuterErrors == OuterErrorsAfter(count, longer)
      ensures Left(work, longer) == retries + Left(work, trace)[1..]
      ensures TotalWeight(Left(work, longer)) < TotalWeight(Left(work, trace))
      ensures stop.None? ==> AtHead(work, longer, env, digest, b, count)
      ensures stop.Some? ==> stop.value != RanToCompletion && Ended(work, longer, env, digest, b, count, stop.value)
    {
      var outcome := env.run(result.attempted, batch);
      ghost var a := Attempt(batch, outcome, RetriesFor(batch, outcome, digest));
      AttemptFacts(work, trace, a, env, digest, b, count);
      FoldsNext(trace, a, b, count, book, env.append);
      TalliesNext(result, trace, a);
      retries, nextAppends, nextErrors, next, stop := FinishAttempt(batch, outcome, env, appends, errors, result);
      longer := trace + [a];
    }

    /** The loop of `flush` over the batches it formed. */
    method RunBatches(work: seq<Batch>, env: Env) returns (result: FlushResult, appends: nat, ghost trace: seq<Attempt>)
      modifies this, store
      ensures Ended(work, trace, env, digest, old(BreakerState()), old(consecutiveOuterErrors), result.stopped)
      ensures Tallies(result, trace)
      ensures BookWith(appends, result.statusWriteErrors) == BookAfter(old(BookWith(0, 0)), trace, env.append)
      ensures BreakerState() == BreakerAfter(old(BreakerState()), trace)
      ensures consecutiveOuterErrors == OuterErrorsAfter(old(consecutiveOuterErrors), trace)
      ensures result.remaining == |store.pendingIDs|
    {
      ghost var b, count, book := BreakerState(), consecutiveOuterErrors, BookWith(0, 0);
      result, appends, trace := EMPTY_RESULT, 0, [];
      var errors, stopped, batches, index := 0, RanToCompletion, work, 0;
      while index < |batches|
        invariant 0 <= index <= |batches| && batches[index..] == Left(work, trace)
        invariant AtHead(work, trace, env, digest, b, count)
        invariant Tallies(result, trace) && stopped == RanToCompletion
        invariant BookWith(appends, errors) == BookAfter(book, trace, env.append)
        invariant BreakerState() == BreakerAfter(b, trace)
        invariant consecutiveOuterErrors == OuterErrorsAfter(count, trace)
        decreases TotalWeight(batches[index..])
      {
        var batch := batches[index];
        var head := env.head(result.attempted);
        if head != Proceed {
          stopped := if head == EnvelopeOver then EnvelopeTimeout else Stopped;
          EndsAtHead(work, trace, env, digest, b, count, stopped);
          break;
        }
        var retries, stop;
        retries, appends, errors, result, stop, trace :=
          RunNext(batch, env, appends, errors, result, work, trace, b, count, book);
        if stop.Some? {
          stopped := stop.value;
          break;
        }
        batches := InsertBatches(batches, index + 1, retries);
        index := index + 1;
      }
      if stopped == RanToCompletion {
        EndsAtHead(work, trace, env, digest, b, count, RanToCompletion);
      }
      result := result.(stopped := stopped, statusWriteErrors := errors, remaining := |store.pendingIDs|);
    }

    method FilterEvents(events: seq<PendingEvent>, test: PendingEvent -> bool, keep: bool)
      returns (filtered: seq<PendingEvent>)
      ensures filtered == if keep then Keep(events, test) else Drop(events, test)
    {
      filtered := [];
      for index := 0 to |events|
        invariant filtered == if keep then Keep(events[..index], test) else Drop(events[..index], test)
      {
        assert events[..index + 1][..index] == events[..index];
        if test(events[index]) == keep {
          filtered := filtered + [events[index]];
        }
      }
      assert events[..|events|] == events;
    }

    /** Lists the pending events, forgets write failures of the others, and leaves out the deferred ones. */
    method PrepareFlush(events: seq<PendingEvent>) returns (filtered: seq<PendingEvent>, listed: nat)
      modifies this`writeFailCounts, this`deferredSet, store
      ensures BookWith(0, 0) == OpeningBook(old(BookWith(0, 0)), events)
      ensures filtered == Actionable(events, store.Value(), deferredSet)
      ensures listed == |Listed(events, store.Value())|
    {
      store.ReconcilePending(EventIds(events));
      var pending := FilterEvents(events, PendingTest(store.pendingIDs), true);
      var pendingSet := Store.IdSet(EventIds(pending));
      writeFailCounts := writeFailCounts - (deferredSet - pendingSet);
      deferredSet := deferredSet * pendingSet;
      filtered := FilterEvents(pending, PendingTest(deferredSet), false);
      listed := |pending|;
    }

    method FormWork(events: seq<PendingEvent>) returns (batches: seq<Batch>, listed: nat)
      requires limits.Positive()
      modifies this`writeFailCounts, this`deferredSet, store
      ensures BookWith(0, 0) == OpeningBook(old(BookWith(0, 0)), events)
      ensures batches == OpeningWork(old(BookWith(0, 0)), events, limits, digest)
      ensures BreakerState() == old(BreakerState()) && consecutiveOuterErrors == old(consecutiveOuterErrors)
    {
      var filtered;
      filtered, listed := PrepareFlush(events);
      batches := FormBatches(filtered, limits, digest);
    }

    /** An automatic flush does not start while the coordinator is suspended. */
    method StartFlush(explicit: bool) returns (started: bool)
      modifies this`suspended, this`unknownStreakStop
      ensures started <==> Breaker.MayStart(old(BreakerState()), explicit)
      ensures BreakerState() == if started then Breaker.Started(old(BreakerState()), explicit) else old(BreakerState())
      ensures BookWith(0, 0) == old(BookWith(0, 0)) && consecutiveOuterErrors == old(consecutiveOuterErrors)
    {
      if suspended && !explicit {
        return false;
      }
      suspended := false;
      if explicit {
        unknownStreakStop := None;
      }
      started := true;
    }

    /** `flush`. `events` is the snapshot of the raw log, and `readable` whether it could be read. */
    method Flush(explicit: bool, events: seq<PendingEvent>, readable: bool, env: Env)
      returns (result: FlushResult, appends: nat, ghost work: seq<Batch>, ghost trace: seq<Attempt>)
      requires limits.Positive()
      modifies this, store
      ensures !Breaker.MayStart(old(BreakerState()), explicit) ==>
        && result == EMPTY_RESULT.(stopped := Stopped, remaining := -1)
        && BreakerState() == old(BreakerState()) && store.Value() == old(store.Value()) && trace == []
      ensures Breaker.MayStart(old(BreakerState()), explicit) && !readable ==>
        && result == EMPTY_RESULT.(stopped := StoreError, remaining := -1)
        && BreakerState() == Breaker.Started(old(BreakerState()), explicit)
        && store.Value() == old(store.Value()) && trace == []
      ensures Breaker.MayStart(old(BreakerState()), explicit) && readable ==>
        var b := Breaker.Started(old(BreakerState()), explicit);
        && work == OpeningWork(old(BookWith(0, 0)), events, limits, digest)
        && Ended(work, trace, env, digest, b, old(consecutiveOuterErrors), result.stopped)
        && Tallies(result, trace)
        && BookWith(appends, result.statusWriteErrors) ==
             BookAfter(OpeningBook(old(BookWith(0, 0)), events), trace, env.append)
        && BreakerState() == BreakerAfter(b, trace)
        && (work != [] ==> result.remaining == |store.pendingIDs|)
    {
      result, appends, work, trace := EMPTY_RESULT, 0, [], [];
      var started := StartFlush(explicit);
      if !started {
        result := result.(stopped := Stopped, remaining := -1);
        return;
      }
      if !readable {
        result := result.(stopped := StoreError, remaining := -1);
        return;
      }
      var batches, listed := FormWork(events);
      work := batches;
      result, appends, trace := RunBatches(batches, env);
      if |batches| == 0 {
        result := result.(remaining := listed);
      }
    }

    /** `scheduleNext`: a flush that stopped for one of the suspending reasons suspends; while suspended the
        timer is off, and otherwise it is set again exactly when more events are pending than deferred, or
        the pending events cannot be counted. */
    method ScheduleNext(result: FlushResult, counted: bool) returns (timer: TimerAction)
      modifies this`suspended
      ensures BreakerState() == Breaker.Scheduled(
        old(BreakerState()), result.stopped in {InternalErrorLimit, StoreError, UnknownStreak})
      ensures timer == ResumeLater <==> !suspended && (!counted || |store.pendingIDs| > |deferredSet|)
    {
      var deferredCount := |deferredSet|;
      if result.stopped == InternalErrorLimit || result.stopped == StoreError || result.stopped == UnknownStreak {
        suspended := true;
      }
      if suspended {
        return StopTimer;
      }
      if !counted {
        return ResumeLater;
      }
      var pendingCount := |store.pendingIDs|;
      if deferredCount > pendingCount {
        deferredCount := pendingCount;
      }
      timer := if pendingCount - deferredCount > 0 then ResumeLater else StopTimer;
    }
  }

  lemma OneEntry(entry: Store.StatusEntry)
    ensures (forall e <- [entry] :: Store.Writable(e)) <==> Store.Writable(entry)
    ensures Store.NormalizeAll([entry]) == [Store.Normalize(entry)]
    ensures forall s: Store.State ::
      Store.WithEntries(s, [Store.Normalize(entry)]) == Store.WithEntry(s, Store.Normalize(entry))
  {
    assert entry in [entry];
    var one := [Store.Normalize(entry)];
    assert one[..0] == [];
  }

  /** All that one more attempt does to the history of a flush. */
  lemma AttemptFacts(
      work: seq<Batch>, trace: seq<Attempt>, a: Attempt, env: Env, digest: Digest,
      b: Breaker.State, count: nat)
    requires AtHead(work, trace, env, digest, b, count) && Left(work, trace) != [] && a.batch == Left(work, trace)[0]
    requires env.head(|trace|) == Proceed && Genuine(a, |trace|, env, digest)
    ensures
      var longer := trace + [a];
      && Left(work, longer) == a.retries + Left(work, trace)[1..]
      && TotalWeight(Left(work, longer)) < TotalWeight(Left(work, trace))
      && match EndsAfter(b, count, longer)
         case None => AtHead(work, longer, env, digest, b, count)
         case Some(reason) => Ended(work, longer, env, digest, b, count, reason)
  {
    RetriesForWellSplit(a, digest);
    AttemptUsesWeight(Left(work, trace), a);
    FollowsNext(work, trace, a);
    if EndsAfter(b, count, trace + [a]).None? {
      HistoryGoesOn(work, trace, a, env, digest, b, count);
    } else {
      HistoryEnds(work, trace, a, env, digest, b, count, EndsAfter(b, count, trace + [a]).value);
    }
  }
}
