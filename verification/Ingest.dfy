/** One batch turn of the backend, end to end (`internal/agent/backend_acp.go`). */
module Ingest {
  import opened Batching
  import opened Verdicts
  import opened Turns
  import opened Wiki
  import opened Validator
  import opened WikiRuns
  import opened Commits
  import opened Schedule

  /** What the world does to one call: the context ends while the call waits for the mutex, the turn
      breaks before it can commit, or the agent leaves a staging tree and a summary. */
  datatype TurnPlan =
    | GaveUp(cause: Failure)
    | Broken(cause: Failure)
    | Staged(staging: Option<Tree>, summary: string, transcript: string, io: MergeIo, mergeError: Failure,
             indexTexts: seq<Option<string>>, rootWritten: bool)

  class WikiMutex {
    var held: bool
    ghost var locks: nat
    ghost var unlocks: nat

    constructor ()
      ensures !held && locks == unlocks == 0
    {
      held, locks, unlocks := false, 0, 0;
    }

    method Lock()
      requires !held
      modifies this
      ensures held && locks == old(locks) + 1 && unlocks == old(unlocks)
    {
      held, locks := true, locks + 1;
    }

    method Unlock()
      requires held
      modifies this
      ensures !held && locks == old(locks) && unlocks == old(unlocks) + 1
    {
      held, unlocks := false, unlocks + 1;
    }
  }

  /** The status of a batch that did not make it. */
  function FailedBatch(summary: string, violations: seq<Violation>, error: Failure): BatchResult {
    BatchResult(Failed, [], summary, violations, false, error)
  }

  /** The call failed: it reports no verdict, and production is what it was, but for a merge that failed
      so far that even putting the old tree back failed. */
  ghost predicate LeftAlone(result: BatchResult, before: Option<Tree>, after: Option<Tree>, backup: Option<Tree>) {
    && result.status == Failed && result.eventResults == [] && !result.indexStale
    && (after == before || (after.None? && backup == before && result.error != NoFailure))
  }

  lemma {:induction false} IdsAt(events: seq<PendingEvent>, i: nat)
    requires i < |events|
    ensures |Ids(events)| == |events| && Ids(events)[i] == events[i].id
  {
    if i < |events| - 1 {
      IdsAt(events[..|events| - 1], i);
    } else if |events| > 1 {
      IdsAt(events[..|events| - 1], 0);
    }
  }

  /** Every verdict of a parsed summary is complete. */
  lemma ParsedIsComplete(batch: Batch, summary: string, transcript: string, results: seq<EventResult>)
    requires |results| == |Ids(batch.events)|
    requires forall i :: 0 <= i < |results| ==>
      results[i] == ResultFor(Ids(batch.events)[i], Ids(batch.events), summary, transcript)
    ensures |results| == |batch.events|
    ensures forall i :: 0 <= i < |results| ==> results[i].eventId == batch.events[i].id && !results[i].status.Other?
  {
    if batch.events != [] {
      IdsAt(batch.events, 0);
    }
    forall i | 0 <= i < |results| ensures results[i].eventId == batch.events[i].id && !results[i].status.Other? {
      IdsAt(batch.events, i);
      ResultsAreComplete(Ids(batch.events)[i], Ids(batch.events), summary, transcript);
    }
  }

  /** The mutex is given back on every path. A success has merged what the gate accepted, rebuilt only the
      index pages, and reports one adjudication per event, in batch order; on any other path nothing is
      reported about the events and production is left alone. */
  method RunBatchIngest(
      store: ProductionStore, mutex: WikiMutex, batch: Batch, wired: bool, plan: TurnPlan, stopping: bool)
    returns (outcome: RunOutcome)
    requires store.Valid() && !mutex.held
    requires plan.Staged? ==> |plan.indexTexts| == INDEX_PAGES
    requires (plan.GaveUp? || plan.Broken? ==> plan.cause != NoFailure)
      && (plan.Staged? ==> plan.mergeError != NoFailure)
    modifies store, mutex
    ensures store.Valid() && !mutex.held
    ensures mutex.locks - old(mutex.locks) == mutex.unlocks - old(mutex.unlocks) ==
      if wired && !plan.GaveUp? then 1 else 0
    ensures outcome.OuterError? <==> !wired
    ensures outcome.OuterError? ==> store.wiki == old(store.wiki)
    ensures outcome.Completed? && outcome.result.status != Success ==>
      LeftAlone(outcome.result, old(store.wiki), store.wiki, store.backup)
    ensures outcome.Completed? && plan.Staged? ==>
      (outcome.result.violations != [] <==>
        !Acceptable(old(store.wiki), plan.staging, OptionsOf(BatchTurn), store.validator.maxDiffBytes))
    ensures outcome.Completed? && outcome.result.status == Success ==>
      && plan.Staged? && Acceptable(old(store.wiki), plan.staging, OptionsOf(BatchTurn), store.validator.maxDiffBytes)
      && store.wiki == RebuiltWiki(Merged(old(store.wiki), plan.staging), plan.indexTexts)
      && IndexesRewritten(Files(Merged(old(store.wiki), plan.staging)), Files(store.wiki))
      && (outcome.result.indexStale <==> !plan.rootWritten)
      && |outcome.result.eventResults| == |batch.events|
      && forall i :: 0 <= i < |batch.events| ==>
           outcome.result.eventResults[i].eventId == batch.events[i].id && !outcome.result.eventResults[i].status.Other?
    ensures outcome.Completed? && plan.Staged? && outcome.result.violations == [] && Succeeds(plan.io) ==>
      outcome.result.status == Success
    ensures wired && !plan.Staged? ==>
      outcome.result.error == if plan.Broken? && stopping then Canceled else plan.cause
  {
    if !wired {
      return OuterError;
    }
    if plan.GaveUp? {
      return Completed(FailedBatch("", [], plan.cause));
    }
    mutex.Lock();
    if plan.Broken? {
      mutex.Unlock();
      return Completed(FailedBatch("", [], if stopping then Canceled else plan.cause));
    }
    var committed := store.CommitStagingTurn(plan.staging, OptionsOf(BatchTurn), true, false, plan.io);
    if committed == MergeError {
      mutex.Unlock();
      return Completed(FailedBatch("", [], if stopping then Canceled else plan.mergeError));
    }
    if committed.Rejected? {
      mutex.Unlock();
      return Completed(FailedBatch(plan.summary, committed.violations, NoFailure));
    }
    var rebuilt := store.RebuildIndex(plan.indexTexts, plan.rootWritten);
    mutex.Unlock();
    var results := ParseEventResults(Ids(batch.events), plan.summary, plan.transcript);
    ParsedIsComplete(batch, plan.summary, plan.transcript, results);
    return Completed(BatchResult(Success, results, plan.summary, [], !rebuilt, NoFailure));
  }
}
