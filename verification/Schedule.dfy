/** The work list of a flush as a history of attempts, and the laws that every history obeys. */
module Schedule {
  import opened Batching
  import opened Verdicts
  import opened Turns
  import opened Splitting
  import Breaker

  /** One batch handed to the backend, what came back, and the batches put in front of the rest. */
  datatype Attempt = Attempt(batch: Batch, outcome: RunOutcome, retries: seq<Batch>)

  /** What becomes of the events of an attempt: a verdict was reached, they were dropped and stay pending,
      or they are tried again in smaller batches. */
  datatype Fate = Finished | Dropped | Retried

  function FateOf(a: Attempt): Fate {
    match a.outcome
    case OuterError => Dropped
    case Completed(result) =>
      match result.status
      case Success => Finished
      case OtherStatus => Dropped
      case Failed =>
        if result.error == Canceled then Dropped else if a.retries != [] then Retried else Finished
  }

  predicate Succeeded(a: Attempt) {
    a.outcome.Completed? && a.outcome.result.status == Success
  }

  predicate FailedForGood(a: Attempt) {
    FateOf(a) == Finished && !Succeeded(a)
  }

  /** The batches not yet tried after a history of attempts on the work list. */
  function Left(work: seq<Batch>, trace: seq<Attempt>): seq<Batch> {
    if trace == [] then work
    else
      var before := Left(work, trace[..|trace| - 1]);
      if before == [] then [] else trace[|trace| - 1].retries + before[1..]
  }

  /** Retries come from a failed batch only, and share out its events. */
  ghost predicate WellSplit(a: Attempt) {
    a.retries != [] ==>
      FateOf(a) == Retried && a.batch.depth < MAX_DEPTH && ShareOut(a.retries, a.batch.events, a.batch.depth)
  }

  /** What the coordinator puts in front of the rest after an outcome. */
  function RetriesFor(batch: Batch, outcome: RunOutcome, digest: Digest): seq<Batch> {
    if outcome.Completed? && outcome.result.status == Failed && outcome.result.error != Canceled
    then Retries(batch, outcome.result, digest)
    else []
  }

  lemma RetriesForWellSplit(a: Attempt, digest: Digest)
    requires a.retries == RetriesFor(a.batch, a.outcome, digest)
    ensures WellSplit(a)
  {
    if a.retries != [] {
      RetriesShareOut(a.batch, a.outcome.result, digest);
    }
  }

  /** Every attempt takes the first batch of what is left. */
  ghost predicate Follows(work: seq<Batch>, trace: seq<Attempt>) {
    forall i :: 0 <= i < |trace| ==>
      WellSplit(trace[i]) && Left(work, trace[..i]) != [] && trace[i].batch == Left(work, trace[..i])[0]
  }

  lemma FollowsPrefix(work: seq<Batch>, trace: seq<Attempt>, n: nat)
    requires Follows(work, trace) && n <= |trace|
    ensures Follows(work, trace[..n])
  {
    forall i | 0 <= i < n
      ensures WellSplit(trace[..n][i]) && Left(work, trace[..n][..i]) != []
      ensures trace[..n][i].batch == Left(work, trace[..n][..i])[0]
    {
      assert trace[..n][..i] == trace[..i];
    }
  }

  /** The last attempt of a history, taken apart. */
  lemma LastAttempt(work: seq<Batch>, trace: seq<Attempt>)
    requires Follows(work, trace) && trace != []
    ensures
      var before, last := trace[..|trace| - 1], trace[|trace| - 1];
      && Follows(work, before) && Left(work, before) != [] && last.batch == Left(work, before)[0] && WellSplit(last)
      && Left(work, trace) == last.retries + Left(work, before)[1..]
  {
    FollowsPrefix(work, trace, |trace| - 1);
  }

  // ---------------------------------------------------------------- sums over batches and attempts

  function EventsOf(batches: seq<Batch>): multiset<PendingEvent> {
    if batches == [] then multiset{} else multiset(batches[0].events) + EventsOf(batches[1..])
  }

  lemma {:induction false} EventsOfConcat(a: seq<Batch>, b: seq<Batch>)
    ensures EventsOf(a + b) == EventsOf(a) + EventsOf(b)
  {
    if a == [] {
      assert a + b == b;
    } else {
      assert (a + b)[1..] == a[1..] + b;
      EventsOfConcat(a[1..], b);
    }
  }

  /** The events of the attempts that the test picks. */
  function EventsWhere(trace: seq<Attempt>, test: Attempt -> bool): multiset<PendingEvent> {
    if trace == [] then multiset{}
    else
      EventsWhere(trace[..|trace| - 1], test) +
      if test(trace[|trace| - 1]) then multiset(trace[|trace| - 1].batch.events) else multiset{}
  }

  function CountWhere(trace: seq<Attempt>, test: Attempt -> bool): nat {
    if trace == [] then 0
    else CountWhere(trace[..|trace| - 1], test) + if test(trace[|trace| - 1]) then 1 else 0
  }

  function IsFinished(): Attempt -> bool { (a: Attempt) => FateOf(a) == Finished }

  function IsDropped(): Attempt -> bool { (a: Attempt) => FateOf(a) == Dropped }

  function IsSuccess(): Attempt -> bool { (a: Attempt) => Succeeded(a) }

  function IsFailure(): Attempt -> bool { (a: Attempt) => !Succeeded(a) }

  function IsFailedForGood(): Attempt -> bool { (a: Attempt) => FailedForGood(a) }

  // ---------------------------------------------------------------- conservation

  lemma RetriesHold(a: Attempt)
    requires WellSplit(a)
    ensures EventsOf(a.retries) == if FateOf(a) == Retried then multiset(a.batch.events) else multiset{}
  {
    if a.retries != [] {
      assert a.retries == [a.retries[0], a.retries[1]];
      assert EventsOf([a.retries[1]]) == multiset(a.retries[1].events);
    }
  }

  lemma AttemptMovesEvents(left: seq<Batch>, a: Attempt)
    requires left != [] && a.batch == left[0] && WellSplit(a)
    ensures EventsOf(left) ==
      EventsOf(a.retries + left[1..]) + if FateOf(a) == Retried then multiset{} else multiset(a.batch.events)
  {
    RetriesHold(a);
    EventsOfConcat(a.retries, left[1..]);
  }

  lemma KeepsTotal<T>(
      all: multiset<T>, finished: multiset<T>, dropped: multiset<T>, left: multiset<T>,
      moreFinished: multiset<T>, moreDropped: multiset<T>, next: multiset<T>)
    requires all == finished + dropped + left && left == next + moreFinished + moreDropped
    ensures all == (finished + moreFinished) + (dropped + moreDropped) + next
  {
  }

  /** One more attempt keeps the account. */
  lemma ConservedStep(work: seq<Batch>, before: seq<Attempt>, last: Attempt)
    requires Left(work, before) != [] && last.batch == Left(work, before)[0] && WellSplit(last)
    requires EventsOf(work) ==
      EventsWhere(before, IsFinished()) + EventsWhere(before, IsDropped()) + EventsOf(Left(work, before))
    ensures
      var events, none := multiset(last.batch.events), multiset{};
      EventsOf(work) ==
        (EventsWhere(before, IsFinished()) + if FateOf(last) == Finished then events else none) +
        (EventsWhere(before, IsDropped()) + if FateOf(last) == Dropped then events else none) +
        EventsOf(last.retries + Left(work, before)[1..])
  {
    var events, none := multiset(last.batch.events), multiset{};
    AttemptMovesEvents(Left(work, before), last);
    KeepsTotal(
      EventsOf(work), EventsWhere(before, IsFinished()), EventsWhere(before, IsDropped()), EventsOf(Left(work, before)),
      if FateOf(last) == Finished then events else none, if FateOf(last) == Dropped then events else none,
      EventsOf(last.retries + Left(work, before)[1..]));
  }

  lemma WhereLast(trace: seq<Attempt>, test: Attempt -> bool)
    requires trace != []
    ensures
      var last := trace[|trace| - 1];
      EventsWhere(trace, test) ==
        EventsWhere(trace[..|trace| - 1], test) + if test(last) then multiset(last.batch.events) else multiset{}
  {
  }

  /** At every point of a flush the events it started with are exactly those in finished batches, in
      dropped batches and in batches not yet run, splits included. */
  lemma {:induction false} EventsConserved(work: seq<Batch>, trace: seq<Attempt>)
    requires Follows(work, trace)
    ensures EventsOf(work) ==
      EventsWhere(trace, IsFinished()) + EventsWhere(trace, IsDropped()) + EventsOf(Left(work, trace))
  {
    if trace != [] {
      LastAttempt(work, trace);
      EventsConserved(work, trace[..|trace| - 1]);
      ConservedStep(work, trace[..|trace| - 1], trace[|trace| - 1]);
      WhereLast(trace, IsFinished());
      WhereLast(trace, IsDropped());
    }
  }

  // ---------------------------------------------------------------- termination

  /** How many attempts a batch can still cause: itself, its halves and their halves. */
  function Weight(batch: Batch): nat {
    if batch.depth == 0 then 7 else if batch.depth == 1 then 3 else 1
  }

  function TotalWeight(batches: seq<Batch>): nat {
    if batches == [] then 0 else Weight(batches[0]) + TotalWeight(batches[1..])
  }

  lemma {:induction false} TotalWeightConcat(a: seq<Batch>, b: seq<Batch>)
    ensures TotalWeight(a + b) == TotalWeight(a) + TotalWeight(b)
  {
    if a == [] {
      assert a + b == b;
    } else {
      assert (a + b)[1..] == a[1..] + b;
      TotalWeightConcat(a[1..], b);
    }
  }

  /** Taking the first batch and putting its retries in front uses up weight. */
  lemma AttemptUsesWeight(left: seq<Batch>, a: Attempt)
    requires left != [] && a.batch == left[0] && WellSplit(a)
    ensures TotalWeight(a.retries + left[1..]) < TotalWeight(left)
  {
    TotalWeightConcat(a.retries, left[1..]);
    if a.retries != [] {
      assert a.retries == [a.retries[0], a.retries[1]];
    }
  }

  lemma {:induction false} AttemptsBounded(work: seq<Batch>, trace: seq<Attempt>)
    requires Follows(work, trace)
    ensures |trace| + TotalWeight(Left(work, trace)) <= TotalWeight(work)
  {
    if trace != [] {
      var before := trace[..|trace| - 1];
      FollowsPrefix(work, trace, |before|);
      AttemptsBounded(work, before);
      AttemptUsesWeight(Left(work, before), trace[|trace| - 1]);
    }
  }

  lemma {:induction false} FreshWeight(work: seq<Batch>)
    requires forall b <- work :: b.depth == 0
    ensures TotalWeight(work) == 7 * |work|
  {
    if work != [] {
      FreshWeight(work[1..]);
    }
  }

  /** A flush makes at most seven attempts per batch it formed. */
  lemma SevenAttemptsPerBatch(work: seq<Batch>, trace: seq<Attempt>)
    requires Follows(work, trace) && forall b <- work :: b.depth == 0
    ensures |trace| <= 7 * |work|
  {
    AttemptsBounded(work, trace);
    FreshWeight(work);
  }

  lemma {:induction false} AttemptsSplitInTwo(trace: seq<Attempt>)
    ensures |trace| == CountWhere(trace, IsSuccess()) + CountWhere(trace, IsFailure())
  {
    if trace != [] {
      AttemptsSplitInTwo(trace[..|trace| - 1]);
    }
  }

  // ---------------------------------------------------------------- event totals

  /** How many verdicts with the status the successful batches brought. */
  function VerdictTotal(trace: seq<Attempt>, status: ResultStatus): nat {
    if trace == [] then 0
    else
      var last := trace[|trace| - 1];
      VerdictTotal(trace[..|trace| - 1], status) +
      if Succeeded(last) then Breaker.CountOf(last.outcome.result.eventResults, status) else 0
  }

  /** `EventsFailed`: failed by the agent, or in a batch that failed for good. */
  function FailedTotal(trace: seq<Attempt>): nat {
    VerdictTotal(trace, FailedByAgent) + |EventsWhere(trace, IsFailedForGood())|
  }

  /** A success that reports one verdict per event of the batch, none with a foreign status. */
  predicate Complete(a: Attempt) {
    Succeeded(a) ==>
      var results := a.outcome.result.eventResults;
      |results| == |a.batch.events| && forall r <- results :: !r.status.Other?
  }

  lemma {:induction false} StatusesAddUp(results: seq<EventResult>)
    requires forall r <- results :: !r.status.Other?
    ensures |results| == Breaker.AdjudicatedCount(results) + Breaker.CountOf(results, Unknown)
  {
    if results != [] {
      StatusesAddUp(results[..|results| - 1]);
    }
  }

  /** The four event totals of a flush add up to the events of the batches that finished. */
  lemma {:induction false} TotalsAddUp(trace: seq<Attempt>)
    requires forall a <- trace :: Complete(a)
    ensures VerdictTotal(trace, Integrated) + VerdictTotal(trace, Skipped) + FailedTotal(trace) +
      VerdictTotal(trace, Unknown)
      == |EventsWhere(trace, IsFinished())|
  {
    if trace != [] {
      var before, last := trace[..|trace| - 1], trace[|trace| - 1];
      TotalsAddUp(before);
      assert last in trace;
      if Succeeded(last) {
        StatusesAddUp(last.outcome.result.eventResults);
      }
    }
  }
}
