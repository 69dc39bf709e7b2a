/** How far one bad event reaches: isolation by bisection (`internal/agent/coordinator.go`). */
module Poison {
  import opened Counting
  import opened Packing
  import opened Batching
  import opened Verdicts
  import opened Turns
  import opened Splitting
  import opened Schedule
  import opened Ordering

  // ---------------------------------------------------------------- the backend

  /** The backend fails a batch, for a reason other than cancellation and without violations, exactly when
      the batch holds a poison event; otherwise it integrates every event. */
  predicate PoisonOutcome(batch: Batch, outcome: RunOutcome, poison: PendingEvent -> bool) {
    && outcome.Completed?
    && var result := outcome.result;
       if Count(batch.events, poison) > 0 then
         result.status == Failed && result.violations == [] && result.error != Canceled
       else
         && result.status == Success && |result.eventResults| == |batch.events|
         && forall i :: 0 <= i < |batch.events| ==>
              result.eventResults[i].eventId == batch.events[i].id && result.eventResults[i].status == Integrated
  }

  ghost predicate PoisonAttempt(a: Attempt, poison: PendingEvent -> bool, digest: Digest) {
    PoisonOutcome(a.batch, a.outcome, poison) && a.retries == RetriesFor(a.batch, a.outcome, digest)
  }

  ghost predicate PoisonTrace(trace: seq<Attempt>, poison: PendingEvent -> bool, digest: Digest) {
    forall i :: 0 <= i < |trace| ==> PoisonAttempt(trace[i], poison, digest)
  }

  // ---------------------------------------------------------------- sizes

  /** The most events a batch can have at a depth when the flush formed batches of at most `m`. */
  function SizeAt(depth: nat, m: nat): nat {
    if depth == 0 then m else if depth == 1 then (m + 1) / 2 else (m + 3) / 4
  }

  predicate Sized(b: Batch, m: nat) {
    b.events != [] && b.depth <= MAX_DEPTH && |b.events| <= SizeAt(b.depth, m)
  }

  ghost predicate AllSized(batches: seq<Batch>, m: nat) {
    forall i :: 0 <= i < |batches| ==> Sized(batches[i], m)
  }

  /** How many events one poison event can take down with it, itself included. */
  function CollateralLimit(m: nat): nat {
    if (m + 3) / 4 > 5 then (m + 3) / 4 else 5
  }

  function PoisonOf(batches: seq<Batch>, poison: PendingEvent -> bool): nat {
    if batches == [] then 0 else Count(batches[0].events, poison) + PoisonOf(batches[1..], poison)
  }

  function PoisonFailed(trace: seq<Attempt>, poison: PendingEvent -> bool): nat {
    if trace == [] then 0
    else
      var last := trace[|trace| - 1];
      PoisonFailed(trace[..|trace| - 1], poison) + if FailedForGood(last) then Count(last.batch.events, poison) else 0
  }

  lemma {:induction false} PoisonOfConcat(a: seq<Batch>, b: seq<Batch>, poison: PendingEvent -> bool)
    ensures PoisonOf(a + b, poison) == PoisonOf(a, poison) + PoisonOf(b, poison)
  {
    if a == [] {
      assert a + b == b;
    } else {
      assert (a + b)[1..] == a[1..] + b;
      PoisonOfConcat(a[1..], b, poison);
    }
  }

  /** One attempt: the retries of a failed batch are its halves, and hold its poison; a batch that fails
      for good is small and holds poison; one that succeeds holds none. */
  lemma AttemptIsolates(a: Attempt, poison: PendingEvent -> bool, digest: Digest, m: nat)
    requires PoisonAttempt(a, poison, digest) && Sized(a.batch, m)
    ensures FateOf(a) != Dropped
    ensures AllSized(a.retries, m)
    ensures PoisonOf(a.retries, poison) + (if FailedForGood(a) then Count(a.batch.events, poison) else 0)
      == Count(a.batch.events, poison)
    ensures FailedForGood(a) ==> |a.batch.events| <= CollateralLimit(m) && Count(a.batch.events, poison) >= 1
    ensures Succeeded(a) ==> Count(a.batch.events, poison) == 0
  {
    if a.retries != [] {
      assert a.retries == Bisection(a.batch, digest);
      BisectionHalves(a.batch, digest);
      HalvesHoldPoison(a.batch, poison, digest);
    }
  }

  lemma HalvesHoldPoison(batch: Batch, poison: PendingEvent -> bool, digest: Digest)
    requires |batch.events| >= 2
    ensures PoisonOf(Bisection(batch, digest), poison) == Count(batch.events, poison)
  {
    var halves := Bisection(batch, digest);
    var middle := |batch.events| / 2;
    assert batch.events == batch.events[..middle] + batch.events[middle..];
    CountConcat(batch.events[..middle], batch.events[middle..], poison);
    PoisonOfPair(halves[0], halves[1], poison);
    assert halves == [halves[0], halves[1]];
  }

  lemma PoisonOfPair(a: Batch, b: Batch, poison: PendingEvent -> bool)
    ensures PoisonOf([a, b], poison) == Count(a.events, poison) + Count(b.events, poison)
  {
    assert [a, b] == [a] + [b];
    PoisonOfConcat([a], [b], poison);
    assert PoisonOf([a], poison) == Count(a.events, poison) + PoisonOf([], poison);
    assert PoisonOf([b], poison) == Count(b.events, poison) + PoisonOf([], poison);
  }

  /** An attempt on a batch of allowed size retries in batches of allowed size. */
  ghost predicate KeepsSize(a: Attempt, m: nat) {
    Sized(a.batch, m) ==> AllSized(a.retries, m)
  }

  lemma StepStaysSized(left: seq<Batch>, a: Attempt, m: nat)
    requires AllSized(left, m) && left != [] && a.batch == left[0] && KeepsSize(a, m)
    ensures Sized(a.batch, m) && AllSized(a.retries + left[1..], m)
  {
    var next := a.retries + left[1..];
    forall i | 0 <= i < |next| ensures Sized(next[i], m) {
      assert next[i] == if i < |a.retries| then a.retries[i] else left[i - |a.retries| + 1];
    }
  }

  ghost predicate KeepSizes(trace: seq<Attempt>, m: nat) {
    forall i :: 0 <= i < |trace| ==> KeepsSize(trace[i], m)
  }

  ghost predicate TriedSized(trace: seq<Attempt>, m: nat) {
    forall i :: 0 <= i < |trace| ==> Sized(trace[i].batch, m)
  }

  lemma KeepSizesLast(trace: seq<Attempt>, m: nat)
    requires KeepSizes(trace, m) && trace != []
    ensures KeepSizes(trace[..|trace| - 1], m) && KeepsSize(trace[|trace| - 1], m)
  {
  }

  lemma TriedSizedLast(trace: seq<Attempt>, m: nat)
    requires trace != [] && TriedSized(trace[..|trace| - 1], m) && Sized(trace[|trace| - 1].batch, m)
    ensures TriedSized(trace, m)
  {
    forall i | 0 <= i < |trace| ensures Sized(trace[i].batch, m) {
      if i < |trace| - 1 {
        assert trace[..|trace| - 1][i] == trace[i];
      }
    }
  }

  lemma {:induction false} StaysSized(work: seq<Batch>, trace: seq<Attempt>, m: nat)
    requires Follows(work, trace) && AllSized(work, m) && KeepSizes(trace, m)
    ensures AllSized(Left(work, trace), m) && TriedSized(trace, m)
  {
    if trace != [] {
      var before, last := trace[..|trace| - 1], trace[|trace| - 1];
      LastAttempt(work, trace);
      KeepSizesLast(trace, m);
      StaysSized(work, before, m);
      StepStaysSized(Left(work, before), last, m);
      TriedSizedLast(trace, m);
    }
  }

  lemma PoisonStaysSized(work: seq<Batch>, trace: seq<Attempt>, poison: PendingEvent -> bool, digest: Digest, m: nat)
    requires Follows(work, trace) && PoisonTrace(trace, poison, digest) && AllSized(work, m)
    ensures TriedSized(trace, m)
  {
    forall i | 0 <= i < |trace| ensures KeepsSize(trace[i], m) {
      if Sized(trace[i].batch, m) {
        AttemptIsolates(trace[i], poison, digest, m);
      }
    }
    StaysSized(work, trace, m);
  }

  lemma {:induction false} PoisonConserved(
      work: seq<Batch>, trace: seq<Attempt>, poison: PendingEvent -> bool, digest: Digest, m: nat)
    requires Follows(work, trace) && PoisonTrace(trace, poison, digest)
    requires TriedSized(trace, m)
    ensures PoisonOf(work, poison) == PoisonFailed(trace, poison) + PoisonOf(Left(work, trace), poison)
  {
    if trace != [] {
      var before, last := trace[..|trace| - 1], trace[|trace| - 1];
      LastAttempt(work, trace);
      PoisonConserved(work, before, poison, digest, m);
      AttemptIsolates(last, poison, digest, m);
      PoisonOfConcat(last.retries, Left(work, before)[1..], poison);
    }
  }

  lemma Multiply(limit: nat, failed: nat, more: nat)
    requires more >= 1
    ensures limit * failed + limit <= limit * (failed + more)
  {
    assert limit * (failed + more) == limit * failed + limit * more;
  }

  /** Failures are paid for by poison, and nothing is dropped. */
  lemma {:induction false} FailuresBounded(trace: seq<Attempt>, poison: PendingEvent -> bool, digest: Digest, m: nat)
    requires PoisonTrace(trace, poison, digest)
    requires TriedSized(trace, m)
    ensures |EventsWhere(trace, IsFailedForGood())| <= CollateralLimit(m) * PoisonFailed(trace, poison)
    ensures EventsWhere(trace, IsDropped()) == multiset{}
  {
    if trace != [] {
      var before, last := trace[..|trace| - 1], trace[|trace| - 1];
      FailuresBounded(before, poison, digest, m);
      AttemptIsolates(last, poison, digest, m);
      if FailedForGood(last) {
        Multiply(CollateralLimit(m), PoisonFailed(before, poison), Count(last.batch.events, poison));
      }
    }
  }

  /** The events of a failed-for-good attempt include every poison event that finished. */
  lemma {:induction false} PoisonEndsFailed(trace: seq<Attempt>, poison: PendingEvent -> bool, digest: Digest,
      e: PendingEvent)
    requires PoisonTrace(trace, poison, digest) && poison(e)
    ensures EventsWhere(trace, IsFinished())[e] == EventsWhere(trace, IsFailedForGood())[e]
  {
    if trace != [] {
      var before, last := trace[..|trace| - 1], trace[|trace| - 1];
      PoisonEndsFailed(before, poison, digest, e);
      CountZero(last.batch.events, poison);
      assert PoisonAttempt(last, poison, digest);
      if Succeeded(last) {
        assert multiset(last.batch.events)[e] == 0;
      }
    }
  }

  /** A finished event either succeeded or failed for good. */
  lemma {:induction false} FinishedEitherWay(trace: seq<Attempt>)
    ensures EventsWhere(trace, IsFinished()) == EventsWhere(trace, IsSuccess()) + EventsWhere(trace, IsFailedForGood())
  {
    if trace != [] {
      FinishedEitherWay(trace[..|trace| - 1]);
    }
  }

  /** When a flush of such a backend runs out of batches, every event has succeeded or failed, and at
      most `max(5, ceil(m / 4))` events failed per poison event. */
  lemma PoisonIsBounded(
      work: seq<Batch>, trace: seq<Attempt>, poison: PendingEvent -> bool, digest: Digest, m: nat)
    requires Follows(work, trace) && PoisonTrace(trace, poison, digest) && Left(work, trace) == []
    requires AllSized(work, m)
    ensures EventsOf(work) == EventsWhere(trace, IsSuccess()) + EventsWhere(trace, IsFailedForGood())
    ensures |EventsWhere(trace, IsFailedForGood())| <= CollateralLimit(m) * PoisonOf(work, poison)
  {
    PoisonStaysSized(work, trace, poison, digest, m);
    PoisonIsAllFailed(work, trace, poison, digest, m);
    FailuresBounded(trace, poison, digest, m);
    AllFinished(work, trace);
  }

  lemma PoisonIsAllFailed(
      work: seq<Batch>, trace: seq<Attempt>, poison: PendingEvent -> bool, digest: Digest, m: nat)
    requires Follows(work, trace) && PoisonTrace(trace, poison, digest)
    requires Left(work, trace) == [] && TriedSized(trace, m)
    ensures PoisonOf(work, poison) == PoisonFailed(trace, poison)
  {
    PoisonConserved(work, trace, poison, digest, m);
    assert PoisonOf([], poison) == 0;
  }

  /** With nothing dropped and nothing left, success and failure for good account for every event. */
  lemma AllFinished(work: seq<Batch>, trace: seq<Attempt>)
    requires Follows(work, trace) && Left(work, trace) == [] && EventsWhere(trace, IsDropped()) == multiset{}
    ensures EventsOf(work) == EventsWhere(trace, IsSuccess()) + EventsWhere(trace, IsFailedForGood())
  {
    EventsConserved(work, trace);
    FinishedEitherWay(trace);
    DropEmpty(EventsOf(work), EventsWhere(trace, IsSuccess()), EventsWhere(trace, IsFailedForGood()),
              EventsWhere(trace, IsDropped()), EventsOf(Left(work, trace)));
  }

  /** And every poison event is among the failed ones. */
  lemma PoisonFails(
      work: seq<Batch>, trace: seq<Attempt>, poison: PendingEvent -> bool, digest: Digest, m: nat, e: PendingEvent)
    requires Follows(work, trace) && PoisonTrace(trace, poison, digest) && Left(work, trace) == []
    requires AllSized(work, m) && poison(e)
    ensures EventsOf(work)[e] == EventsWhere(trace, IsFailedForGood())[e]
  {
    PoisonStaysSized(work, trace, poison, digest, m);
    FailuresBounded(trace, poison, digest, m);
    EventsConserved(work, trace);
    PoisonEndsFailed(trace, poison, digest, e);
  }

  // ---------------------------------------------------------------- from the pending events

  lemma FirstFormed(batch: Batch, rest: seq<Batch>, m: nat, poison: PendingEvent -> bool)
    requires Sized(batch, m) && AllSized(rest, m)
    requires batch.depth == 0 && forall i :: 0 <= i < |rest| ==> rest[i].depth == 0
    ensures AllSized([batch] + rest, m) && forall i :: 0 <= i < |[batch] + rest| ==> ([batch] + rest)[i].depth == 0
    ensures EventsOf([batch] + rest) == multiset(batch.events) + EventsOf(rest)
    ensures PoisonOf([batch] + rest, poison) == Count(batch.events, poison) + PoisonOf(rest, poison)
  {
    assert ([batch] + rest)[1..] == rest;
  }

  lemma {:induction false} FormedFrom(groups: seq<seq<PendingEvent>>, digest: Digest, m: nat,
      poison: PendingEvent -> bool)
    requires forall g <- groups :: g != [] && |g| <= m
    ensures |BatchesOf(groups, digest)| == |groups| && AllSized(BatchesOf(groups, digest), m)
    ensures forall i :: 0 <= i < |groups| ==> BatchesOf(groups, digest)[i].depth == 0
    ensures EventsOf(BatchesOf(groups, digest)) == multiset(Concat(groups))
    ensures PoisonOf(BatchesOf(groups, digest), poison) == Count(Concat(groups), poison)
  {
    if groups != [] {
      FormedFrom(groups[1..], digest, m, poison);
      CountConcat(groups[0], Concat(groups[1..]), poison);
      assert groups[0] in groups;
      FirstFormed(BatchOf(groups[0], 0, digest), BatchesOf(groups[1..], digest), m, poison);
    }
  }

  /** The batches formed from the pending events hold exactly those events, in admissible sizes. */
  lemma FormedBatches(events: seq<PendingEvent>, limits: BatchLimits, digest: Digest, poison: PendingEvent -> bool)
    requires limits.Positive()
    ensures
      var work := BatchesOf(Groups(SortEvents(events), FitTest(limits)), digest);
      && AllSized(work, limits.maxEvents) && (forall i :: 0 <= i < |work| ==> work[i].depth == 0)
      && EventsOf(work) == multiset(events)
      && PoisonOf(work, poison) == Count(events, poison)
  {
    var ordered := SortEvents(events);
    var groups := Groups(ordered, FitTest(limits));
    GroupsPartition(ordered, FitTest(limits));
    forall g | g in groups ensures g != [] && |g| <= limits.maxEvents {
      assert Admissible(g, FitTest(limits));
    }
    FormedFrom(groups, digest, limits.maxEvents, poison);
    EventOrder();
    SortSorts(events, EventLe);
    SortCounts(events, EventLe, poison);
  }
}
