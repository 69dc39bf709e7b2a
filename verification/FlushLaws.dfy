/** What every flush guarantees, and what it guarantees against poison events. */
module FlushLaws {
  import opened Counting
  import opened Batching
  import opened Packing
  import opened Verdicts
  import opened Turns
  import opened Splitting
  import opened Schedule
  import opened Flushing
  import opened Poison
  import Breaker
  import Store

  ghost predicate AllGenuine(trace: seq<Attempt>, env: Env, digest: Digest) {
    forall i :: 0 <= i < |trace| ==> Genuine(trace[i], i, env, digest)
  }

  lemma HeadHistory(work: seq<Batch>, trace: seq<Attempt>, env: Env, digest: Digest, b: Breaker.State, count: nat)
    requires AtHead(work, trace, env, digest, b, count)
    ensures Follows(work, trace) && AllGenuine(trace, env, digest)
  {
  }

  lemma GenuineToTheEnd(trace: seq<Attempt>, env: Env, digest: Digest)
    requires trace != [] && AllGenuine(trace[..|trace| - 1], env, digest)
    requires Genuine(trace[|trace| - 1], |trace| - 1, env, digest)
    ensures AllGenuine(trace, env, digest)
  {
    forall i | 0 <= i < |trace| ensures Genuine(trace[i], i, env, digest) {
      if i < |trace| - 1 {
        assert trace[..|trace| - 1][i] == trace[i];
      }
    }
  }

  /** However a flush ends, its history is one of genuine attempts, each on the first batch left. */
  lemma EndedHistory(
      work: seq<Batch>, trace: seq<Attempt>, env: Env, digest: Digest, b: Breaker.State, count: nat, reason: StopReason)
    requires Ended(work, trace, env, digest, b, count, reason)
    ensures Follows(work, trace) && AllGenuine(trace, env, digest)
  {
    if trace != [] && EndsAfter(b, count, trace).Some? {
      HeadHistory(work, trace[..|trace| - 1], env, digest, b, count);
      GenuineToTheEnd(trace, env, digest);
    } else {
      HeadHistory(work, trace, env, digest, b, count);
    }
  }

  lemma WorkHoldsEvents(book: Book, events: seq<PendingEvent>, limits: BatchLimits, digest: Digest,
      poison: PendingEvent -> bool)
    requires limits.Positive()
    ensures
      var opening := OpeningBook(book, events);
      var acted := Actionable(events, opening.s, opening.deferred);
      var work := OpeningWork(book, events, limits, digest);
      && AllSized(work, limits.maxEvents) && (forall i :: 0 <= i < |work| ==> work[i].depth == 0)
      && EventsOf(work) == multiset(acted) && PoisonOf(work, poison) == Count(acted, poison)
  {
    var opening := OpeningBook(book, events);
    FormedBatches(Actionable(events, opening.s, opening.deferred), limits, digest, poison);
  }

  /** The books of any flush balance: after n attempts the actionable events it started with are exactly
      those of finished, dropped and untried batches; it makes at most seven attempts per batch it formed;
      attempts split into successes and failures; and the event totals are the events that finished. */
  lemma FlushBalances(
      book: Book, events: seq<PendingEvent>, limits: BatchLimits, env: Env, digest: Digest,
      b: Breaker.State, count: nat, trace: seq<Attempt>, result: FlushResult, n: nat)
    requires limits.Positive() && n <= |trace|
    requires Ended(OpeningWork(book, events, limits, digest), trace, env, digest, b, count, result.stopped)
    requires Tallies(result, trace)
    requires forall i :: 0 <= i < |trace| ==> Complete(trace[i])
    ensures
      var opening := OpeningBook(book, events);
      var work := OpeningWork(book, events, limits, digest);
      && multiset(Actionable(events, opening.s, opening.deferred)) ==
           EventsWhere(trace[..n], IsFinished()) + EventsWhere(trace[..n], IsDropped()) +
             EventsOf(Left(work, trace[..n]))
      && result.attempted <= 7 * |work|
      && result.attempted == result.succeeded + result.failed
      && result.integrated + result.skipped + result.eventsFailed + result.unknown == |EventsWhere(trace, IsFinished())|
  {
    var work := OpeningWork(book, events, limits, digest);
    EndedHistory(work, trace, env, digest, b, count, result.stopped);
    WorkHoldsEvents(book, events, limits, digest, (_: PendingEvent) => false);
    FollowsPrefix(work, trace, n);
    EventsConserved(work, trace[..n]);
    SevenAttemptsPerBatch(work, trace);
    AttemptsSplitInTwo(trace);
    TotalsAddUp(trace);
  }

  // ---------------------------------------------------------------- poison

  /** Nothing interrupts the flush, appends succeed, and the backend fails exactly the batches that hold
      a poison event. */
  ghost predicate CalmButPoisoned(env: Env, poison: PendingEvent -> bool) {
    && (forall n :: env.head(n) == Proceed)
    && (forall n :: env.append(n) == Store.Done)
    && (forall n: nat, batch :: PoisonOutcome(batch, env.run(n, batch), poison))
  }

  lemma {:induction false} IntegratedAreAdjudicated(results: seq<EventResult>)
    requires forall i :: 0 <= i < |results| ==> results[i].status == Integrated
    ensures Breaker.CountOf(results, Unknown) == 0
  {
    if results != [] {
      IntegratedAreAdjudicated(results[..|results| - 1]);
    }
  }

  lemma PoisonNeverStops(a: Attempt, b: Breaker.State, count: nat, poison: PendingEvent -> bool)
    requires PoisonOutcome(a.batch, a.outcome, poison)
    ensures EndsWith(b, count, a).None?
  {
    if Succeeded(a) {
      IntegratedAreAdjudicated(a.outcome.result.eventResults);
    }
  }

  lemma PoisonedRunsOut(
      work: seq<Batch>, trace: seq<Attempt>, env: Env, digest: Digest, b: Breaker.State, count: nat, reason: StopReason,
      poison: PendingEvent -> bool)
    requires Ended(work, trace, env, digest, b, count, reason) && CalmButPoisoned(env, poison)
    ensures reason == RanToCompletion && Left(work, trace) == [] && Follows(work, trace)
    ensures PoisonTrace(trace, poison, digest)
  {
    EndedHistory(work, trace, env, digest, b, count, reason);
    forall i | 0 <= i < |trace| ensures PoisonAttempt(trace[i], poison, digest) {
      assert Genuine(trace[i], i, env, digest);
    }
    if trace != [] {
      var before := trace[..|trace| - 1];
      assert PoisonAttempt(trace[|trace| - 1], poison, digest);
      PoisonNeverStops(trace[|trace| - 1], BreakerAfter(b, before), OuterErrorsAfter(count, before), poison);
    }
  }

  // ---------------------------------------------------------------- what ends up in the store

  lemma {:induction false} PostingsByIndex(results: seq<EventResult>, events: seq<PendingEvent>, batchId: string,
      reason: string)
    ensures |ResultPostings(results, batchId)| == |results|
    ensures forall i :: 0 <= i < |results| ==> ResultPostings(results, batchId)[i] == PostingOf(results[i], batchId)
    ensures |FailurePostings(events, batchId, reason)| == |events|
    ensures forall i :: 0 <= i < |events| ==>
      FailurePostings(events, batchId, reason)[i] == FailurePosting(events[i], batchId, reason)
    decreases |results| + |events|
  {
    if results != [] {
      PostingsByIndex(results[..|results| - 1], events, batchId, reason);
    } else if events != [] {
      PostingsByIndex(results, events[..|events| - 1], batchId, reason);
    }
  }

  ghost predicate PostsAbout(posting: Posting, id: EventId) {
    posting.Post? && posting.entry.eventId == id
  }

  ghost predicate PostsWell(postings: seq<Posting>) {
    forall i :: 0 <= i < |postings| ==> postings[i].Post? && Store.Writable(postings[i].entry)
  }

  lemma PostOneSettles(book: Book, posting: Posting, append: nat -> Store.AppendIo)
    requires posting.Post? && Store.Writable(posting.entry) && append(book.appends).Done?
    ensures PostOne(book, posting, append).s.terminal ==
      book.s.terminal[posting.entry.eventId := Store.Normalize(posting.entry).outcome]
  {
    var entries := [posting.entry];
    assert forall e <- entries :: Store.Writable(e);
    var normalized := Store.NormalizeAll(entries);
    var appended := book.s.(log := Store.AppendTo(book.s.log, Store.RowsOf(normalized), append(book.appends)));
    assert normalized == [Store.Normalize(posting.entry)] && normalized[..0] == [];
    assert Store.WithEntries(appended, normalized[..0]) == appended;
    assert Store.WithEntries(appended, normalized) == Store.WithEntry(appended, normalized[0]);
  }

  ghost predicate IsPosted(postings: seq<Posting>, id: EventId) {
    exists i :: 0 <= i < |postings| && PostsAbout(postings[i], id)
  }

  ghost predicate AllWithStatus(postings: seq<Posting>, status: Store.Status) {
    forall i :: 0 <= i < |postings| && postings[i].Post? ==> postings[i].entry.outcome.status == status
  }

  lemma LastPosted(postings: seq<Posting>, id: EventId, status: Store.Status)
    requires postings != [] && PostsWell(postings) && AllWithStatus(postings, status)
    ensures
      var earlier, last := postings[..|postings| - 1], postings[|postings| - 1];
      && PostsWell(earlier) && AllWithStatus(earlier, status)
      && last.Post? && Store.Writable(last.entry) && last.entry.outcome.status == status
      && (IsPosted(postings, id) <==> IsPosted(earlier, id) || PostsAbout(last, id))
  {
    var earlier, last := postings[..|postings| - 1], postings[|postings| - 1];
    assert forall i :: 0 <= i < |earlier| ==> earlier[i] == postings[i];
    if IsPosted(earlier, id) {
      var i :| 0 <= i < |earlier| && PostsAbout(earlier[i], id);
      assert PostsAbout(postings[i], id);
    }
  }

  /** When appends succeed, an event that is posted about ends with the posted status, and any other
      event keeps the status it had. */
  lemma {:induction false} PostAllSettles(
      book: Book, postings: seq<Posting>, append: nat -> Store.AppendIo, id: EventId, status: Store.Status)
    requires PostsWell(postings) && AllWithStatus(postings, status) && forall n :: append(n) == Store.Done
    ensures
      var before, after := book.s.terminal, PostAll(book, postings, append).s.terminal;
      if IsPosted(postings, id) then id in after && after[id].status == status
      else (id in after <==> id in before) && (id in before ==> after[id] == before[id])
  {
    if postings != [] {
      var earlier, last := postings[..|postings| - 1], postings[|postings| - 1];
      LastPosted(postings, id, status);
      PostAllSettles(book, earlier, append, id, status);
      PostOneSettles(PostAll(book, earlier, append), last, append);
    }
  }

  /** The attempt's batch holds an event with the id. */
  ghost predicate HoldsId(a: Attempt, id: EventId) {
    exists k :: 0 <= k < |a.batch.events| && Store.EventId(a.batch.events[k].id) == id
  }

  predicate NamedEvents(a: Attempt) {
    forall k :: 0 <= k < |a.batch.events| ==> a.batch.events[k].id != ""
  }

  /** What a finished attempt of a poisoned backend posts: every event of its batch, all with one status. */
  lemma AttemptPosts(a: Attempt, poison: PendingEvent -> bool, digest: Digest, id: EventId)
    requires PoisonAttempt(a, poison, digest) && NamedEvents(a)
    ensures PostsWell(PostingsOf(a))
    ensures AllWithStatus(PostingsOf(a), if Succeeded(a) then Store.Integrated else Store.Failed)
    ensures IsPosted(PostingsOf(a), id) <==> FateOf(a) == Finished && HoldsId(a, id)
  {
    var postings, events := PostingsOf(a), a.batch.events;
    if FateOf(a) == Finished {
      var reason := if Succeeded(a) then "" else FailureReason(a.outcome.result);
      PostingsByIndex(a.outcome.result.eventResults, events, a.batch.id, reason);
      assert |postings| == |events|;
      forall i | 0 <= i < |events|
        ensures postings[i].Post? && postings[i].entry.eventId == Store.EventId(events[i].id)
        ensures Store.Writable(postings[i].entry)
        ensures postings[i].entry.outcome.status == if Succeeded(a) then Store.Integrated else Store.Failed
      {
      }
      if HoldsId(a, id) {
        var k :| 0 <= k < |events| && Store.EventId(events[k].id) == id;
        assert PostsAbout(postings[k], id);
      }
      if IsPosted(postings, id) {
        var k :| 0 <= k < |postings| && PostsAbout(postings[k], id);
        assert Store.EventId(events[k].id) == id;
      }
    }
  }

  ghost predicate FinishedWith(trace: seq<Attempt>, id: EventId) {
    exists i :: 0 <= i < |trace| && FateOf(trace[i]) == Finished && HoldsId(trace[i], id)
  }

  /** No batch that held the event succeeded. */
  ghost predicate NeverSucceeded(trace: seq<Attempt>, id: EventId) {
    forall i :: 0 <= i < |trace| && HoldsId(trace[i], id) ==> !Succeeded(trace[i])
  }

  /** One attempt, in the store: a finished one that holds the event settles it, any other leaves a
      settled event settled, and only a success can settle it as anything but failed. */
  lemma AttemptSettles(
      book: Book, a: Attempt, append: nat -> Store.AppendIo, poison: PendingEvent -> bool, digest: Digest, id: EventId)
    requires PoisonAttempt(a, poison, digest) && NamedEvents(a) && forall n :: append(n) == Store.Done
    ensures
      var before, after := book.s.terminal, PostAll(book, PostingsOf(a), append).s.terminal;
      if FateOf(a) == Finished && HoldsId(a, id) then
        id in after && (!Succeeded(a) ==> after[id].status == Store.Failed)
      else
        id in before ==> id in after && after[id] == before[id]
  {
    AttemptPosts(a, poison, digest, id);
    PostAllSettles(book, PostingsOf(a), append, id, if Succeeded(a) then Store.Integrated else Store.Failed);
  }

  /** Every event of a finished batch ends with a terminal status, and with "failed" when only batches
      that failed for good held it. */
  lemma {:induction false} TraceSettles(
      book: Book, trace: seq<Attempt>, append: nat -> Store.AppendIo, poison: PendingEvent -> bool, digest: Digest,
      id: EventId)
    requires PoisonTrace(trace, poison, digest) && forall n :: append(n) == Store.Done
    requires forall i :: 0 <= i < |trace| ==> NamedEvents(trace[i])
    requires FinishedWith(trace, id)
    ensures
      var after := BookAfter(book, trace, append).s.terminal;
      id in after && (NeverSucceeded(trace, id) ==> after[id].status == Store.Failed)
  {
    var before, last := trace[..|trace| - 1], trace[|trace| - 1];
    assert PoisonAttempt(last, poison, digest);
    AttemptSettles(BookAfter(book, before, append), last, append, poison, digest, id);
    if FateOf(last) == Finished && HoldsId(last, id) {
    } else {
      FinishedEarlier(trace, id);
      TraceSettles(book, before, append, poison, digest, id);
    }
  }

  lemma FinishedEarlier(trace: seq<Attempt>, id: EventId)
    requires FinishedWith(trace, id) && !(FateOf(trace[|trace| - 1]) == Finished && HoldsId(trace[|trace| - 1], id))
    ensures FinishedWith(trace[..|trace| - 1], id)
    ensures NeverSucceeded(trace, id) ==> NeverSucceeded(trace[..|trace| - 1], id)
  {
    var before := trace[..|trace| - 1];
    assert forall i :: 0 <= i < |before| ==> before[i] == trace[i];
    var i :| 0 <= i < |trace| && FateOf(trace[i]) == Finished && HoldsId(trace[i], id);
    assert before[i] == trace[i];
  }

  // ---------------------------------------------------------------- the end-to-end statement

  lemma {:induction false} WhereMeans(trace: seq<Attempt>, test: Attempt -> bool, e: PendingEvent)
    ensures EventsWhere(trace, test)[e] > 0 <==>
      exists i :: 0 <= i < |trace| && test(trace[i]) && e in trace[i].batch.events
  {
    if trace != [] {
      var before, last := trace[..|trace| - 1], trace[|trace| - 1];
      WhereMeans(before, test, e);
      assert e in multiset(last.batch.events) <==> e in last.batch.events;
      assert forall i :: 0 <= i < |before| ==> before[i] == trace[i];
    }
  }

  /** Every batch ever tried holds only events of the work list. */
  lemma {:induction false} TriedEventsAreOurs(work: seq<Batch>, trace: seq<Attempt>, i: nat, e: PendingEvent)
    requires Follows(work, trace) && i < |trace| && e in trace[i].batch.events
    ensures EventsOf(work)[e] > 0
  {
    var before := trace[..i];
    FollowsPrefix(work, trace, i);
    EventsConserved(work, before);
    var left := Left(work, before);
    assert e in multiset(left[0].events);
    assert EventsOf(left)[e] >= multiset(left[0].events)[e];
  }

  /** Poison isolation, end to end: an uninterrupted flush whose backend fails exactly the batches that
      hold a poison event runs to completion, and fails at most `max(5, ceil(m / 4))` events per poison
      event, where m is the event cap of a batch. */
  lemma PoisonFlushIsBounded(
      book: Book, events: seq<PendingEvent>, limits: BatchLimits, env: Env, digest: Digest,
      b: Breaker.State, count: nat, trace: seq<Attempt>, reason: StopReason, poison: PendingEvent -> bool)
    requires limits.Positive() && CalmButPoisoned(env, poison)
    requires Ended(OpeningWork(book, events, limits, digest), trace, env, digest, b, count, reason)
    ensures
      var opening := OpeningBook(book, events);
      var acted := Actionable(events, opening.s, opening.deferred);
      && reason == RanToCompletion
      && multiset(acted) == EventsWhere(trace, IsSuccess()) + EventsWhere(trace, IsFailedForGood())
      && |EventsWhere(trace, IsFailedForGood())| <= CollateralLimit(limits.maxEvents) * Count(acted, poison)
  {
    var work := OpeningWork(book, events, limits, digest);
    WorkHoldsEvents(book, events, limits, digest, poison);
    PoisonedRunsOut(work, trace, env, digest, b, count, reason, poison);
    PoisonIsBounded(work, trace, poison, digest, limits.maxEvents);
  }

  /** And in the store every actionable event has then ended, a poison event as failed. */
  lemma PoisonFlushSettles(
      book: Book, events: seq<PendingEvent>, limits: BatchLimits, env: Env, digest: Digest,
      b: Breaker.State, count: nat, trace: seq<Attempt>, reason: StopReason, poison: PendingEvent -> bool,
      e: PendingEvent)
    requires limits.Positive() && CalmButPoisoned(env, poison)
    requires Ended(OpeningWork(book, events, limits, digest), trace, env, digest, b, count, reason)
    requires
      var opening := OpeningBook(book, events);
      var acted := Actionable(events, opening.s, opening.deferred);
      && e in acted
      && (forall x <- acted :: x.id != "")
      && (forall x <- acted :: x.id == e.id ==> x == e)
    ensures
      var after := BookAfter(OpeningBook(book, events), trace, env.append).s.terminal;
      && Store.EventId(e.id) in after
      && (poison(e) ==> after[Store.EventId(e.id)].status == Store.Failed)
  {
    var opening := OpeningBook(book, events);
    var acted := Actionable(events, opening.s, opening.deferred);
    var work, id := OpeningWork(book, events, limits, digest), Store.EventId(e.id);
    WorkHoldsEvents(book, events, limits, digest, poison);
    PoisonedRunsOut(work, trace, env, digest, b, count, reason, poison);
    forall i, k | 0 <= i < |trace| && 0 <= k < |trace[i].batch.events| ensures trace[i].batch.events[k] in acted {
      TriedEventsAreOurs(work, trace, i, trace[i].batch.events[k]);
      assert trace[i].batch.events[k] in multiset(acted);
    }
    forall i | 0 <= i < |trace| ensures NamedEvents(trace[i]) {
      forall k | 0 <= k < |trace[i].batch.events| ensures trace[i].batch.events[k].id != "" {
        assert trace[i].batch.events[k] in acted;
      }
    }
    assert FinishedWith(trace, id) by {
      PoisonIsBounded(work, trace, poison, digest, limits.maxEvents);
      FinishedEitherWay(trace);
      assert e in multiset(acted);
      WhereMeans(trace, IsFinished(), e);
      var i :| 0 <= i < |trace| && FateOf(trace[i]) == Finished && e in trace[i].batch.events;
      var k :| 0 <= k < |trace[i].batch.events| && trace[i].batch.events[k] == e;
      assert HoldsId(trace[i], id);
    }
    if poison(e) {
      forall i | 0 <= i < |trace| && HoldsId(trace[i], id) ensures !Succeeded(trace[i]) {
        var k :| 0 <= k < |trace[i].batch.events| && Store.EventId(trace[i].batch.events[k].id) == id;
        assert trace[i].batch.events[k] == e;
        assert PoisonAttempt(trace[i], poison, digest);
        CountZero(trace[i].batch.events, poison);
      }
      assert NeverSucceeded(trace, id);
    }
    TraceSettles(opening, trace, env.append, poison, digest, id);
  }
}
