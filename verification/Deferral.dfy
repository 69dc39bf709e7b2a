/** What deferral means over whole runs of the coordinator (`internal/agent/coordinator.go`): an event whose
    status could not be written three times is left alone until the next restart. */
module Deferral {
  import opened Batching
  import opened Packing
  import opened Verdicts
  import opened Turns
  import opened Splitting
  import opened Schedule
  import opened Flushing
  import opened FlushLaws
  import opened Coordinator
  import Breaker
  import Store

  /** What the coordinator does between two restarts: a whole flush with its history, a notify, and the two
      admin requests. */
  datatype Op =
    | FlushOp(
        events: seq<PendingEvent>, trace: seq<Attempt>, env: Env, b: Breaker.State, count: nat, reason: StopReason)
    | NotifyOp(id: EventId)
    | ResetOp(id: EventId, rawLog: set<EventId>, io: Store.AppendIo)
    | ConfirmOp(id: EventId, rawLog: set<EventId>, io: Store.AppendIo)

  /** The verdicts of a success are about events of its batch. */
  ghost predicate OwnVerdicts(a: Attempt) {
    Succeeded(a) ==> forall r <- a.outcome.result.eventResults :: HoldsId(a, Store.EventId(r.eventId))
  }

  /** A flush has a history of the coordinator's on the batches it formed. */
  ghost predicate Happens(book: Book, op: Op, limits: BatchLimits, digest: Digest) {
    op.FlushOp? ==>
      && Ended(OpeningWork(book, op.events, limits, digest), op.trace, op.env, digest, op.b, op.count, op.reason)
      && forall i :: 0 <= i < |op.trace| ==> OwnVerdicts(op.trace[i])
  }

  /** The raw log is append-only, so a snapshot that a flush reads holds the event. */
  ghost predicate Sees(op: Op, id: EventId) {
    op.FlushOp? ==> exists i :: 0 <= i < |op.events| && Store.EventId(op.events[i].id) == id
  }

  function AfterOp(book: Book, op: Op): Book {
    match op
    case FlushOp(events, trace, env, _, _, _) => BookAfter(OpeningBook(book, events), trace, env.append)
    case NotifyOp(id) => book.(s := Store.Notified(book.s, id))
    case ResetOp(id, rawLog, io) =>
      if MayReset(book.s, id, rawLog) then book.(s := Store.Tombstoned(book.s, id, io)) else book
    case ConfirmOp(id, rawLog, io) =>
      if MayConfirm(book.s, id, rawLog) then book.(s := Store.Written(book.s, [ConfirmedEntry(id)], io)) else book
  }

  function BookAfterOps(book: Book, ops: seq<Op>): Book {
    if ops == [] then book else AfterOp(BookAfterOps(book, ops[..|ops| - 1]), ops[|ops| - 1])
  }

  ghost predicate AllHappen(book: Book, ops: seq<Op>, limits: BatchLimits, digest: Digest) {
    ops == []
    || (&& AllHappen(book, ops[..|ops| - 1], limits, digest)
        && Happens(BookAfterOps(book, ops[..|ops| - 1]), ops[|ops| - 1], limits, digest))
  }

  /** Deferred and still pending. */
  ghost predicate Deferred(book: Book, id: EventId) {
    id in book.deferred && id in book.s.pending && id !in book.s.terminal
  }

  // ---------------------------------------------------------------- one flush

  lemma {:induction false} KeptAre<T>(items: seq<T>, test: T -> bool, x: T)
    ensures x in Keep(items, test) <==> x in items && test(x)
    ensures x in Drop(items, test) <==> x in items && !test(x)
  {
    if items != [] {
      var before, last := items[..|items| - 1], items[|items| - 1];
      KeptAre(before, test, x);
      assert items == before + [last];
    }
  }

  lemma OpeningDefers(book: Book, events: seq<PendingEvent>, id: EventId, i: nat)
    requires Deferred(book, id) && i < |events| && Store.EventId(events[i].id) == id
    ensures Deferred(OpeningBook(book, events), id)
  {
    var s := Store.Reconciled(book.s, Store.IdSet(EventIds(events)));
    assert EventIds(events)[i] == id;
    assert id in s.pending;
    var listed := Listed(events, s);
    KeptAre(events, PendingTest(s.pending), events[i]);
    var k :| 0 <= k < |listed| && listed[k] == events[i];
    assert EventIds(listed)[k] == id;
  }

  lemma ActedNotDeferred(book: Book, events: seq<PendingEvent>, e: PendingEvent)
    requires
      var opening := OpeningBook(book, events);
      e in Actionable(events, opening.s, opening.deferred)
    ensures Store.EventId(e.id) !in OpeningBook(book, events).deferred
  {
    var opening := OpeningBook(book, events);
    KeptAre(Listed(events, opening.s), PendingTest(opening.deferred), e);
  }

  /** No batch of the flush holds the event. */
  lemma NeverTried(book: Book, op: Op, limits: BatchLimits, digest: Digest, id: EventId, i: nat)
    requires limits.Positive() && op.FlushOp? && Happens(book, op, limits, digest)
    requires Deferred(OpeningBook(book, op.events), id) && i < |op.trace|
    ensures !HoldsId(op.trace[i], id)
  {
    var work, opening := OpeningWork(book, op.events, limits, digest), OpeningBook(book, op.events);
    var acted := Actionable(op.events, opening.s, opening.deferred);
    EndedHistory(work, op.trace, op.env, digest, op.b, op.count, op.reason);
    WorkHoldsEvents(book, op.events, limits, digest, (_: PendingEvent) => false);
    forall k | 0 <= k < |op.trace[i].batch.events| ensures Store.EventId(op.trace[i].batch.events[k].id) != id {
      var e := op.trace[i].batch.events[k];
      TriedEventsAreOurs(work, op.trace, i, e);
      assert e in multiset(acted);
      ActedNotDeferred(book, op.events, e);
    }
  }

  function About(posting: Posting): EventId {
    match posting
    case Post(entry) => entry.eventId
    case Unwritable(id) => id
  }

  lemma PostOneDefers(book: Book, posting: Posting, append: nat -> Store.AppendIo, id: EventId)
    requires Deferred(book, id) && About(posting) != id
    ensures Deferred(PostOne(book, posting, append), id)
  {
    if posting.Post? {
      WrittenAboutOther(book.s, posting.entry, append(book.appends), id);
    }
  }

  lemma WrittenAboutOther(s: Store.State, entry: Store.StatusEntry, io: Store.AppendIo, id: EventId)
    requires entry.eventId != id && id in s.pending && id !in s.terminal
    ensures id in Store.Written(s, [entry], io).pending && id !in Store.Written(s, [entry], io).terminal
  {
    OneEntry(entry);
  }

  lemma {:induction false} PostAllDefers(book: Book, postings: seq<Posting>, append: nat -> Store.AppendIo, id: EventId)
    requires Deferred(book, id) && forall i :: 0 <= i < |postings| ==> About(postings[i]) != id
    ensures Deferred(PostAll(book, postings, append), id)
  {
    if postings != [] {
      var before := postings[..|postings| - 1];
      assert forall i :: 0 <= i < |before| ==> before[i] == postings[i];
      PostAllDefers(book, before, append, id);
      PostOneDefers(PostAll(book, before, append), postings[|postings| - 1], append, id);
    }
  }

  /** An attempt posts about events of its batch only. */
  lemma PostsAboutOwn(a: Attempt, id: EventId, i: nat)
    requires OwnVerdicts(a) && !HoldsId(a, id) && i < |PostingsOf(a)|
    ensures About(PostingsOf(a)[i]) != id
  {
    var results, events := if Succeeded(a) then a.outcome.result.eventResults else [], a.batch.events;
    var reason := if FailedForGood(a) then FailureReason(a.outcome.result) else "";
    PostingsByIndex(results, events, a.batch.id, reason);
    if Succeeded(a) {
      assert results[i] in results;
      assert HoldsId(a, Store.EventId(results[i].eventId));
    }
  }

  lemma {:induction false} HistoryDefers(book: Book, trace: seq<Attempt>, append: nat -> Store.AppendIo, id: EventId)
    requires Deferred(book, id)
    requires forall i :: 0 <= i < |trace| ==> OwnVerdicts(trace[i]) && !HoldsId(trace[i], id)
    ensures Deferred(BookAfter(book, trace, append), id)
  {
    if trace != [] {
      var before, last := trace[..|trace| - 1], trace[|trace| - 1];
      assert forall i :: 0 <= i < |before| ==> before[i] == trace[i];
      HistoryDefers(book, before, append, id);
      forall i | 0 <= i < |PostingsOf(last)| ensures About(PostingsOf(last)[i]) != id {
        PostsAboutOwn(last, id, i);
      }
      PostAllDefers(BookAfter(book, before, append), PostingsOf(last), append, id);
    }
  }

  // ---------------------------------------------------------------- runs

  lemma OpDefers(book: Book, op: Op, limits: BatchLimits, digest: Digest, id: EventId)
    requires limits.Positive() && Deferred(book, id) && Happens(book, op, limits, digest) && Sees(op, id)
    ensures Deferred(AfterOp(book, op), id)
    ensures op.FlushOp? ==> forall i :: 0 <= i < |op.trace| ==> !HoldsId(op.trace[i], id)
  {
    match op
    case FlushOp(events, trace, env, _, _, _) =>
      var k :| 0 <= k < |events| && Store.EventId(events[k].id) == id;
      OpeningDefers(book, events, id, k);
      forall i | 0 <= i < |trace| ensures OwnVerdicts(trace[i]) && !HoldsId(trace[i], id) {
        NeverTried(book, op, limits, digest, id, i);
      }
      HistoryDefers(OpeningBook(book, events), trace, env.append, id);
    case ConfirmOp(other, rawLog, io) =>
      if MayConfirm(book.s, other, rawLog) {
        WrittenAboutOther(book.s, ConfirmedEntry(other), io, id);
      }
    case _ =>
  }

  /** Over any run of flushes, notifies, resets and confirms, of any events, an event that is deferred and
      still pending stays so, and no batch of any flush ever holds it. */
  lemma {:induction false} DeferredIsLeftAlone(
      book: Book, ops: seq<Op>, limits: BatchLimits, digest: Digest, id: EventId)
    requires limits.Positive() && Deferred(book, id) && AllHappen(book, ops, limits, digest)
    requires forall n :: 0 <= n < |ops| ==> Sees(ops[n], id)
    ensures Deferred(BookAfterOps(book, ops), id)
    ensures forall n, i :: 0 <= n < |ops| && ops[n].FlushOp? && 0 <= i < |ops[n].trace| ==>
      !HoldsId(ops[n].trace[i], id)
  {
    if ops != [] {
      var before, last := ops[..|ops| - 1], ops[|ops| - 1];
      assert forall n :: 0 <= n < |before| ==> before[n] == ops[n];
      DeferredIsLeftAlone(book, before, limits, digest, id);
      OpDefers(BookAfterOps(book, before), last, limits, digest, id);
      forall n, i | 0 <= n < |ops| && ops[n].FlushOp? && 0 <= i < |ops[n].trace| ensures !HoldsId(ops[n].trace[i], id) {
        if n < |before| {
          assert before[n] == ops[n];
        }
      }
    }
  }
}
