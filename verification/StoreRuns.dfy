/** What every run of the pending-event store keeps, and what a restart finds in its log. */
module StoreRuns {
  import opened Reasons
  import opened Store

  /** The steps of a run. `Reconcile(age)` uses a snapshot of the raw event log read when it held `age`
      events, however many were appended since; `Append` is the raw log alone, before the notify. */
  datatype Op =
    | Append(id: EventId)
    | Notify(id: EventId)
    | Write(entries: seq<StatusEntry>, io: AppendIo)
    | Tombstone(id: EventId, io: AppendIo)
    | Reconcile(age: nat)

  datatype World = World(s: State, raw: seq<EventId>)

  function Snapshot(raw: seq<EventId>, age: nat): set<EventId> {
    IdSet(if age <= |raw| then raw[..age] else raw)
  }

  function Step(w: World, op: Op): World {
    match op
    case Append(id) => w.(raw := w.raw + [id])
    case Notify(id) => w.(s := Notified(w.s, id))
    case Write(entries, io) => w.(s := Written(w.s, entries, io))
    case Tombstone(id, io) => w.(s := Tombstoned(w.s, id, io))
    case Reconcile(age) => w.(s := Reconciled(w.s, Snapshot(w.raw, age)))
  }

  function Run(w: World, ops: seq<Op>): World {
    if ops == [] then w else Step(Run(w, ops[..|ops| - 1]), ops[|ops| - 1])
  }

  // ---------------------------------------------------------------- the partition

  /** Every known event is pending or has ended, never both, and an ended one has a terminal status. */
  ghost predicate Partition(s: State) {
    && s.pending !! s.terminal.Keys
    && s.pending <= s.known
    && s.known <= s.pending + s.terminal.Keys
    && forall id :: id in s.terminal ==> ValidTerminal(s.terminal[id].status)
  }

  lemma {:induction false} WithEntriesPartition(s: State, entries: seq<StatusEntry>)
    requires Partition(s) && forall e <- entries :: Writable(e)
    ensures Partition(WithEntries(s, entries))
  {
    if entries != [] {
      WithEntriesPartition(s, entries[..|entries| - 1]);
      assert Writable(entries[|entries| - 1]);
    }
  }

  lemma StepPartition(w: World, op: Op)
    requires Partition(w.s)
    ensures Partition(Step(w, op).s)
  {
    if op.Write? && op.io.Done? && forall e <- op.entries :: Writable(e) {
      var appended := w.s.(log := AppendTo(w.s.log, RowsOf(NormalizeAll(op.entries)), op.io));
      NormalizedWritable(op.entries);
      WithEntriesPartition(appended, NormalizeAll(op.entries));
    }
  }

  /** The partition holds in every reachable state, stale snapshots and failed appends included. */
  lemma {:induction false} PartitionAlways(w: World, ops: seq<Op>)
    requires Partition(w.s)
    ensures Partition(Run(w, ops).s)
  {
    if ops != [] {
      PartitionAlways(w, ops[..|ops| - 1]);
      StepPartition(Run(w, ops[..|ops| - 1]), ops[|ops| - 1]);
    }
  }

  /** A store that opens starts out partitioned. */
  lemma OpenPartition(file: LogFile, events: seq<RawEvent>, epoch: EpochConfig, now: int, epochText: string,
      installed: bool)
    requires OpenState(file, events, epoch, now, epochText, installed).Open?
    ensures Partition(OpenState(file, events, epoch, now, epochText, installed).state)
  {
    if file.Absent? {
      BootstrapTerminalValid(events, if epoch.At? then epoch.instant else now);
    } else {
      ReplayValid(file.lines);
    }
  }

  lemma {:induction false} BootstrapTerminalValid(events: seq<RawEvent>, epoch: int)
    ensures forall id :: id in BootstrapTerminal(events, epoch) ==> BootstrapTerminal(events, epoch)[id] == BOOTSTRAPPED
  {
    if events != [] {
      BootstrapTerminalValid(events[..|events| - 1], epoch);
    }
  }

  lemma {:induction false} ReplayValid(lines: seq<Line>)
    ensures forall id :: id in Replay(lines) ==> ValidTerminal(Replay(lines)[id].status) && !id.Empty()
  {
    if lines != [] {
      ReplayValid(lines[..|lines| - 1]);
    }
  }

  // ---------------------------------------------------------------- leaving pending

  /** A write that reached the disk whole and names the event. */
  ghost predicate Settles(op: Op, id: EventId) {
    && op.Write? && op.io.Done?
    && (forall e <- op.entries :: Writable(e))
    && exists e :: e in op.entries && e.eventId == id
  }

  lemma {:induction false} WithEntriesPending(s: State, entries: seq<StatusEntry>, id: EventId)
    ensures id in WithEntries(s, entries).pending <==> id in s.pending && forall e <- entries :: e.eventId != id
  {
    if entries != [] {
      var before, last := entries[..|entries| - 1], entries[|entries| - 1];
      WithEntriesPending(s, before, id);
      assert entries == before + [last];
    }
  }

  lemma StepLeavesPending(w: World, op: Op, id: EventId)
    requires Partition(w.s) && id in w.s.pending && !Settles(op, id)
    ensures id in Step(w, op).s.pending
  {
    if op.Write? && op.io.Done? && forall e <- op.entries :: Writable(e) {
      var normalized := NormalizeAll(op.entries);
      WithEntriesPending(w.s.(log := AppendTo(w.s.log, RowsOf(normalized), op.io)), normalized, id);
      forall e | e in normalized ensures e.eventId != id {
        var i :| 0 <= i < |normalized| && normalized[i] == e;
        assert op.entries[i] in op.entries;
      }
    }
  }

  /** Over any run, a pending event stays pending until a successful status write names it. */
  lemma {:induction false} PendingUntilWritten(w: World, ops: seq<Op>, id: EventId)
    requires Partition(w.s) && id in w.s.pending
    requires forall op <- ops :: !Settles(op, id)
    ensures id in Run(w, ops).s.pending
  {
    if ops != [] {
      var before := ops[..|ops| - 1];
      PendingUntilWritten(w, before, id);
      PartitionAlways(w, before);
      StepLeavesPending(Run(w, before), ops[|ops| - 1], id);
    }
  }

  /** Reconciling with a snapshot of any age drops no pending event, revives no ended one, and changes
      neither the outcomes nor the log; with the whole raw log every raw event becomes known. */
  lemma StaleSnapshotIsSafe(w: World, age: nat)
    requires Partition(w.s)
    ensures
      var after := Step(w, Reconcile(age)).s;
      && w.s.pending <= after.pending
      && after.pending !! w.s.terminal.Keys
      && after.terminal == w.s.terminal && after.log == w.s.log
      && (age >= |w.raw| ==> IdSet(w.raw) <= after.known)
      && after.pending <= w.s.pending + Snapshot(w.raw, age)
  {
  }

  // ---------------------------------------------------------------- counting

  lemma SizeOfParts<T>(whole: set<T>, a: set<T>, b: set<T>, c: set<T>, d: set<T>, e: set<T>, f: set<T>)
    requires a !! b !! c !! d !! e !! f
    requires forall x :: x in whole <==> x in a || x in b || x in c || x in d || x in e || x in f
    ensures |whole| == |a| + |b| + |c| + |d| + |e| + |f|
  {
    assert whole == a + b + c + d + e + f;
  }

  /** In a partitioned state the counts add up. */
  lemma CountsAddUp(s: State)
    requires Partition(s)
    ensures
      var ids := s.terminal.Keys;
      |s.known| == |s.pending| + |EndedIds(ids, s, Integrated)| + |EndedIds(ids, s, Skipped)|
                   + |EndedIds(ids, s, Failed)| + |EndedIds(ids, s, Unknown)|
  {
    var ids := s.terminal.Keys;
    forall id | id in s.known && id !in s.pending ensures ValidTerminal(s.terminal[id].status) {
      assert id in s.terminal;
    }
    SizeOfParts(s.known, s.pending, EndedIds(ids, s, Integrated), EndedIds(ids, s, Skipped),
                EndedIds(ids, s, Failed), EndedIds(ids, s, Unknown), {});
  }

  /** The reasons partition the unknown events: legacy and foreign reasons count as unclassified. */
  lemma ReasonsAddUp(s: State)
    ensures
      var ids := s.terminal.Keys;
      |EndedIds(ids, s, Unknown)| ==
        |Filed(ids, s, NO_PER_EVENT_VERDICT)| + |Filed(ids, s, MALFORMED_VERDICT)|
        + |Filed(ids, s, TURN_ENDED_NO_OUTPUT)| + |Filed(ids, s, PARSER_ERROR)|
        + |Filed(ids, s, RECOVERED_FROM_CRASH)| + |Filed(ids, s, UNCLASSIFIED)|
  {
    var ids := s.terminal.Keys;
    FiledDisjoint(ids, s, NO_PER_EVENT_VERDICT);
    FiledDisjoint(ids, s, MALFORMED_VERDICT);
    FiledDisjoint(ids, s, TURN_ENDED_NO_OUTPUT);
    FiledDisjoint(ids, s, PARSER_ERROR);
    FiledDisjoint(ids, s, RECOVERED_FROM_CRASH);
    ReasonsDiffer();
    SizeOfParts(EndedIds(ids, s, Unknown), Filed(ids, s, NO_PER_EVENT_VERDICT), Filed(ids, s, MALFORMED_VERDICT),
                Filed(ids, s, TURN_ENDED_NO_OUTPUT), Filed(ids, s, PARSER_ERROR),
                Filed(ids, s, RECOVERED_FROM_CRASH), Filed(ids, s, UNCLASSIFIED));
  }

  lemma FiledDisjoint(ids: set<EventId>, s: State, reason: string)
    ensures forall other :: other != reason ==> Filed(ids, s, reason) !! Filed(ids, s, other)
  {
  }

  lemma ReasonsDiffer()
    ensures NO_PER_EVENT_VERDICT != MALFORMED_VERDICT && NO_PER_EVENT_VERDICT != TURN_ENDED_NO_OUTPUT
    ensures NO_PER_EVENT_VERDICT != PARSER_ERROR && NO_PER_EVENT_VERDICT != RECOVERED_FROM_CRASH
    ensures NO_PER_EVENT_VERDICT != UNCLASSIFIED && MALFORMED_VERDICT != TURN_ENDED_NO_OUTPUT
    ensures MALFORMED_VERDICT != PARSER_ERROR && MALFORMED_VERDICT != RECOVERED_FROM_CRASH
    ensures MALFORMED_VERDICT != UNCLASSIFIED && TURN_ENDED_NO_OUTPUT != PARSER_ERROR
    ensures TURN_ENDED_NO_OUTPUT != RECOVERED_FROM_CRASH && TURN_ENDED_NO_OUTPUT != UNCLASSIFIED
    ensures PARSER_ERROR != RECOVERED_FROM_CRASH && PARSER_ERROR != UNCLASSIFIED
    ensures RECOVERED_FROM_CRASH != UNCLASSIFIED
  {
    assert NO_PER_EVENT_VERDICT[0] == 'n' && MALFORMED_VERDICT[0] == 'm' && TURN_ENDED_NO_OUTPUT[0] == 't';
    assert PARSER_ERROR[0] == 'p' && RECOVERED_FROM_CRASH[0] == 'r' && UNCLASSIFIED[0] == 'u';
  }

  // ---------------------------------------------------------------- agreement with the log

  /** Memory says what a replay of the log would, and the log ends in a newline. */
  ghost predicate Agrees(s: State) {
    s.log.Present? && !s.log.torn && s.terminal == Replay(s.log.lines)
  }

  lemma {:induction false} ReplayRows(lines: seq<Line>, s: State, entries: seq<StatusEntry>)
    requires s.terminal == Replay(lines) && forall e <- entries :: Writable(e)
    ensures WithEntries(s, entries).terminal == Replay(lines + ParsedLines(RowsOf(entries)))
    ensures WithEntries(s, entries).log == s.log
  {
    var rows := ParsedLines(RowsOf(entries));
    if entries == [] {
      assert lines + rows == lines;
    } else {
      var before := entries[..|entries| - 1];
      ReplayRows(lines, s, before);
      assert (lines + rows)[..|lines + rows| - 1] == lines + ParsedLines(RowsOf(before));
      assert Writable(entries[|entries| - 1]);
    }
  }

  lemma NormalizedWritable(entries: seq<StatusEntry>)
    requires forall e <- entries :: Writable(e)
    ensures forall e <- NormalizeAll(entries) :: Writable(e)
  {
    forall e | e in NormalizeAll(entries) ensures Writable(e) {
      var i :| 0 <= i < |entries| && e == Normalize(entries[i]);
      assert entries[i] in entries;
    }
  }

  /** Nothing reached the disk, or everything did. */
  predicate Clean(io: AppendIo) {
    io.Done? || io.NotOpened? || (io.written == 0 && !io.partial)
  }

  /** The steps after which memory and log still agree. */
  predicate Orderly(w: World, op: Op) {
    match op
    case Append(_) => true
    case Reconcile(_) => true
    case Notify(id) => id !in w.s.terminal
    case Write(_, io) => Clean(io)
    case Tombstone(_, io) => Clean(io)
  }

  lemma StepAgrees(w: World, op: Op)
    requires Agrees(w.s) && Orderly(w, op)
    ensures Agrees(Step(w, op).s)
  {
    var lines := w.s.log.lines;
    match op
    case Write(entries, io) =>
      assert lines + ParsedLines(RowsOf(NormalizeAll(entries))[..0]) == lines;
      if forall e <- entries :: Writable(e) {
        NormalizedWritable(entries);
        assert RowsOf(NormalizeAll(entries))[..|entries|] == RowsOf(NormalizeAll(entries));
        ReplayRows(lines, w.s.(log := AppendTo(w.s.log, RowsOf(NormalizeAll(entries)), io)), NormalizeAll(entries));
      }
    case Tombstone(id, io) =>
      assert lines + ParsedLines([Reset(id)][..0]) == lines;
      assert (lines + [Parsed(Reset(id))])[..|lines|] == lines;
      assert ParsedLines([Reset(id)][..1]) == [Parsed(Reset(id))];
    case Notify(id) => assert id !in w.s.terminal ==> w.s.terminal - {id} == w.s.terminal;
    case _ =>
  }

  ghost predicate OrderlyRun(w: World, ops: seq<Op>) {
    forall i :: 0 <= i < |ops| ==> Orderly(Run(w, ops[..i]), ops[i])
  }

  /** Over every run of orderly steps the in-memory outcomes equal the replay of the log. */
  lemma {:induction false} AgreesAlways(w: World, ops: seq<Op>)
    requires Agrees(w.s) && OrderlyRun(w, ops)
    ensures Agrees(Run(w, ops).s)
  {
    if ops != [] {
      var before := ops[..|ops| - 1];
      forall i | 0 <= i < |before| ensures Orderly(Run(w, before[..i]), before[i]) {
        assert before[..i] == ops[..i];
      }
      AgreesAlways(w, before);
      StepAgrees(Run(w, before), ops[|ops| - 1]);
    }
  }

  /** A notify keeps the agreement exactly when the event had not ended: the log is never told. */
  lemma NotifyAgreesIff(s: State, id: EventId)
    requires Agrees(s) && !id.Empty()
    ensures Agrees(Notified(s, id)) <==> id !in s.terminal
  {
    if id !in s.terminal {
      assert s.terminal - {id} == s.terminal;
    } else {
      assert id !in Notified(s, id).terminal;
    }
  }

  /** No later row is about the same event. */
  ghost predicate LastAbout(rows: seq<StatusEntry>, k: nat)
    requires k < |rows|
  {
    forall j :: k < j < |rows| ==> rows[j].eventId != rows[k].eventId
  }

  /** The last row about each event says what is known of it already. */
  ghost predicate Repeats(terminal: map<EventId, EventStatus>, rows: seq<StatusEntry>) {
    forall k :: 0 <= k < |rows| && LastAbout(rows, k) ==>
      rows[k].eventId in terminal && terminal[rows[k].eventId] == rows[k].outcome
  }

  lemma {:induction false} LastRowFound(rows: seq<StatusEntry>, id: EventId) returns (k: int)
    ensures -1 <= k < |rows|
    ensures k < 0 ==> forall j :: 0 <= j < |rows| ==> rows[j].eventId != id
    ensures k >= 0 ==> rows[k].eventId == id && LastAbout(rows, k)
  {
    k := |rows| - 1;
    if rows != [] && rows[k].eventId != id {
      k := LastRowFound(rows[..|rows| - 1], id);
    }
  }

  lemma {:induction false} RowsDecide(s: State, rows: seq<StatusEntry>, id: EventId)
    ensures
      var after := WithEntries(s, rows).terminal;
      && (forall k :: 0 <= k < |rows| && rows[k].eventId == id && LastAbout(rows, k) ==>
            id in after && after[id] == rows[k].outcome)
      && ((forall k :: 0 <= k < |rows| ==> rows[k].eventId != id) ==>
            (id in after <==> id in s.terminal) && (id in after ==> after[id] == s.terminal[id]))
  {
    if rows != [] {
      var before, last := rows[..|rows| - 1], rows[|rows| - 1];
      RowsDecide(s, before, id);
      if last.eventId != id {
        forall k | 0 <= k < |rows| && rows[k].eventId == id && LastAbout(rows, k) ensures LastAbout(before, k) {
          assert forall j :: k < j < |before| ==> before[j] == rows[j];
        }
      }
    }
  }

  lemma RepeatsIff(s: State, rows: seq<StatusEntry>)
    ensures WithEntries(s, rows).terminal == s.terminal <==> Repeats(s.terminal, rows)
  {
    var after := WithEntries(s, rows).terminal;
    if after == s.terminal {
      forall k | 0 <= k < |rows| && LastAbout(rows, k)
        ensures rows[k].eventId in s.terminal && s.terminal[rows[k].eventId] == rows[k].outcome
      {
        RowsDecide(s, rows, rows[k].eventId);
      }
    }
    if Repeats(s.terminal, rows) {
      forall id ensures (id in after <==> id in s.terminal) && (id in after ==> after[id] == s.terminal[id]) {
        RowsDecide(s, rows, id);
        var k := LastRowFound(rows, id);
      }
    }
  }

  /** How many rows of a failed append reached the file whole. */
  function WholeRows(count: nat, io: AppendIo): nat {
    if !io.Stopped? then 0 else if io.written > count then count else io.written
  }

  /** A status write that fails keeps the agreement exactly when no row was cut and the rows that reached
      the file repeat what memory holds. */
  lemma FailedWriteAgreesIff(s: State, entries: seq<StatusEntry>, io: AppendIo)
    requires Agrees(s) && entries != [] && (forall e <- entries :: Writable(e)) && !io.Done?
    ensures
      var whole := WholeRows(|entries|, io);
      Agrees(Written(s, entries, io)) <==>
        !(io.Stopped? && io.partial && whole < |entries|) && Repeats(s.terminal, NormalizeAll(entries)[..whole])
  {
    var lines, normalized, whole := s.log.lines, NormalizeAll(entries), WholeRows(|entries|, io);
    var rows := normalized[..whole];
    NormalizedWritable(entries);
    RepeatsIff(s, rows);
    ReplayRows(lines, s, rows);
    if io.Stopped? {
      assert RowsOf(normalized)[..whole] == RowsOf(rows);
      assert Written(s, entries, io).log.lines == lines + ParsedLines(RowsOf(rows));
    }
  }

  /** A reset that fails keeps the agreement exactly when nothing of it reached the file, or all of it did
      and the event had no outcome. */
  lemma FailedResetAgreesIff(s: State, id: EventId, io: AppendIo)
    requires Agrees(s) && !id.Empty() && !io.Done?
    ensures Agrees(Tombstoned(s, id, io)) <==>
      io.NotOpened? || (io.written == 0 && !io.partial) || (io.written > 0 && id !in s.terminal)
  {
    var lines, line := s.log.lines, Parsed(Reset(id));
    ReplayAfter(lines, line);
    if io.Stopped? {
      if io.written == 0 {
        assert lines + ParsedLines([Reset(id)][..0]) == lines;
      } else {
        assert ParsedLines([Reset(id)][..1]) == [line];
        assert id in s.terminal ==> id !in Replay(lines + [line]);
        assert id !in s.terminal ==> s.terminal - {id} == s.terminal;
      }
    }
  }

  lemma ReplayAfter(lines: seq<Line>, line: Line)
    ensures Replay(lines + [line]) == if ValidLine(line) then ApplyRecord(Replay(lines), line.record) else Replay(lines)
  {
    assert (lines + [line])[..|lines|] == lines;
  }

  lemma ParsedAfter(records: seq<Record>, record: Record)
    ensures ParsedLines(records + [record]) == ParsedLines(records) + [Parsed(record)]
  {
  }

  lemma {:induction false} BootstrapReplays(events: seq<RawEvent>, epoch: int, header: Record)
    requires header.Bootstrap? && forall e <- events :: !e.id.Empty()
    ensures Replay(ParsedLines([header] + BootstrapRows(events, epoch))) == BootstrapTerminal(events, epoch)
  {
    if events == [] {
      assert [header] + BootstrapRows([], epoch) == [] + [header];
      ParsedAfter([], header);
      ReplayAfter([], Parsed(header));
    } else {
      var before, last := events[..|events| - 1], events[|events| - 1];
      var records := [header] + BootstrapRows(before, epoch);
      BootstrapReplays(before, epoch, header);
      if last.createdAt < epoch {
        var row := Row(StatusEntry(last.id, BOOTSTRAPPED));
        assert last in events;
        assert [header] + BootstrapRows(events, epoch) == records + [row];
        ParsedAfter(records, row);
        ReplayAfter(ParsedLines(records), Parsed(row));
      } else {
        assert [header] + BootstrapRows(events, epoch) == records;
      }
    }
  }

  /** A fresh bootstrap file replays to the memory it was written with. */
  lemma BootstrapAgrees(events: seq<RawEvent>, epoch: int, epochText: string)
    requires forall e <- events :: !e.id.Empty()
    ensures Agrees(BootstrapState(events, epoch, epochText))
  {
    BootstrapReplays(events, epoch, Bootstrap(epochText));
  }

  // ---------------------------------------------------------------- the last record wins

  predicate About(line: Line, id: EventId) {
    && ValidLine(line)
    && ((line.record.Reset? && line.record.eventId == id) || (line.record.Row? && line.record.entry.eventId == id))
  }

  /** The replay gives each event the outcome in the last valid record about it, and none if that
      record is a reset or there is no record. */
  lemma {:induction false} LastRecordWins(lines: seq<Line>, id: EventId, last: nat)
    requires last < |lines| && About(lines[last], id)
    requires forall i :: last < i < |lines| ==> !About(lines[i], id)
    ensures id in Replay(lines) <==> lines[last].record.Row?
    ensures lines[last].record.Row? ==> Replay(lines)[id] == lines[last].record.entry.outcome
  {
    var n := |lines| - 1;
    if last < n {
      LastRecordWins(lines[..n], id, last);
      assert !About(lines[n], id);
    }
  }

  lemma {:induction false} NoRecordNoOutcome(lines: seq<Line>, id: EventId)
    requires forall i :: 0 <= i < |lines| ==> !About(lines[i], id)
    ensures id !in Replay(lines)
  {
    if lines != [] {
      NoRecordNoOutcome(lines[..|lines| - 1], id);
      assert !About(lines[|lines| - 1], id);
    }
  }

  // ---------------------------------------------------------------- restarting

  /** Restarting from a log that agrees with memory is a reconciliation with the whole raw log. */
  lemma RestartIsReconcile(w: World, events: seq<RawEvent>, epoch: EpochConfig, now: int, epochText: string,
      installed: bool)
    requires Agrees(w.s) && w.s.log.lines != [] && w.raw == RawIds(events)
    requires Partition(w.s) && w.s.pending <= IdSet(w.raw)
    ensures
      match Load(w.s.log.lines, false)
      case Err(cause) => OpenState(w.s.log, events, epoch, now, epochText, installed) == Refused(LoadFailed(cause))
      case Ok(_) => OpenState(w.s.log, events, epoch, now, epochText, installed) == Open(Step(w, Reconcile(|w.raw|)).s)
  {
    if Load(w.s.log.lines, false).Ok? {
      var known := IdSet(w.raw);
      assert CarriedOver(known, known, w.s.terminal) == {};
      assert CarriedOver(w.s.pending, known, w.s.terminal) == {};
      assert w.raw[..|w.raw|] == w.raw;
    }
  }

  /** A crash anywhere inside an append: the restart finds the old log plus the records that were
      written whole, or refuses the file because of bad lines, of which the crash adds at most one. */
  lemma CrashedAppend(s: State, records: seq<Record>, written: nat, partial: bool)
    requires s.log.Present? && !s.log.torn && written <= |records|
    ensures
      var file := AppendTo(s.log, records, Stopped(written, partial));
      && file.Present?
      && file.lines == s.log.lines + ParsedLines(records[..written])
      && (Load(file.lines, file.torn).Ok? ==>
            Load(file.lines, file.torn) == Ok(Replay(s.log.lines + ParsedLines(records[..written]))))
      && (InvalidLines(s.log.lines) == 0 && s.log.lines != [] && (forall r <- records :: ValidRecord(r)) ==>
            Load(file.lines, file.torn).Ok?)
  {
    var added := ParsedLines(records[..written]);
    if forall r <- records :: ValidRecord(r) {
      ValidLinesAdd(s.log.lines, added);
    }
  }

  lemma {:induction false} ValidLinesAdd(lines: seq<Line>, added: seq<Line>)
    requires forall i :: 0 <= i < |added| ==> ValidLine(added[i])
    ensures InvalidLines(lines + added) == InvalidLines(lines)
  {
    if added == [] {
      assert lines + added == lines;
    } else {
      assert (lines + added)[..|lines + added| - 1] == lines + added[..|added| - 1];
      ValidLinesAdd(lines, added[..|added| - 1]);
    }
  }

  /** Why the log must have ended in a newline: the record after a torn line is lost with it. */
  lemma TornLineSwallowsNextRecord(lines: seq<Line>, id: EventId, outcome: EventStatus)
    requires ValidTerminal(outcome.status) && !id.Empty() && id !in Replay(lines)
    ensures
      var file := AppendTo(Present(lines, true), [Row(StatusEntry(id, outcome))], Done);
      file.Present? && !file.torn && id !in Replay(file.lines)
  {
    var row := Row(StatusEntry(id, outcome));
    var added := ParsedLines([row][..1]);
    assert |added| == 1 && added[1..] == [] && [Garbage] + added[1..] == [Garbage];
    assert AppendTo(Present(lines, true), [row], Done) == Present(lines + [Garbage], false);
    ReplayAfter(lines, Garbage);
  }
}
