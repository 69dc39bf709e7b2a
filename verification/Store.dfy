/** The pending-event store of `internal/agent/store.go`: three in-memory collections that cache an
    append-only status log in which the last record about an event wins. */
module Store {
  import opened Ordering
  import opened Reasons

  /** `Invalid` stands for every status text that is not one of the four terminal ones. */
  datatype Status = Integrated | Skipped | Failed | Unknown | Invalid(text: string)

  datatype EventId = EventId(text: string) {
    predicate Empty() {
      text == ""
    }
  }

  datatype EventStatus = EventStatus(
    status: Status, batchId: string, reason: string, pages: seq<string>, transcript: string)

  datatype StatusEntry = StatusEntry(eventId: EventId, outcome: EventStatus)

  /** A record as it was parsed from one line of the log. */
  datatype Record = Bootstrap(epoch: string) | Reset(eventId: EventId) | Row(entry: StatusEntry) | Foreign(kind: string)

  datatype Line = Parsed(record: Record) | Garbage

  /** The status file: its newline-terminated lines, and whether an unterminated one follows them. */
  datatype LogFile = Absent | Present(lines: seq<Line>, torn: bool)

  /** How far an append gets: not even opened, or so many whole records and perhaps part of the next one.
      Writing everything but failing to sync is `Stopped(|records|, false)`. */
  datatype AppendIo = Done | NotOpened | Stopped(written: nat, partial: bool)

  datatype WriteError = NoError | MissingEventId | InvalidStatus | AppendFailed | ScanFailed

  datatype LoadError = Unparseable | TooCorrupt

  datatype Loaded = Ok(terminal: map<EventId, EventStatus>) | Err(error: LoadError)

  datatype RawEvent = RawEvent(id: EventId, createdAt: int)

  datatype State = State(known: set<EventId>, pending: set<EventId>, terminal: map<EventId, EventStatus>, log: LogFile)

  // ---------------------------------------------------------------- the log

  predicate ValidTerminal(status: Status) {
    !status.Invalid?
  }

  predicate ValidRecord(record: Record) {
    match record
    case Bootstrap(epoch) => epoch != ""
    case Reset(eventId) => !eventId.Empty()
    case Row(entry) => !entry.eventId.Empty() && ValidTerminal(entry.outcome.status)
    case Foreign(_) => false
  }

  predicate ValidLine(line: Line) {
    line.Parsed? && ValidRecord(line.record)
  }

  function ApplyRecord(terminal: map<EventId, EventStatus>, record: Record): map<EventId, EventStatus> {
    match record
    case Reset(eventId) => terminal - {eventId}
    case Row(entry) => terminal[entry.eventId := entry.outcome]
    case _ => terminal
  }

  /** What the lines say, the last word on each event winning; lines that do not parse say nothing. */
  function Replay(lines: seq<Line>): map<EventId, EventStatus> {
    if lines == [] then map[]
    else
      var before := Replay(lines[..|lines| - 1]);
      var last := lines[|lines| - 1];
      if ValidLine(last) then ApplyRecord(before, last.record) else before
  }

  function InvalidLines(lines: seq<Line>): (n: nat)
    ensures n <= |lines|
  {
    if lines == [] then 0
    else InvalidLines(lines[..|lines| - 1]) + if ValidLine(lines[|lines| - 1]) then 0 else 1
  }

  /** Loading: an unterminated line is always dropped, and too many bad lines refuse the file. */
  function Load(lines: seq<Line>, torn: bool): Loaded {
    var skipped := InvalidLines(lines) + if torn then 1 else 0;
    var total := |lines| + if torn then 1 else 0;
    if total > 0 && InvalidLines(lines) == |lines| then Err(Unparseable)
    else if skipped > 10 && 10 * skipped > total then Err(TooCorrupt)
    else Ok(Replay(lines))
  }

  /** The file after an append: a torn line that was already there swallows the first record. */
  function AppendTo(file: LogFile, records: seq<Record>, io: AppendIo): LogFile {
    if io.NotOpened? then file
    else
      var written := if io.Done? || io.written > |records| then |records| else io.written;
      var partial := io.Stopped? && io.partial && written < |records|;
      var lines := if file.Present? then file.lines else [];
      var torn := file.Present? && file.torn;
      var added := ParsedLines(records[..written]);
      Present(lines + (if torn && added != [] then [Garbage] + added[1..] else added),
              partial || (torn && added == []))
  }

  function ParsedLines(records: seq<Record>): (lines: seq<Line>)
    ensures |lines| == |records|
    ensures forall i :: 0 <= i < |records| ==> lines[i] == Parsed(records[i])
  {
    seq(|records|, i requires 0 <= i < |records| => Parsed(records[i]))
  }

  // ---------------------------------------------------------------- writing

  /** Unknown outcomes are filed under the closed reason list and always name a transcript. */
  function Normalize(entry: StatusEntry): StatusEntry {
    if entry.outcome.status != Unknown then entry
    else
      entry.(outcome := entry.outcome.(
        reason := ClampReason(entry.outcome.reason),
        transcript := if entry.outcome.transcript == "" then TRANSCRIPT_UNAVAILABLE else entry.outcome.transcript))
  }

  function NormalizeAll(entries: seq<StatusEntry>): (normalized: seq<StatusEntry>)
    ensures |normalized| == |entries|
    ensures forall i :: 0 <= i < |entries| ==> normalized[i] == Normalize(entries[i])
  {
    seq(|entries|, i requires 0 <= i < |entries| => Normalize(entries[i]))
  }

  function RowsOf(entries: seq<StatusEntry>): (rows: seq<Record>)
    ensures |rows| == |entries|
    ensures forall i :: 0 <= i < |entries| ==> rows[i] == Row(entries[i])
  {
    seq(|entries|, i requires 0 <= i < |entries| => Row(entries[i]))
  }

  predicate Writable(entry: StatusEntry) {
    !entry.eventId.Empty() && ValidTerminal(entry.outcome.status)
  }

  function WithEntry(s: State, entry: StatusEntry): State {
    s.(known := s.known + {entry.eventId},
       terminal := s.terminal[entry.eventId := entry.outcome],
       pending := s.pending - {entry.eventId})
  }

  function WithEntries(s: State, entries: seq<StatusEntry>): State {
    if entries == [] then s
    else WithEntry(WithEntries(s, entries[..|entries| - 1]), entries[|entries| - 1])
  }

  /** `WriteStatuses`: memory follows the file only when the whole append succeeded. */
  function Written(s: State, entries: seq<StatusEntry>, io: AppendIo): State {
    if entries == [] || !(forall e <- entries :: Writable(e)) then s
    else
      var normalized := NormalizeAll(entries);
      var appended := s.(log := AppendTo(s.log, RowsOf(normalized), io));
      if io.Done? then WithEntries(appended, normalized) else appended
  }

  function Tombstoned(s: State, eventId: EventId, io: AppendIo): State {
    if eventId.Empty() then s
    else
      var appended := s.(log := AppendTo(s.log, [Reset(eventId)], io));
      if io.Done? then Notified(appended, eventId) else appended
  }

  /** `NotifyAppended`: the event is pending again, and the log is not told. */
  function Notified(s: State, eventId: EventId): State {
    if eventId.Empty() then s
    else
      s.(known := s.known + {eventId}, terminal := s.terminal - {eventId}, pending := s.pending + {eventId})
  }

  /** `reconcilePending` against a snapshot of the raw event log, however old. */
  function Reconciled(s: State, snapshot: set<EventId>): State {
    var kept := CarriedOver(s.pending, snapshot, s.terminal);
    s.(known := snapshot + kept, pending := snapshot - s.terminal.Keys + kept)
  }

  // ---------------------------------------------------------------- opening

  datatype EpochConfig = Unset | Unreadable | At(instant: int)

  datatype OpenError = MissingEpoch | BadEpoch | BootstrapFailed | EmptyStatusFile | LoadFailed(cause: LoadError)

  datatype Opened = Open(state: State) | Refused(error: OpenError)

  const BOOTSTRAPPED := EventStatus(Integrated, "", "pre_epoch_bootstrap", [], "")

  function RawIds(events: seq<RawEvent>): (ids: seq<EventId>)
    ensures |ids| == |events| && forall i :: 0 <= i < |events| ==> ids[i] == events[i].id
  {
    seq(|events|, i requires 0 <= i < |events| => events[i].id)
  }

  function IdSet(ids: seq<EventId>): set<EventId> {
    set id | id in ids
  }

  /** The rows of a bootstrap: every event from before the epoch counts as integrated. */
  function BootstrapRows(events: seq<RawEvent>, epoch: int): seq<Record> {
    if events == [] then []
    else
      var event := events[|events| - 1];
      BootstrapRows(events[..|events| - 1], epoch) +
      if event.createdAt < epoch then [Row(StatusEntry(event.id, BOOTSTRAPPED))] else []
  }

  function BootstrapTerminal(events: seq<RawEvent>, epoch: int): map<EventId, EventStatus> {
    if events == [] then map[]
    else
      var event := events[|events| - 1];
      var before := BootstrapTerminal(events[..|events| - 1], epoch);
      if event.createdAt < epoch then before[event.id := BOOTSTRAPPED] else before
  }

  /** The bootstrap file is written aside and renamed into place, so it appears whole or not at all. */
  function BootstrapState(events: seq<RawEvent>, epoch: int, epochText: string): State {
    var lines := ParsedLines([Bootstrap(epochText)] + BootstrapRows(events, epoch));
    var terminal := BootstrapTerminal(events, epoch);
    var known := IdSet(RawIds(events));
    State(known, known - terminal.Keys, terminal, Present(lines, false))
  }

  /** `NewPendingEventStore`; `now` is the clock reading that an empty event log is bootstrapped with. */
  function OpenState(
      file: LogFile, events: seq<RawEvent>, epoch: EpochConfig, now: int, epochText: string, installed: bool): Opened {
    match file
    case Absent =>
      if epoch.Unset? && events != [] then Refused(MissingEpoch)
      else if epoch.Unreadable? then Refused(BadEpoch)
      else if !installed then Refused(BootstrapFailed)
      else Open(BootstrapState(events, if epoch.At? then epoch.instant else now, epochText))
    case Present(lines, torn) =>
      var known := IdSet(RawIds(events));
      if lines == [] && !torn then
        if events != [] then Refused(EmptyStatusFile) else Open(State(known, known, map[], file))
      else
        match Load(lines, torn)
        case Err(cause) => Refused(LoadFailed(cause))
        case Ok(terminal) => Open(Reconciled(State(known, known, terminal, file), known))
  }

  /** Pending events that the snapshot is too old to hold. */
  function CarriedOver(
      pending: set<EventId>, snapshot: set<EventId>, terminal: map<EventId, EventStatus>): set<EventId> {
    pending - snapshot - terminal.Keys
  }

  // ---------------------------------------------------------------- counting

  datatype StatusCounts = StatusCounts(total: nat, pending: nat, integrated: nat, skipped: nat, failed: nat,
    unknown: nat)

  /** The events among `ids` that are known and have ended with the status. */
  ghost function EndedIds(ids: set<EventId>, s: State, status: Status): set<EventId> {
    set id | id in ids && id in s.known && id in s.terminal && s.terminal[id].status == status
  }

  /** Those whose unknown outcome is filed under the reason. */
  ghost function Filed(ids: set<EventId>, s: State, reason: string): set<EventId> {
    set id | id in ids && id in s.known && id in s.terminal && s.terminal[id].status == Unknown
             && ClampReason(s.terminal[id].reason) == reason
  }

  lemma EndedNext(ids: set<EventId>, id: EventId, s: State, status: Status)
    requires id !in ids && id in s.terminal
    ensures |EndedIds(ids + {id}, s, status)| ==
      |EndedIds(ids, s, status)| + if id in s.known && s.terminal[id].status == status then 1 else 0
  {
    if id in s.known && s.terminal[id].status == status {
      assert EndedIds(ids + {id}, s, status) == EndedIds(ids, s, status) + {id};
    } else {
      assert EndedIds(ids + {id}, s, status) == EndedIds(ids, s, status);
    }
  }

  /** The counts are the numbers of known ids of the set that ended with each status. */
  ghost predicate Counted(counts: StatusCounts, ids: set<EventId>, s: State) {
    && counts.integrated == |EndedIds(ids, s, Integrated)|
    && counts.skipped == |EndedIds(ids, s, Skipped)|
    && counts.failed == |EndedIds(ids, s, Failed)|
    && counts.unknown == |EndedIds(ids, s, Unknown)|
  }

  lemma CountedNext(counts: StatusCounts, ids: set<EventId>, id: EventId, s: State)
    requires Counted(counts, ids, s) && id !in ids && id in s.terminal
    ensures
      var status, more := s.terminal[id].status, if id in s.known then 1 else 0;
      forall next: StatusCounts ::
        && next.integrated == counts.integrated + (if status == Integrated then more else 0)
        && next.skipped == counts.skipped + (if status == Skipped then more else 0)
        && next.failed == counts.failed + (if status == Failed then more else 0)
        && next.unknown == counts.unknown + (if status == Unknown then more else 0) ==>
        Counted(next, ids + {id}, s)
  {
    EndedNext(ids, id, s, Integrated);
    EndedNext(ids, id, s, Skipped);
    EndedNext(ids, id, s, Failed);
    EndedNext(ids, id, s, Unknown);
  }

  lemma FiledNext(ids: set<EventId>, id: EventId, s: State, reason: string)
    requires id !in ids && id in s.terminal
    ensures |Filed(ids + {id}, s, reason)| == |Filed(ids, s, reason)| +
      if id in s.known && s.terminal[id].status == Unknown && ClampReason(s.terminal[id].reason) == reason then 1 else 0
  {
    if id in s.known && s.terminal[id].status == Unknown && ClampReason(s.terminal[id].reason) == reason {
      assert Filed(ids + {id}, s, reason) == Filed(ids, s, reason) + {id};
    } else {
      assert Filed(ids + {id}, s, reason) == Filed(ids, s, reason);
    }
  }

  // ---------------------------------------------------------------- recovering

  /** What a crash leaves of an event that some page already names: contact, but no verdict. */
  const RECOVERED := EventStatus(Unknown, "", RECOVERED_FROM_CRASH, [], TRANSCRIPT_UNAVAILABLE)

  /** The events of the snapshot that have not ended, in the order of the snapshot. */
  function StillPending(snapshot: seq<EventId>, terminal: map<EventId, EventStatus>): (pending: seq<EventId>)
    ensures forall id :: id in pending <==> id in snapshot && id !in terminal
  {
    if snapshot == [] then []
    else
      var last := snapshot[|snapshot| - 1];
      StillPending(snapshot[..|snapshot| - 1], terminal) + if last in terminal then [] else [last]
  }

  predicate IdLe(a: EventId, b: EventId) {
    StringLe(a.text, b.text)
  }

  /** Each id once. */
  ghost predicate Distinct(ids: seq<EventId>) {
    forall i, j :: 0 <= i < j < |ids| ==> ids[i] != ids[j]
  }

  /** Each id once, in the order of their texts. */
  ghost predicate InOrder(ids: seq<EventId>) {
    Sorted(ids, IdLe) && Distinct(ids)
  }

  lemma IdOrder()
    ensures TotalPreorder(IdLe)
  {
    StringOrder();
  }

  lemma SortedIds(ids: seq<EventId>)
    requires Distinct(ids)
    ensures InOrder(Sort(ids, IdLe))
    ensures forall id :: id in Sort(ids, IdLe) <==> id in ids
  {
    var sorted := Sort(ids, IdLe);
    IdOrder();
    SortSorts(ids, IdLe);
    forall id ensures id in sorted <==> id in ids {
      assert id in multiset(sorted) <==> id in multiset(ids);
    }
    DistinctBag(ids);
    BagDistinct(sorted);
  }

  lemma {:induction false} DistinctBag(ids: seq<EventId>)
    requires Distinct(ids)
    ensures forall id :: multiset(ids)[id] <= 1
  {
    if ids != [] {
      var before, last := ids[..|ids| - 1], ids[|ids| - 1];
      DistinctBag(before);
      assert ids == before + [last] && last !in before;
    }
  }

  lemma {:induction false} BagDistinct(ids: seq<EventId>)
    requires forall id :: multiset(ids)[id] <= 1
    ensures Distinct(ids)
  {
    if ids != [] {
      var before, last := ids[..|ids| - 1], ids[|ids| - 1];
      assert ids == before + [last];
      assert multiset(ids) == multiset(before) + multiset{last};
      forall id ensures multiset(before)[id] <= 1 && multiset(before)[last] == 0 {
        assert multiset(ids)[id] == multiset(before)[id] + multiset{last}[id];
        assert multiset(ids)[last] == multiset(before)[last] + multiset{last}[last];
      }
      BagDistinct(before);
      assert last !in multiset(before);
    }
  }

  function RecoveryEntries(ids: seq<EventId>): (entries: seq<StatusEntry>)
    ensures |entries| == |ids|
    ensures forall i :: 0 <= i < |ids| ==> entries[i] == StatusEntry(ids[i], RECOVERED)
  {
    seq(|ids|, i requires 0 <= i < |ids| => StatusEntry(ids[i], RECOVERED))
  }

  datatype CurrentStatus = NotFound | Pending | Ended(outcome: EventStatus)

  // ---------------------------------------------------------------- the store

  class PendingEventStore {
    var knownIDs: set<EventId>
    var pendingIDs: set<EventId>
    var terminal: map<EventId, EventStatus>
    /** The status file, which outlives the object. */
    var log: LogFile

    function Value(): State
      reads this
    {
      State(knownIDs, pendingIDs, terminal, log)
    }

    /** A store over a file that exists and is not empty: what remains is to load and reconcile. */
    constructor (file: LogFile, events: set<EventId>)
      ensures Value() == State(events, events, map[], file)
    {
      knownIDs, pendingIDs, terminal, log := events, events, map[], file;
    }

    /** `NewPendingEventStore`. */
    static method New(file: LogFile, events: seq<RawEvent>, epoch: EpochConfig, now: int, epochText: string,
        installed: bool)
      returns (store: PendingEventStore?, refusal: Opened)
      ensures OpenState(file, events, epoch, now, epochText, installed).Refused? ==>
        store == null && refusal == OpenState(file, events, epoch, now, epochText, installed)
      ensures OpenState(file, events, epoch, now, epochText, installed).Open? ==>
        store != null && fresh(store) && Open(store.Value()) ==
          OpenState(file, events, epoch, now, epochText, installed)
    {
      var ids := RawIds(events);
      refusal := Refused(BootstrapFailed);
      store := new PendingEventStore(file, IdSet(ids));
      if file.Absent? {
        if epoch.Unset? && events != [] {
          return null, Refused(MissingEpoch);
        }
        if epoch.Unreadable? {
          return null, Refused(BadEpoch);
        }
        var ok := store.BootstrapWithEvents(if epoch.At? then epoch.instant else now, epochText, events, installed);
        if !ok {
          return null, Refused(BootstrapFailed);
        }
      } else if file.lines == [] && !file.torn {
        if events != [] {
          return null, Refused(EmptyStatusFile);
        }
      } else {
        var loaded := store.LoadStatusLog();
        if loaded.Err? {
          return null, Refused(LoadFailed(loaded.error));
        }
        store.ReconcilePending(ids);
      }
    }

    method BootstrapWithEvents(epoch: int, epochText: string, events: seq<RawEvent>, installed: bool) returns (ok: bool)
      modifies this
      ensures ok <==> installed && old(log).Absent?
      ensures Value() == if ok then BootstrapState(events, epoch, epochText) else old(Value())
    {
      if log.Present? || !installed {
        return false;
      }
      var records := [Bootstrap(epochText)];
      var ended: map<EventId, EventStatus> := map[];
      for index := 0 to |events|
        invariant unchanged(this)
        invariant records == [Bootstrap(epochText)] + BootstrapRows(events[..index], epoch)
        invariant ended == BootstrapTerminal(events[..index], epoch)
      {
        assert events[..index + 1][..index] == events[..index];
        if events[index].createdAt >= epoch {
          continue;
        }
        records := records + [Row(StatusEntry(events[index].id, BOOTSTRAPPED))];
        ended := ended[events[index].id := BOOTSTRAPPED];
      }
      assert events[..|events|] == events;
      log := Present(ParsedLines(records), false);
      terminal := ended;
      knownIDs, pendingIDs := {}, {};
      for index := 0 to |events|
        invariant terminal == ended && log == Present(ParsedLines(records), false)
        invariant forall id :: id in knownIDs <==> id in RawIds(events)[..index]
        invariant forall id :: id in pendingIDs <==> id in knownIDs && id !in ended
      {
        knownIDs := knownIDs + {events[index].id};
        if events[index].id !in terminal {
          pendingIDs := pendingIDs + {events[index].id};
        }
      }
      assert RawIds(events)[..|events|] == RawIds(events);
      ok := true;
    }

    method LoadStatusLog() returns (result: Loaded)
      requires log.Present?
      modifies this
      ensures result == Load(old(log.lines), old(log.torn))
      ensures Value() == if result.Ok? then old(Value()).(terminal := result.terminal) else old(Value())
    {
      var totalLines, skippedLines, validLines := 0, 0, 0;
      var loaded: map<EventId, EventStatus> := map[];
      var lines := log.lines;
      for index := 0 to |lines|
        invariant unchanged(this)
        invariant totalLines == index && skippedLines == InvalidLines(lines[..index])
        invariant validLines == index - skippedLines && loaded == Replay(lines[..index])
      {
        assert lines[..index + 1][..index] == lines[..index];
        totalLines := totalLines + 1;
        if !ValidLine(lines[index]) {
          skippedLines := skippedLines + 1;
          continue;
        }
        validLines := validLines + 1;
        loaded := ApplyRecord(loaded, lines[index].record);
      }
      assert lines[..|lines|] == lines;
      if log.torn {
        totalLines := totalLines + 1;
        skippedLines := skippedLines + 1;
      }
      if totalLines > 0 && validLines == 0 {
        return Err(Unparseable);
      }
      if skippedLines > 10 && 10 * skippedLines > totalLines {
        return Err(TooCorrupt);
      }
      terminal := loaded;
      result := Ok(loaded);
    }

    method ReconcilePending(events: seq<EventId>)
      modifies this
      ensures Value() == Reconciled(old(Value()), set id | id in events)
    {
      var previousPending := pendingIDs;
      knownIDs, pendingIDs := {}, {};
      for index := 0 to |events|
        invariant terminal == old(terminal) && log == old(log)
        invariant knownIDs == set id | id in events[..index]
        invariant pendingIDs == knownIDs - terminal.Keys
      {
        assert events[..index + 1] == events[..index] + [events[index]];
        knownIDs := knownIDs + {events[index]};
        if events[index] !in terminal {
          pendingIDs := pendingIDs + {events[index]};
        }
      }
      assert events[..|events|] == events;
      KeepPending(previousPending);
    }

    /** The second loop of `reconcilePending`: nothing that was pending is dropped for being too new. */
    method KeepPending(previousPending: set<EventId>)
      modifies `knownIDs, `pendingIDs
      ensures knownIDs == old(knownIDs) + CarriedOver(previousPending, old(knownIDs), terminal)
      ensures pendingIDs == old(pendingIDs) + CarriedOver(previousPending, old(knownIDs), terminal)
    {
      var rest := previousPending;
      while rest != {}
        invariant rest <= previousPending
        invariant forall id :: id in knownIDs <==>
          id in old(knownIDs) || (id in previousPending && id !in rest && id !in terminal)
        invariant forall id :: id in pendingIDs <==>
          id in old(pendingIDs) || (id in previousPending && id !in rest && id !in old(knownIDs) && id !in terminal)
        decreases |rest|
      {
        var eventID :| eventID in rest;
        rest := rest - {eventID};
        if eventID in knownIDs {
          continue;
        }
        if eventID in terminal {
          continue;
        }
        knownIDs := knownIDs + {eventID};
        pendingIDs := pendingIDs + {eventID};
      }
    }

    /** The second half of `ListPendingEvents`: reconcile with the snapshot read before the lock was
        taken, and keep of that snapshot what is pending. */
    method ListPendingEvents(snapshot: seq<EventId>) returns (pending: seq<EventId>)
      modifies this
      ensures Value() == Reconciled(old(Value()), set id | id in snapshot)
      ensures pending == StillPending(snapshot, terminal)
    {
      ReconcilePending(snapshot);
      pending := [];
      for index := 0 to |snapshot|
        invariant Value() == Reconciled(old(Value()), set id | id in snapshot)
        invariant pending == StillPending(snapshot[..index], terminal)
      {
        assert snapshot[..index + 1][..index] == snapshot[..index];
        if snapshot[index] in pendingIDs {
          pending := pending + [snapshot[index]];
        }
      }
      assert snapshot[..|snapshot|] == snapshot;
    }

    method NotifyAppended(eventID: EventId)
      modifies this
      ensures Value() == Notified(old(Value()), eventID)
    {
      if eventID.Empty() {
        return;
      }
      knownIDs := knownIDs + {eventID};
      terminal := terminal - {eventID};
      pendingIDs := pendingIDs + {eventID};
    }

    method WriteStatuses(entries: seq<StatusEntry>, io: AppendIo) returns (err: WriteError)
      modifies this
      ensures Value() == Written(old(Value()), entries, io)
      ensures err == NoError <==> entries == [] || ((forall e <- entries :: Writable(e)) && io.Done?)
      ensures err != ScanFailed
    {
      if entries == [] {
        return NoError;
      }
      var normalized: seq<StatusEntry> := [];
      for index := 0 to |entries|
        invariant unchanged(this)
        invariant forall e <- entries[..index] :: Writable(e)
        invariant normalized == NormalizeAll(entries)[..index]
      {
        var entry := entries[index];
        if entry.eventId.Empty() {
          assert !Writable(entries[index]) && entries[index] in entries;
          return MissingEventId;
        }
        if !ValidTerminal(entry.outcome.status) {
          assert !Writable(entries[index]) && entries[index] in entries;
          return InvalidStatus;
        }
        if entry.outcome.status == Unknown {
          if !IsValidUnknownReason(entry.outcome.reason) {
            entry := entry.(outcome := entry.outcome.(reason := UNCLASSIFIED));
          }
          if entry.outcome.transcript == "" {
            entry := entry.(outcome := entry.outcome.(transcript := TRANSCRIPT_UNAVAILABLE));
          }
        }
        normalized := normalized + [entry];
      }
      assert entries[..|entries|] == entries && normalized == NormalizeAll(entries);
      log := AppendTo(log, RowsOf(normalized), io);
      if !io.Done? {
        return AppendFailed;
      }
      ghost var appended := Value();
      for index := 0 to |normalized|
        invariant Value() == WithEntries(appended, normalized[..index])
      {
        assert normalized[..index + 1][..index] == normalized[..index];
        var entry := normalized[index];
        knownIDs := knownIDs + {entry.eventId};
        terminal := terminal[entry.eventId := entry.outcome];
        pendingIDs := pendingIDs - {entry.eventId};
      }
      assert normalized[..|normalized|] == normalized;
      err := NoError;
    }

    method WriteTombstone(eventID: EventId, io: AppendIo) returns (err: WriteError)
      modifies this
      ensures Value() == Tombstoned(old(Value()), eventID, io)
      ensures err == NoError <==> !eventID.Empty() && io.Done?
    {
      if eventID.Empty() {
        return MissingEventId;
      }
      log := AppendTo(log, [Reset(eventID)], io);
      if !io.Done? {
        return AppendFailed;
      }
      knownIDs := knownIDs + {eventID};
      terminal := terminal - {eventID};
      pendingIDs := pendingIDs + {eventID};
      err := NoError;
    }

    method GetEventStatus(eventID: EventId, rawLog: set<EventId>) returns (status: CurrentStatus)
      ensures status ==
        if eventID !in rawLog then NotFound else if eventID in terminal then Ended(terminal[eventID]) else Pending
    {
      if eventID !in rawLog {
        return NotFound;
      }
      if eventID in terminal {
        return Ended(terminal[eventID]);
      }
      status := Pending;
    }

    /** `named` are the ids found in the `compiled_from` comments of the wiki, in the order of the walk, and
        `walked` whether the walk succeeded. The pending ones among them are recovered, each once, in
        sorted order; without pending events there is no walk. */
    method RecoverFromCrash(named: seq<EventId>, walked: bool, io: AppendIo) returns (err: WriteError)
      modifies this
      ensures err == ScanFailed <==> !walked && old(pendingIDs) != {}
      ensures err == ScanFailed ==> Value() == old(Value())
      ensures err != ScanFailed ==> exists ids: seq<EventId> ::
        && IdSet(ids) == old(pendingIDs) * IdSet(named) && InOrder(ids)
        && Value() == Written(old(Value()), RecoveryEntries(ids), io)
    {
      if pendingIDs == {} {
        assert IdSet([]) == pendingIDs * IdSet(named) && InOrder([]);
        assert RecoveryEntries([]) == [];
        return NoError;
      }
      if !walked {
        return ScanFailed;
      }
      var recovered: seq<EventId> := [];
      for index := 0 to |named|
        invariant unchanged(this) && Distinct(recovered)
        invariant forall id :: id in recovered <==> id in named[..index] && id in pendingIDs
      {
        if named[index] in pendingIDs && named[index] !in recovered {
          recovered := recovered + [named[index]];
        }
      }
      var ids := Sort(recovered, IdLe);
      SortedIds(recovered);
      assert IdSet(ids) == pendingIDs * IdSet(named);
      err := WriteStatuses(RecoveryEntries(ids), io);
    }

    method Counts() returns (counts: StatusCounts)
      ensures counts.total == |knownIDs| && counts.pending == |pendingIDs|
      ensures Counted(counts, terminal.Keys, Value())
    {
      counts := StatusCounts(|knownIDs|, |pendingIDs|, 0, 0, 0, 0);
      var rest := terminal.Keys;
      ghost var seen: set<EventId> := {};
      while rest != {}
        invariant seen !! rest && seen + rest == terminal.Keys
        invariant counts.total == |knownIDs| && counts.pending == |pendingIDs|
        invariant Counted(counts, seen, Value())
        decreases |rest|
      {
        var id :| id in rest;
        CountedNext(counts, seen, id, Value());
        rest, seen := rest - {id}, seen + {id};
        if id !in knownIDs {
          continue;
        }
        match terminal[id].status
        case Integrated => counts := counts.(integrated := counts.integrated + 1);
        case Skipped => counts := counts.(skipped := counts.skipped + 1);
        case Failed => counts := counts.(failed := counts.failed + 1);
        case Unknown => counts := counts.(unknown := counts.unknown + 1);
        case Invalid(_) =>
      }
    }

    method UnknownByReason() returns (counts: map<string, nat>)
      ensures forall reason :: reason in counts ==> IsValidUnknownReason(reason)
      ensures forall reason ::
        (if reason in counts then counts[reason] else 0) == |Filed(terminal.Keys, Value(), reason)|
    {
      counts := map[];
      var rest := terminal.Keys;
      ghost var seen: set<EventId> := {};
      while rest != {}
        invariant seen !! rest && seen + rest == terminal.Keys
        invariant forall reason :: reason in counts ==> IsValidUnknownReason(reason)
        invariant forall reason :: (if reason in counts then counts[reason] else 0) == |Filed(seen, Value(), reason)|
        decreases |rest|
      {
        var id :| id in rest;
        forall reason { FiledNext(seen, id, Value(), reason); }
        rest, seen := rest - {id}, seen + {id};
        if id !in knownIDs || terminal[id].status != Unknown {
          continue;
        }
        var reason := terminal[id].reason;
        if !IsValidUnknownReason(reason) {
          reason := UNCLASSIFIED;
        }
        counts := counts[reason := 1 + if reason in counts then counts[reason] else 0];
      }
    }
  }
}
