/** The compile cursor over whole runs: `/remember` appends interleaved with compile turns that succeed,
    fail or die anywhere (`internal/api/handler.go`, `internal/agent/backend_acp_compile.go`). */
module CompileRuns {
  import opened Text
  import opened Verdicts
  import opened EventLog
  import opened Compile

  /** A read that was served to the agent. */
  datatype Delivery = Delivery(cursorIn: nat, page: EventsPage)

  /** Where the one compile turn that can hold the wiki lock is. */
  datatype Phase =
    | Idle
    | Started(c: nat)
    | Bounded(c: nat, bound: nat, turnId: string)
    | Reading(c: nat, bound: nat, turnId: string, log: seq<Event>, receipt: Receipt,
              given: seq<Delivery>, unreported: Option<ReceiptEntry>)
    | Merged(c: nat, newCursor: nat)

  /** A committed turn: the cursor it started at, its bound, the cursor its receipt yielded, the pages it
      was served, and whether the receipt file ended in a newline. */
  datatype Turn = Turn(c: nat, bound: nat, newCursor: nat, served: seq<EventsPage>, receiptClosed: bool)

  datatype State = State(file: EventFile, cursorFile: Option<string>, phase: Phase, turns: seq<Turn>)

  datatype Move =
    | Append(event: Event, io: AppendIo)
    | Begin
    | TakeBound(turnId: string)
    | CopyToStaging(stale: Receipt)
    | Read(cursorIn: nat, receiptIo: AppendIo)
    | Abandon
    | Commit
    | Persist(cursorIo: CursorIo)

  function Cursor(s: State): nat {
    CursorIn(s.cursorFile)
  }

  function Log(s: State): seq<Event> {
    Readable(s.file)
  }

  predicate Receipted(p: Phase)
    requires p.Reading?
  {
    Verdict(p.receipt.lines, p.turnId, p.c, p.bound).Accepted?
  }

  /** A move that can happen. The nonce of a turn is in no older receipt, and a turn is committed only with
      an accepted receipt. */
  ghost predicate Enabled(s: State, m: Move) {
    match m
    case Append(event, io) => |Log(s)| + 1 < UINT64_LIMIT
    case Begin => s.phase.Idle?
    case TakeBound(_) => s.phase.Started?
    case CopyToStaging(stale) => s.phase.Bounded? && IsStale(stale.lines, s.phase.turnId)
    case Read(_, _) => s.phase.Reading?
    case Abandon => true
    case Commit => s.phase.Reading? && Receipted(s.phase)
    case Persist(_) => s.phase.Merged?
  }

  function AfterRead(p: Phase, cursorIn: nat, io: AppendIo): Phase
    requires p.Reading?
  {
    var page := BoundedPage(p.log, cursorIn, p.bound);
    var entry := ReceiptEntry(p.turnId, cursorIn, page.newCursor);
    Reading(p.c, p.bound, p.turnId, p.log, ReceiptAppended(p.receipt, entry, io),
            if io.Done? then p.given + [Delivery(cursorIn, page)] else p.given,
            if io.AllButNewline? && !p.receipt.open then Some(entry)
            else if io.NothingWritten? then p.unreported else None)
  }

  function Pages(given: seq<Delivery>): seq<EventsPage> {
    seq(|given|, i requires 0 <= i < |given| => given[i].page)
  }

  function TurnOf(p: Phase): Turn
    requires p.Reading? && Receipted(p)
  {
    Turn(p.c, p.bound, Verdict(p.receipt.lines, p.turnId, p.c, p.bound).newCursor, Pages(p.given), !p.receipt.open)
  }

  /** The state after a move; a move that cannot happen changes nothing. */
  ghost function After(s: State, m: Move): State {
    if !Enabled(s, m) then s else
    match m
    case Append(event, io) => s.(file := Appended(s.file, event, io))
    case Begin => s.(phase := Started(Cursor(s)))
    case TakeBound(turnId) => s.(phase := Bounded(s.phase.c, |Log(s)|, turnId))
    case CopyToStaging(stale) =>
      s.(phase := Reading(s.phase.c, s.phase.bound, s.phase.turnId, Log(s), stale, [], None))
    case Read(cursorIn, io) => s.(phase := AfterRead(s.phase, cursorIn, io))
    case Abandon => s.(phase := Idle)
    case Commit =>
      var turn := TurnOf(s.phase);
      s.(phase := Merged(turn.c, turn.newCursor), turns := s.turns + [turn])
    case Persist(io) =>
      s.(phase := Idle,
         cursorFile := if s.phase.newCursor > Cursor(s) then CursorWritten(s.cursorFile, s.phase.newCursor, io)
           else s.cursorFile)
  }

  ghost predicate Runs(s: State, moves: seq<Move>) {
    moves == [] || (Runs(s, moves[..|moves| - 1]) && Enabled(End(s, moves[..|moves| - 1]), moves[|moves| - 1]))
  }

  ghost function End(s: State, moves: seq<Move>): State {
    if moves == [] then s else After(End(s, moves[..|moves| - 1]), moves[|moves| - 1])
  }

  /** No turn is under way and nothing was compiled yet. */
  ghost predicate Initial(s: State) {
    s.cursorFile == None && s.phase == Idle && s.turns == [] && |Log(s)| < UINT64_LIMIT
  }

  /** No append of the run continues a whole record that lacks its newline. */
  ghost predicate Intact(s: State, moves: seq<Move>) {
    moves == [] ||
    (var before, last := moves[..|moves| - 1], moves[|moves| - 1];
     Intact(s, before) && (last.Append? ==> KeepsRecords(End(s, before).file, last.io)))
  }

  // ---------------------------------------------------------------- the invariant

  function Covered(turns: seq<Turn>): nat {
    if turns == [] then 0
    else
      var before, last := Covered(turns[..|turns| - 1]), turns[|turns| - 1].bound;
      if last > before then last else before
  }

  /** A committed turn served exactly the events between its cursor and its bound, in one read, and yields
      the bound; one whose receipt file did not end in a newline served nothing. */
  ghost predicate ExactTurn(t: Turn, log: seq<Event>) {
    && t.c <= t.bound <= |log| && t.newCursor == t.bound
    && t.served == if t.receiptClosed then [EventsPage(log[t.c..t.bound], t.bound)] else []
  }

  ghost predicate ExactTurns(turns: seq<Turn>, log: seq<Event>) {
    forall k :: 0 <= k < |turns| ==> ExactTurn(turns[k], log)
  }

  ghost predicate CoveredBy(turns: seq<Turn>, k: nat, i: nat) {
    k < |turns| && turns[k].c <= i < turns[k].bound
  }

  ghost predicate IsCovered(turns: seq<Turn>, i: nat) {
    exists k :: CoveredBy(turns, k, i)
  }

  ghost predicate NoGaps(turns: seq<Turn>) {
    forall i: nat :: i < Covered(turns) ==> IsCovered(turns, i)
  }

  /** The receipt lines of this turn are those of its served reads, in order, and one of an unreported
      read at most. */
  ghost predicate ReceiptsMatch(p: Phase)
    requires p.Reading?
  {
    var mine := Mine(p.receipt.lines, p.turnId);
    && (p.unreported.Some? ==> p.receipt.open)
    && (forall k :: 0 <= k < |p.given| ==> p.given[k].page == BoundedPage(p.log, p.given[k].cursorIn, p.bound))
    && (AllParse(p.receipt.lines) && p.receipt.open && mine != [] ==> p.unreported.Some?)
    && (AllParse(p.receipt.lines) ==>
         && |mine| == |p.given| + (if p.unreported.Some? then 1 else 0)
         && (forall k :: 0 <= k < |mine| ==>
           mine[k].newCursor == BoundedPage(p.log, mine[k].cursorIn, p.bound).newCursor)
         && (forall k :: 0 <= k < |p.given| ==> mine[k].cursorIn == p.given[k].cursorIn))
  }

  ghost predicate PhaseInv(s: State) {
    match s.phase
    case Idle => true
    case Started(c) => c == Cursor(s)
    case Bounded(c, bound, _) => c == Cursor(s) && c <= bound <= |Log(s)|
    case Reading(c, bound, _, log, _, _, _) =>
      c == Cursor(s) && c <= bound <= |log| && log <= Log(s) && ReceiptsMatch(s.phase)
    case Merged(c, newCursor) => c == Cursor(s) && c <= newCursor <= Covered(s.turns)
  }

  ghost predicate Inv(s: State) {
    && |Log(s)| < UINT64_LIMIT
    && ExactTurns(s.turns, Log(s))
    && NoGaps(s.turns)
    && Cursor(s) <= Covered(s.turns)
    && PhaseInv(s)
  }

  lemma {:induction false} CoveredIsReadable(turns: seq<Turn>, log: seq<Event>)
    requires ExactTurns(turns, log)
    ensures Covered(turns) <= |log|
  {
    if turns != [] {
      CoveredIsReadable(turns[..|turns| - 1], log);
      assert ExactTurn(turns[|turns| - 1], log);
    }
  }

  lemma AppendKeepsInv(s: State, event: Event, io: AppendIo)
    requires Inv(s) && Enabled(s, Append(event, io)) && KeepsRecords(s.file, io)
    ensures Inv(After(s, Append(event, io)))
  {
    var next := After(s, Append(event, io));
    AppendExtends(s.file, event, io);
    assert Log(s) <= Log(next);
    forall k | 0 <= k < |s.turns| ensures ExactTurn(s.turns[k], Log(next)) {
      var t := s.turns[k];
      assert ExactTurn(t, Log(s));
      assert Log(next)[t.c..t.bound] == Log(s)[t.c..t.bound];
    }
  }

  /** The log only grows, move by move, exactly while no append continues an unterminated record. */
  lemma LogGrowsIff(s: State, m: Move)
    requires Enabled(s, m)
    ensures Log(s) <= Log(After(s, m)) <==> (m.Append? ==> KeepsRecords(s.file, m.io))
  {
    if m.Append? {
      AppendExtends(s.file, m.event, m.io);
    }
  }

  /** One more read keeps receipts and deliveries in step. */
  lemma ReadKeepsReceipts(p: Phase, cursorIn: nat, io: AppendIo)
    requires p.Reading? && ReceiptsMatch(p)
    ensures ReceiptsMatch(AfterRead(p, cursorIn, io))
  {
    var next := AfterRead(p, cursorIn, io);
    var entry := ReceiptEntry(p.turnId, cursorIn, BoundedPage(p.log, cursorIn, p.bound).newCursor);
    if AllParse(next.receipt.lines) && !io.NothingWritten? {
      var lines := next.receipt.lines;
      assert lines[|lines| - 1].Entry?;
      assert !p.receipt.open && lines == p.receipt.lines + [Entry(entry)];
      assert forall i :: 0 <= i < |p.receipt.lines| ==> p.receipt.lines[i] == lines[i];
      assert AllParse(p.receipt.lines);
      MineNext(p.receipt.lines, Entry(entry), p.turnId);
    }
  }

  /** An accepted receipt is that of one read from the right cursor. */
  lemma CommitIsExact(s: State)
    requires Inv(s) && Enabled(s, Commit)
    ensures ExactTurn(TurnOf(s.phase), Log(s))
  {
    var p := s.phase;
    var mine := Mine(p.receipt.lines, p.turnId);
    assert |mine| == 1 && mine[0].cursorIn == p.c;
    BoundedReadIsExact(p.log, p.c, p.bound);
    assert p.log[p.c..p.bound] == Log(s)[p.c..p.bound];
    if p.unreported.None? {
      assert |p.given| == 1 && p.given[0].page == EventsPage(Log(s)[p.c..p.bound], p.bound);
      assert Pages(p.given) == [p.given[0].page];
    } else {
      assert Pages(p.given) == [];
    }
  }

  lemma CommitKeepsInv(s: State)
    requires Inv(s) && Enabled(s, Commit)
    ensures Inv(After(s, Commit))
  {
    var turn := TurnOf(s.phase);
    CommitIsExact(s);
    var longer := s.turns + [turn];
    assert longer[..|s.turns|] == s.turns;
    assert ExactTurns(longer, Log(s));
    forall i: nat | i < Covered(longer) ensures IsCovered(longer, i) {
      if i < Covered(s.turns) {
        assert IsCovered(s.turns, i);
        var k :| CoveredBy(s.turns, k, i);
        assert CoveredBy(longer, k, i);
      } else {
        assert CoveredBy(longer, |s.turns|, i);
      }
    }
  }

  lemma PersistKeepsInv(s: State, io: CursorIo)
    requires Inv(s) && s.phase.Merged?
    ensures Inv(After(s, Persist(io)))
    ensures !io.CursorCut? ==> Cursor(s) <= Cursor(After(s, Persist(io)))
    ensures io.CursorDone? ==> Cursor(After(s, Persist(io))) == s.phase.newCursor
  {
    CoveredIsReadable(s.turns, Log(s));
    CursorRoundTrip(s.cursorFile, s.phase.newCursor, io);
  }

  lemma StaleKeepsReceipts(stale: Receipt, turnId: string)
    requires IsStale(stale.lines, turnId)
    ensures Mine(stale.lines, turnId) == []
  {
    StaleEntriesDoNotCount(stale.lines, turnId);
  }

  /** Every move keeps the invariant. */
  lemma MoveKeepsInv(s: State, m: Move)
    requires Inv(s) && Enabled(s, m) && (m.Append? ==> KeepsRecords(s.file, m.io))
    ensures Inv(After(s, m))
  {
    match m
    case Append(event, io) => AppendKeepsInv(s, event, io);
    case TakeBound(_) => CoveredIsReadable(s.turns, Log(s));
    case CopyToStaging(stale) => StaleKeepsReceipts(stale, s.phase.turnId);
    case Read(cursorIn, io) => ReadKeepsReceipts(s.phase, cursorIn, io);
    case Commit => CommitKeepsInv(s);
    case Persist(io) => PersistKeepsInv(s, io);
    case _ =>
  }

  lemma {:induction false} InvAlways(s: State, moves: seq<Move>)
    requires Initial(s) && Runs(s, moves) && Intact(s, moves)
    ensures Inv(End(s, moves))
  {
    if moves != [] {
      InvAlways(s, moves[..|moves| - 1]);
      MoveKeepsInv(End(s, moves[..|moves| - 1]), moves[|moves| - 1]);
    }
  }

  // ---------------------------------------------------------------- the cursor

  /** Whatever happens to the log, cursors on their way fit the cursor file. */
  ghost predicate Fits(s: State) {
    && |Log(s)| < UINT64_LIMIT
    && match s.phase
       case Bounded(_, bound, _) => bound < UINT64_LIMIT
       case Reading(_, bound, _, _, _, _, _) => bound < UINT64_LIMIT
       case Merged(_, newCursor) => newCursor < UINT64_LIMIT
       case _ => true
  }

  /** No move lowers the cursor but a cursor write that was cut short. */
  lemma MoveKeepsCursor(s: State, m: Move)
    requires Fits(s) && Enabled(s, m)
    ensures Fits(After(s, m))
    ensures !(m.Persist? && m.cursorIo.CursorCut?) ==> Cursor(s) <= Cursor(After(s, m))
  {
    match m
    case Append(event, io) => AppendExtends(s.file, event, io);
    case Persist(io) => CursorRoundTrip(s.cursorFile, s.phase.newCursor, io);
    case _ =>
  }

  lemma {:induction false} FitsAlways(s: State, moves: seq<Move>)
    requires Initial(s) && Runs(s, moves)
    ensures Fits(End(s, moves))
  {
    if moves != [] {
      FitsAlways(s, moves[..|moves| - 1]);
      MoveKeepsCursor(End(s, moves[..|moves| - 1]), moves[|moves| - 1]);
    }
  }

  // ---------------------------------------------------------------- the results

  /** The k-th committed turn was served the events from its cursor to its bound. */
  ghost predicate ServedAll(s: State, k: nat)
    requires ExactTurns(s.turns, Log(s)) && k < |s.turns|
  {
    var t := s.turns[k];
    assert ExactTurn(t, Log(s));
    t.served == [EventsPage(Log(s)[t.c..t.bound], t.bound)]
  }

  /** In every run whose appends continue no unterminated record: the cursor never passes the log; every
      event below the cursor lies between the cursor and the bound of a committed turn; each committed turn
      yields its bound, and was served exactly the events from its cursor to it if and only if its receipt
      file ended in a newline when it was committed. */
  lemma GapFree(s: State, moves: seq<Move>)
    requires Initial(s) && Runs(s, moves) && Intact(s, moves)
    ensures
      var end := End(s, moves);
      && Cursor(end) <= |Log(end)|
      && ExactTurns(end.turns, Log(end))
      && (forall k :: 0 <= k < |end.turns| ==> (end.turns[k].receiptClosed <==> ServedAll(end, k)))
      && (forall i: nat :: i < Cursor(end) ==> IsCovered(end.turns, i))
  {
    InvAlways(s, moves);
    var end := End(s, moves);
    CoveredIsReadable(end.turns, Log(end));
    forall k | 0 <= k < |end.turns| ensures end.turns[k].receiptClosed <==> ServedAll(end, k) {
      assert ExactTurn(end.turns[k], Log(end));
    }
  }

  /** No receipt line was ever written without its newline. */
  ghost predicate ReceiptsWhole(moves: seq<Move>) {
    forall i :: 0 <= i < |moves| && moves[i].Read? ==> !moves[i].receiptIo.AllButNewline?
  }

  ghost predicate AllClosed(s: State) {
    && (forall k :: 0 <= k < |s.turns| ==> s.turns[k].receiptClosed)
    && (s.phase.Reading? ==> s.phase.unreported.None? && ReceiptsMatch(s.phase))
  }

  lemma MoveKeepsClosed(s: State, m: Move)
    requires AllClosed(s) && Enabled(s, m) && (m.Read? ==> !m.receiptIo.AllButNewline?)
    ensures AllClosed(After(s, m))
  {
    match m
    case CopyToStaging(stale) => StaleKeepsReceipts(stale, s.phase.turnId);
    case Read(cursorIn, io) => ReadKeepsReceipts(s.phase, cursorIn, io);
    case Commit =>
      assert Mine(s.phase.receipt.lines, s.phase.turnId) != [];
    case _ =>
  }

  /** So when no receipt write stops right before its newline, every committed turn had a closed receipt,
      and by `GapFree` was served its whole window. */
  lemma {:induction false} WholeReceiptsServe(s: State, moves: seq<Move>)
    requires Initial(s) && Runs(s, moves) && ReceiptsWhole(moves)
    ensures AllClosed(End(s, moves))
  {
    if moves != [] {
      var before := moves[..|moves| - 1];
      assert forall i :: 0 <= i < |before| ==> before[i] == moves[i];
      WholeReceiptsServe(s, before);
      MoveKeepsClosed(End(s, before), moves[|moves| - 1]);
    }
  }

  /** Gap-free delivery on the moves alone: with whole receipts and appends that continue no unterminated
      record, each event below the cursor was in the window of a committed turn that was served it. */
  lemma EveryEventServed(s: State, moves: seq<Move>, i: nat) returns (k: nat)
    requires Initial(s) && Runs(s, moves) && Intact(s, moves) && ReceiptsWhole(moves)
    requires i < Cursor(End(s, moves))
    ensures
      var end := End(s, moves);
      && CoveredBy(end.turns, k, i) && |Log(end)| > i
      && end.turns[k].served != [] && i - end.turns[k].c < |end.turns[k].served[0].events|
      && end.turns[k].served[0].events[i - end.turns[k].c] == Log(end)[i]
  {
    var end := End(s, moves);
    GapFree(s, moves);
    WholeReceiptsServe(s, moves);
    assert IsCovered(end.turns, i);
    k :| CoveredBy(end.turns, k, i);
    assert ExactTurn(end.turns[k], Log(end));
  }

  /** When no cursor write is cut short, the cursor only moves forward, whatever happens to the log. */
  lemma {:induction false} CursorNeverGoesBack(s: State, moves: seq<Move>, n: nat)
    requires Initial(s) && Runs(s, moves) && n <= |moves|
    requires forall i :: 0 <= i < |moves| && moves[i].Persist? ==> !moves[i].cursorIo.CursorCut?
    ensures Cursor(End(s, moves[..n])) <= Cursor(End(s, moves))
    decreases |moves|
  {
    if n == |moves| {
      assert moves[..n] == moves;
    } else {
      var before := moves[..|moves| - 1];
      assert before[..n] == moves[..n];
      assert forall i :: 0 <= i < |before| ==> before[i] == moves[i];
      CursorNeverGoesBack(s, before, n);
      FitsAlways(s, before);
      MoveKeepsCursor(End(s, before), moves[|moves| - 1]);
    }
  }

  // ---------------------------------------------------------------- exactly once

  /** Every committed turn persists its cursor. */
  ghost predicate Persists(s: State, moves: seq<Move>) {
    moves == [] ||
    (var before, last := moves[..|moves| - 1], moves[|moves| - 1];
     && Persists(s, before)
     && (last.Persist? ==> last.cursorIo.CursorDone?)
     && (last.Abandon? ==> !End(s, before).phase.Merged?))
  }

  /** The turns follow each other without overlap, the last one ends at the cursor, or at the cursor that
      is about to be written. */
  ghost predicate Chained(s: State) {
    && (forall k :: 0 <= k < |s.turns| - 1 ==> s.turns[k].bound == s.turns[k + 1].c)
    && (s.turns != [] ==> s.turns[0].c == 0)
    && (var reached := if s.turns == [] then 0 else s.turns[|s.turns| - 1].bound;
        reached == if s.phase.Merged? then s.phase.newCursor else Cursor(s))
  }

  lemma CommitKeepsChain(s: State)
    requires Inv(s) && Chained(s) && Enabled(s, Commit)
    ensures Chained(After(s, Commit))
  {
    CommitIsExact(s);
    var longer := s.turns + [TurnOf(s.phase)];
    forall k | 0 <= k < |longer| - 1 ensures longer[k].bound == longer[k + 1].c {
      if k + 1 < |s.turns| {
        assert s.turns[k].bound == s.turns[k + 1].c;
      }
    }
  }

  lemma MoveKeepsChain(s: State, m: Move)
    requires Inv(s) && Chained(s) && Enabled(s, m)
    requires m.Append? ==> KeepsRecords(s.file, m.io)
    requires m.Persist? ==> m.cursorIo.CursorDone?
    requires m.Abandon? ==> !s.phase.Merged?
    ensures Chained(After(s, m))
  {
    match m
    case Commit => CommitKeepsChain(s);
    case Persist(io) => PersistKeepsInv(s, io);
    case _ =>
  }

  lemma {:induction false} ChainedAlways(s: State, moves: seq<Move>)
    requires Initial(s) && Runs(s, moves) && Intact(s, moves) && Persists(s, moves)
    ensures Chained(End(s, moves))
  {
    if moves != [] {
      ChainedAlways(s, moves[..|moves| - 1]);
      InvAlways(s, moves[..|moves| - 1]);
      MoveKeepsChain(End(s, moves[..|moves| - 1]), moves[|moves| - 1]);
    }
  }

  lemma {:induction false} BoundsRise(s: State, j: nat, k: nat)
    requires Chained(s) && ExactTurns(s.turns, Log(s)) && j < k < |s.turns|
    ensures s.turns[j].bound <= s.turns[k].c
    decreases k
  {
    if j < k - 1 {
      BoundsRise(s, j, k - 1);
      assert ExactTurn(s.turns[k - 1], Log(s));
    }
    assert s.turns[k - 1].bound == s.turns[k - 1 + 1].c;
  }

  /** When every committed turn persists its cursor, each event below the cursor was covered by exactly one
      committed turn. */
  lemma ExactlyOnce(s: State, moves: seq<Move>, i: nat)
    requires Initial(s) && Runs(s, moves) && Intact(s, moves) && Persists(s, moves) && i < Cursor(End(s, moves))
    ensures
      var turns := End(s, moves).turns;
      exists k :: CoveredBy(turns, k, i) && forall j :: CoveredBy(turns, j, i) ==> j == k
  {
    var end := End(s, moves);
    GapFree(s, moves);
    ChainedAlways(s, moves);
    assert IsCovered(end.turns, i);
    var k :| CoveredBy(end.turns, k, i);
    forall j | CoveredBy(end.turns, j, i) ensures j == k {
      if j < k {
        BoundsRise(end, j, k);
      } else if k < j {
        BoundsRise(end, k, j);
      }
    }
  }

  // ---------------------------------------------------------------- where it does not hold

  lemma RunsNext(s: State, moves: seq<Move>, m: Move)
    requires Runs(s, moves) && Enabled(End(s, moves), m)
    ensures Runs(s, moves + [m]) && End(s, moves + [m]) == After(End(s, moves), m)
  {
    assert (moves + [m])[..|moves|] == moves;
  }

  /** A run up to a read that failed right before the newline of its receipt line. */
  lemma FailedRead(event: Event) returns (s: State, moves: seq<Move>)
    ensures Initial(s) && Runs(s, moves)
    ensures End(s, moves) ==
      s.(phase := Reading(0, 1, "t", [event], Receipt([Entry(ReceiptEntry("t", 0, 1))], true), [],
        Some(ReceiptEntry("t", 0, 1))))
    ensures Log(s) == [event] && s.cursorFile == None
  {
    s := State(EventFile([EventLine(event)], Clean), None, Idle, []);
    EventsInNext([], EventLine(event));
    assert [] + [EventLine(event)] == [EventLine(event)] && Log(s) == [event];
    var entry := ReceiptEntry("t", 0, 1);
    RunsNext(s, [], Begin);
    RunsNext(s, [] + [Begin], TakeBound("t"));
    assert End(s, [] + [Begin] + [TakeBound("t")]) == s.(phase := Bounded(0, 1, "t"));
    RunsNext(s, [] + [Begin] + [TakeBound("t")], CopyToStaging(Receipt([], false)));
    var copied := [] + [Begin] + [TakeBound("t")] + [CopyToStaging(Receipt([], false))];
    var reading := Reading(0, 1, "t", [event], Receipt([], false), [], None);
    assert End(s, copied) == s.(phase := reading);
    RunsNext(s, copied, Read(0, AllButNewline));
    assert [] + [Entry(entry)] == [Entry(entry)];
    assert AfterRead(reading, 0, AllButNewline).receipt == Receipt([Entry(entry)], true);
    moves := copied + [Read(0, AllButNewline)];
  }

  /** Such a read serves nothing and still moves the cursor: the one event of this log is below the cursor
      and was never served. */
  lemma FailedReadMovesCursor(event: Event) returns (s: State, moves: seq<Move>)
    ensures Initial(s) && Runs(s, moves) && Log(End(s, moves)) == [event]
    ensures Cursor(End(s, moves)) == 1 && End(s, moves).turns == [Turn(0, 1, 1, [], false)]
  {
    var read;
    s, read := FailedRead(event);
    MineNext([], Entry(ReceiptEntry("t", 0, 1)), "t");
    assert [] + [Entry(ReceiptEntry("t", 0, 1))] == [Entry(ReceiptEntry("t", 0, 1))];
    RunsNext(s, read, Commit);
    assert Pages([]) == [];
    assert End(s, read + [Commit]) == s.(phase := Merged(0, 1), turns := [Turn(0, 1, 1, [], false)]);
    RunsNext(s, read + [Commit], Persist(CursorDone));
    CursorRoundTrip(None, 1, CursorDone);
    moves := read + [Commit] + [Persist(CursorDone)];
  }

  /** A compile turn that has copied a log whose one record lacks its newline. */
  lemma UnterminatedCopied(first: Event) returns (s: State, moves: seq<Move>)
    ensures Initial(s) && Runs(s, moves)
    ensures End(s, moves) ==
      State(EventFile([], Unterminated(first)), None, Reading(0, 1, "t", [first], Receipt([], false), [], None), [])
  {
    s := State(EventFile([], Clean), None, Idle, []);
    assert EventsIn([]) + [first] == [first];
    RunsNext(s, [], Append(first, AllButNewline));
    var appended := [] + [Append(first, AllButNewline)];
    RunsNext(s, appended, Begin);
    RunsNext(s, appended + [Begin], TakeBound("t"));
    RunsNext(s, appended + [Begin] + [TakeBound("t")], CopyToStaging(Receipt([], false)));
    moves := appended + [Begin] + [TakeBound("t")] + [CopyToStaging(Receipt([], false))];
  }

  lemma UnterminatedRead(first: Event) returns (s: State, moves: seq<Move>)
    ensures Initial(s) && Runs(s, moves)
    ensures
      var copied := Reading(0, 1, "t", [first], Receipt([], false), [], None);
      End(s, moves) == State(EventFile([], Unterminated(first)), None, AfterRead(copied, 0, Done), [])
  {
    var copied;
    s, copied := UnterminatedCopied(first);
    RunsNext(s, copied, Read(0, Done));
    moves := copied + [Read(0, Done)];
  }

  lemma UnterminatedCommitted(first: Event) returns (s: State, moves: seq<Move>)
    ensures Initial(s) && Runs(s, moves)
    ensures End(s, moves) == State(EventFile([], Unterminated(first)), None, Merged(0, 1), [OneEventTurn(first)])
  {
    var read;
    s, read := UnterminatedRead(first);
    ReadOfOne(first);
    RunsNext(s, read, Commit);
    assert [] + [OneEventTurn(first)] == [OneEventTurn(first)];
    moves := read + [Commit];
  }

  /** A run up to a committed turn that compiled such a record. */
  lemma UnterminatedCompiled(first: Event) returns (s: State, moves: seq<Move>)
    ensures Initial(s) && Runs(s, moves)
    ensures End(s, moves) == State(EventFile([], Unterminated(first)), Some("1"), Idle, [OneEventTurn(first)])
  {
    var committed;
    s, committed := UnterminatedCommitted(first);
    RunsNext(s, committed, Persist(CursorDone));
    assert Decimal(1) == "1" && CursorIn(None) == 0;
    moves := committed + [Persist(CursorDone)];
  }

  function OneEventTurn(event: Event): Turn {
    Turn(0, 1, 1, [EventsPage([event], 1)], true)
  }

  lemma ReadOfOne(event: Event)
    ensures
      var read := AfterRead(Reading(0, 1, "t", [event], Receipt([], false), [], None), 0, Done);
      Receipted(read) && TurnOf(read) == OneEventTurn(event)
  {
    var read := AfterRead(Reading(0, 1, "t", [event], Receipt([], false), [], None), 0, Done);
    assert [event][0..] == [event];
    assert [] + [Entry(ReceiptEntry("t", 0, 1))] == [Entry(ReceiptEntry("t", 0, 1))] == read.receipt.lines;
    MineNext([], Entry(ReceiptEntry("t", 0, 1)), "t");
    assert read.given == [Delivery(0, EventsPage([event], 1))];
    assert Pages(read.given) == [EventsPage([event], 1)];
  }

  lemma CursorOfOne()
    ensures CursorIn(Some("1")) == 1
  {
    CursorRoundTrip(None, 1, CursorDone);
    assert Decimal(1) == "1";
  }

  lemma NotIntact(s: State, moves: seq<Move>, m: Move)
    requires m.Append? && !KeepsRecords(End(s, moves).file, m.io)
    ensures !Intact(s, moves + [m])
    ensures forall n: Move :: !Intact(s, moves + [m] + [n])
  {
    assert (moves + [m])[..|moves|] == moves;
    forall n: Move ensures !Intact(s, moves + [m] + [n]) {
      assert (moves + [m] + [n])[..|moves| + 1] == moves + [m];
    }
  }

  /** The append after it makes both records unreadable. */
  lemma RecordLost(first: Event, second: Event) returns (s: State, compiled: seq<Move>)
    ensures Initial(s) && Runs(s, compiled + [Append(second, Done)])
    ensures End(s, compiled + [Append(second, Done)]) ==
      State(EventFile([BadLine], Clean), Some("1"), Idle, [OneEventTurn(first)])
    ensures forall n: Move :: !Intact(s, compiled + [Append(second, Done)] + [n])
  {
    s, compiled := UnterminatedCompiled(first);
    RunsNext(s, compiled, Append(second, Done));
    NotIntact(s, compiled, Append(second, Done));
    assert [] + [BadLine] == [BadLine];
  }

  lemma BadLogs(third: Event)
    ensures EventsIn([BadLine]) == [] && EventsIn([BadLine, EventLine(third)]) == [third]
  {
    EventsInNext([], BadLine);
    EventsInNext([BadLine], EventLine(third));
    assert [] + [BadLine] == [BadLine] && [BadLine] + [EventLine(third)] == [BadLine, EventLine(third)];
  }

  /** The run that an append onto an unterminated record spoils: a turn compiles the first event, whose
      newline is missing; the next append makes both unreadable, and the cursor is beyond the log; the
      append after that puts its event below the cursor, and no turn served it. */
  lemma LostRecordSkipsEvent(first: Event, second: Event, third: Event) returns (s: State, moves: seq<Move>)
    ensures Initial(s) && |moves| > 1 && Runs(s, moves) && !Intact(s, moves)
    ensures Cursor(End(s, moves[..|moves| - 1])) == 1 && Log(End(s, moves[..|moves| - 1])) == []
    ensures Cursor(End(s, moves)) == 1 && Log(End(s, moves)) == [third]
    ensures End(s, moves).turns == [OneEventTurn(first)]
  {
    var compiled;
    s, compiled := RecordLost(first, second);
    var lost := compiled + [Append(second, Done)];
    BadLogs(third);
    CursorOfOne();
    RunsNext(s, lost, Append(third, Done));
    moves := lost + [Append(third, Done)];
    assert moves[..|moves| - 1] == lost;
    assert [BadLine] + [EventLine(third)] == [BadLine, EventLine(third)];
  }
}
