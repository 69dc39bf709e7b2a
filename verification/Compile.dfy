/** One compile turn: the bounded read and its receipt (`internal/mcp/compile.go`), and the gate that
    turns the receipt into a cursor (`internal/agent/backend_acp_compile.go`). */
module Compile {
  import opened Verdicts
  import opened EventLog

  datatype ReceiptEntry = ReceiptEntry(turnId: string, cursorIn: nat, newCursor: nat)

  /** A non-empty line of the receipt file. */
  datatype ReceiptLine = Entry(entry: ReceiptEntry) | Malformed

  /** The receipt file: its lines, and whether the last one lacks its newline. */
  datatype Receipt = Receipt(lines: seq<ReceiptLine>, open: bool)

  datatype ReceiptVerdict = Accepted(newCursor: nat) | NoValidReceipt | MultiRead

  // ---------------------------------------------------------------- the bounded read

  /** What the agent sees of the log: nothing at or beyond the bound. */
  function BoundedPage(log: seq<Event>, cursor: nat, bound: nat): EventsPage {
    if |log| > bound then EventsPage(if cursor < bound then log[cursor..bound] else [], bound)
    else PageSince(log, cursor)
  }

  /** A line is appended after whatever the file ends with. */
  function ReceiptAppended(receipt: Receipt, entry: ReceiptEntry, io: AppendIo): Receipt {
    var line := if receipt.open then Malformed else Entry(entry);
    var whole := (if receipt.open then receipt.lines[..Closed(receipt)] else receipt.lines) + [line];
    match io
    case Done => Receipt(whole, false)
    case NothingWritten => receipt
    case PartWritten =>
      Receipt((if receipt.open then receipt.lines[..Closed(receipt)] else receipt.lines) + [Malformed], true)
    case AllButNewline => Receipt(whole, true)
  }

  /** How many lines of the file end in a newline. */
  function Closed(receipt: Receipt): (n: nat)
    ensures n <= |receipt.lines|
  {
    if receipt.open && receipt.lines != [] then |receipt.lines| - 1 else |receipt.lines|
  }

  class Server {
    const store: FS
    const turnId: string
    const eventBound: nat
    const receiptPath: bool
    var receipt: Receipt

    constructor (store: FS, turnId: string, eventBound: nat, receiptPath: bool, receipt: Receipt)
      ensures this.store == store && this.turnId == turnId && this.eventBound == eventBound
      ensures this.receiptPath == receiptPath && this.receipt == receipt
    {
      this.store, this.turnId, this.eventBound := store, turnId, eventBound;
      this.receiptPath, this.receipt := receiptPath, receipt;
    }

    method AppendReceipt(cursorIn: nat, newCursor: nat, io: AppendIo) returns (ok: bool)
      modifies this`receipt
      ensures ok == (receiptPath && io.Done?)
      ensures receipt ==
        if receiptPath then ReceiptAppended(old(receipt), ReceiptEntry(turnId, cursorIn, newCursor), io)
        else old(receipt)
    {
      if !receiptPath {
        return false;
      }
      receipt := ReceiptAppended(receipt, ReceiptEntry(turnId, cursorIn, newCursor), io);
      return io.Done?;
    }

    /** Serves the events of `[cursorIn, eventBound)` and leaves a receipt for exactly them; when the
        receipt cannot be written, nothing is served. */
    method ExecCompileReadEventsSince(cursorIn: nat, io: AppendIo) returns (page: Option<EventsPage>)
      modifies this`receipt
      ensures page == if receiptPath && io.Done? then Some(BoundedPage(store.events, cursorIn, eventBound)) else None
      ensures receipt ==
        if receiptPath then
          ReceiptAppended(
            old(receipt),
            ReceiptEntry(turnId, cursorIn, BoundedPage(store.events, cursorIn, eventBound).newCursor), io)
        else old(receipt)
    {
      var all := store.ReadEventsSince(cursorIn);
      var bounded := all;
      if all.newCursor > eventBound {
        var keep := 0;
        if eventBound > cursorIn {
          keep := eventBound - cursorIn;
        }
        if keep > |all.events| {
          keep := |all.events|;
        }
        bounded := EventsPage(all.events[..keep], eventBound);
        if cursorIn < eventBound {
          assert store.events[cursorIn..][..keep] == store.events[cursorIn..eventBound];
        }
      }
      var ok := AppendReceipt(cursorIn, bounded.newCursor, io);
      page := if ok then Some(bounded) else None;
    }
  }

  // ---------------------------------------------------------------- the gate

  function Mine(lines: seq<ReceiptLine>, turnId: string): seq<ReceiptEntry> {
    if lines == [] then []
    else
      var last := lines[|lines| - 1];
      Mine(lines[..|lines| - 1], turnId) + if last.Entry? && last.entry.turnId == turnId then [last.entry] else []
  }

  predicate AllParse(lines: seq<ReceiptLine>) {
    forall i :: 0 <= i < |lines| ==> lines[i].Entry?
  }

  /** Never backward, never beyond the bound. */
  function Clamp(newCursor: nat, expected: nat, bound: nat): nat {
    var atLeast := if newCursor < expected then expected else newCursor;
    if atLeast > bound then bound else atLeast
  }

  function Verdict(lines: seq<ReceiptLine>, turnId: string, expected: nat, bound: nat): ReceiptVerdict {
    var mine := Mine(lines, turnId);
    if !AllParse(lines) || mine == [] then NoValidReceipt
    else if |mine| > 1 then MultiRead
    else if mine[0].cursorIn != expected then NoValidReceipt
    else Accepted(Clamp(mine[0].newCursor, expected, bound))
  }

  lemma MineNext(lines: seq<ReceiptLine>, line: ReceiptLine, turnId: string)
    ensures Mine(lines + [line], turnId) ==
      Mine(lines, turnId) + if line.Entry? && line.entry.turnId == turnId then [line.entry] else []
  {
    assert (lines + [line])[..|lines|] == lines;
  }

  method ReadReceiptEntries(lines: seq<ReceiptLine>) returns (entries: Option<seq<ReceiptEntry>>)
    ensures entries.Some? <==> AllParse(lines)
    ensures entries.Some? ==> |entries.value| == |lines|
    ensures entries.Some? ==> forall i :: 0 <= i < |lines| ==> lines[i] == Entry(entries.value[i])
  {
    var found: seq<ReceiptEntry> := [];
    for i := 0 to |lines|
      invariant |found| == i && forall j :: 0 <= j < i ==> lines[j] == Entry(found[j])
    {
      match lines[i]
      case Malformed => return None;
      case Entry(entry) => found := found + [entry];
    }
    return Some(found);
  }

  /** A receipt is accepted exactly when every line parses and one line alone carries the nonce of this
      turn, and that one starts at the expected cursor; the cursor it yields is clamped. */
  method ValidateCompileReceipt(lines: seq<ReceiptLine>, turnId: string, expected: nat, eventBound: nat)
    returns (verdict: ReceiptVerdict)
    ensures verdict == Verdict(lines, turnId, expected, eventBound)
  {
    var entries := ReadReceiptEntries(lines);
    if entries.None? {
      return NoValidReceipt;
    }
    var mine: seq<ReceiptEntry> := [];
    for i := 0 to |entries.value|
      invariant mine == Mine(lines[..i], turnId)
    {
      assert lines[..i + 1][..i] == lines[..i];
      assert lines[i] == Entry(entries.value[i]);
      if entries.value[i].turnId == turnId {
        mine := mine + [entries.value[i]];
      }
    }
    assert lines[..|lines|] == lines;
    if |mine| == 0 {
      return NoValidReceipt;
    }
    if |mine| > 1 {
      return MultiRead;
    }
    var entry := mine[0];
    if entry.cursorIn != expected {
      return NoValidReceipt;
    }
    var nc := entry.newCursor;
    if nc < expected {
      nc := expected;
    }
    if nc > eventBound {
      nc := eventBound;
    }
    return Accepted(nc);
  }

  /** No line carries the nonce. */
  ghost predicate IsStale(lines: seq<ReceiptLine>, turnId: string) {
    forall i :: 0 <= i < |lines| && lines[i].Entry? ==> lines[i].entry.turnId != turnId
  }

  lemma {:induction false} StaleEntriesDoNotCount(lines: seq<ReceiptLine>, turnId: string)
    requires IsStale(lines, turnId)
    ensures Mine(lines, turnId) == []
  {
    if lines != [] {
      StaleEntriesDoNotCount(lines[..|lines| - 1], turnId);
    }
  }

  lemma {:induction false} MineConcat(a: seq<ReceiptLine>, b: seq<ReceiptLine>, turnId: string)
    ensures Mine(a + b, turnId) == Mine(a, turnId) + Mine(b, turnId)
  {
    if b == [] {
      assert a + b == a;
    } else {
      assert (a + b)[..|a + b| - 1] == a + b[..|b| - 1];
      MineConcat(a, b[..|b| - 1], turnId);
    }
  }

  /** Parsed entries of other turns never matter, wherever they stand between those of this turn. */
  lemma StaleEntriesDoNotMatter(
      before: seq<ReceiptLine>, stale: seq<ReceiptLine>, behind: seq<ReceiptLine>,
      turnId: string, expected: nat, bound: nat)
    requires AllParse(stale) && IsStale(stale, turnId)
    ensures Verdict(before + stale + behind, turnId, expected, bound) ==
      Verdict(before + behind, turnId, expected, bound)
  {
    MineConcat(before + stale, behind, turnId);
    MineConcat(before, stale, turnId);
    MineConcat(before, behind, turnId);
    StaleEntriesDoNotCount(stale, turnId);
    ParseAround(before, stale, behind);
  }

  lemma ParseAround(before: seq<ReceiptLine>, stale: seq<ReceiptLine>, behind: seq<ReceiptLine>)
    requires AllParse(stale)
    ensures AllParse(before + stale + behind) <==> AllParse(before) && AllParse(behind)
    ensures AllParse(before + behind) <==> AllParse(before) && AllParse(behind)
  {
    ParseBoth(before + stale, behind);
    ParseBoth(before, stale);
    ParseBoth(before, behind);
  }

  lemma ParseBoth(a: seq<ReceiptLine>, b: seq<ReceiptLine>)
    ensures AllParse(a + b) <==> AllParse(a) && AllParse(b)
  {
    if AllParse(a + b) {
      assert forall i :: 0 <= i < |a| ==> a[i] == (a + b)[i];
      assert forall i :: 0 <= i < |b| ==> b[i] == (a + b)[|a| + i];
    }
  }

  /** A read from the expected cursor, of a log that has at least `bound` events, serves exactly the
      events between the two and yields the bound as the next cursor. */
  lemma BoundedReadIsExact(log: seq<Event>, cursor: nat, bound: nat)
    requires cursor <= bound <= |log|
    ensures BoundedPage(log, cursor, bound) == EventsPage(log[cursor..bound], bound)
    ensures Clamp(BoundedPage(log, cursor, bound).newCursor, cursor, bound) == bound
  {
  }
}
