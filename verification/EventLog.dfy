/** The raw event log and the compile cursor (`internal/storage/fs.go`). */
module EventLog {
  import opened Text
  import opened Verdicts

  datatype Event = Event(id: string, content: string)

  /** A line of the log file: an event, or text that does not parse. */
  datatype Line = EventLine(event: Event) | BadLine

  /** What follows the last newline: nothing, a piece of a record, or a whole record. */
  datatype Tail = Clean | Piece | Unterminated(event: Event)

  datatype EventFile = EventFile(lines: seq<Line>, tail: Tail)

  /** How far one append got. */
  datatype AppendIo = Done | NothingWritten | PartWritten | AllButNewline

  datatype EventsPage = EventsPage(events: seq<Event>, newCursor: nat)

  // ---------------------------------------------------------------- the file

  function EventsIn(lines: seq<Line>): seq<Event> {
    if lines == [] then []
    else EventsIn(lines[..|lines| - 1]) + match lines[|lines| - 1] { case EventLine(e) => [e] case BadLine => [] }
  }

  /** The events that opening the file finds. */
  function Readable(file: EventFile): seq<Event> {
    EventsIn(file.lines) + if file.tail.Unterminated? then [file.tail.event] else []
  }

  /** An append continues whatever follows the last newline. */
  function Appended(file: EventFile, event: Event, io: AppendIo): EventFile {
    match io
    case Done => EventFile(file.lines + [if file.tail.Clean? then EventLine(event) else BadLine], Clean)
    case NothingWritten => file
    case PartWritten => file.(tail := Piece)
    case AllButNewline => file.(tail := if file.tail.Clean? then Unterminated(event) else Piece)
  }

  lemma EventsInNext(lines: seq<Line>, line: Line)
    ensures EventsIn(lines + [line]) == EventsIn(lines) + if line.EventLine? then [line.event] else []
  {
    assert (lines + [line])[..|lines|] == lines;
  }

  /** The append does not continue a whole record that lacks its newline. */
  predicate KeepsRecords(file: EventFile, io: AppendIo) {
    !file.tail.Unterminated? || io.NothingWritten?
  }

  /** An append extends what can be read exactly when it does not continue such a record. A successful one
      adds its event when the file ends in a newline, and otherwise adds nothing and loses that record. */
  lemma AppendExtends(file: EventFile, event: Event, io: AppendIo)
    ensures Readable(file) <= Readable(Appended(file, event, io)) <==> KeepsRecords(file, io)
    ensures io.Done? && file.tail.Clean? ==> Readable(Appended(file, event, io)) == Readable(file) + [event]
    ensures io.Done? && !file.tail.Clean? ==> Readable(Appended(file, event, io)) == EventsIn(file.lines)
    ensures |Readable(Appended(file, event, io))| <= |Readable(file)| + 1
  {
    EventsInNext(file.lines, if file.tail.Clean? then EventLine(event) else BadLine);
  }

  /** A whole record without its newline is read back, until the next append makes it unreadable: the log
      then shrinks. */
  lemma UnterminatedRecordIsLost(file: EventFile, first: Event, second: Event)
    requires file.tail.Clean?
    ensures
      var torn := Appended(file, first, AllButNewline);
      && Readable(torn) == Readable(file) + [first]
      && Readable(Appended(torn, second, Done)) == Readable(file)
  {
    AppendExtends(Appended(file, first, AllButNewline), second, Done);
  }

  // ---------------------------------------------------------------- the cursor file

  const UINT64_LIMIT := 0x1_0000_0000_0000_0000

  predicate IsDigit(c: char) {
    '0' <= c <= '9'
  }

  predicate AllDigits(s: string) {
    forall i :: 0 <= i < |s| ==> IsDigit(s[i])
  }

  function ValueOf(s: string): nat
    requires AllDigits(s)
  {
    if s == "" then 0 else ValueOf(s[..|s| - 1]) * 10 + (s[|s| - 1] - '0') as nat
  }

  /** `strconv.ParseUint(s, 10, 64)`. */
  function ParseUint(s: string): Option<nat> {
    if s == "" || !AllDigits(s) || ValueOf(s) >= UINT64_LIMIT then None else Some(ValueOf(s))
  }

  /** The cursor that the file stands for; a missing or unreadable file stands for the start of the log. */
  function CursorIn(file: Option<string>): nat {
    match file
    case None => 0
    case Some(text) => match ParseUint(TrimSpace(text)) { case Some(v) => v case None => 0 }
  }

  /** How the overwrite of the cursor file went; it truncates the file first. */
  datatype CursorIo = CursorDone | CursorUntouched | CursorCut(kept: nat)

  function CursorWritten(file: Option<string>, cursor: nat, io: CursorIo): Option<string> {
    match io
    case CursorDone => Some(Decimal(cursor))
    case CursorUntouched => file
    case CursorCut(kept) => Some(if kept <= |Decimal(cursor)| then Decimal(cursor)[..kept] else Decimal(cursor))
  }

  lemma {:induction false} DecimalValue(n: nat)
    ensures AllDigits(Decimal(n)) && ValueOf(Decimal(n)) == n
  {
    if n >= 10 {
      DecimalValue(n / 10);
      var s := Decimal(n);
      assert s[..|s| - 1] == Decimal(n / 10);
      assert (DIGITS[n % 10] - '0') as nat == n % 10;
    } else {
      assert Decimal(n)[..0] == "";
    }
  }

  lemma {:induction false} PrefixValue(s: string, k: nat)
    requires AllDigits(s) && k <= |s|
    ensures ValueOf(s[..k]) <= ValueOf(s)
  {
    if k == |s| {
      assert s[..k] == s;
    } else {
      PrefixValue(s[..|s| - 1], k);
      assert s[..|s| - 1][..k] == s[..k];
    }
  }

  lemma DigitsAreTrimmed(s: string)
    requires AllDigits(s)
    ensures TrimSpace(s) == s
  {
    TrimmedIsFixed(s);
  }

  /** A cursor that was written is read back; a write that was cut short leaves a cursor no larger than
      the new one, and one that never started leaves the old. */
  lemma CursorRoundTrip(file: Option<string>, cursor: nat, io: CursorIo)
    requires cursor < UINT64_LIMIT
    ensures io.CursorDone? ==> CursorIn(CursorWritten(file, cursor, io)) == cursor
    ensures io.CursorUntouched? ==> CursorIn(CursorWritten(file, cursor, io)) == CursorIn(file)
    ensures io.CursorCut? ==> CursorIn(CursorWritten(file, cursor, io)) <= cursor
  {
    DecimalValue(cursor);
    if !io.CursorUntouched? {
      var text := CursorWritten(file, cursor, io).value;
      assert text <= Decimal(cursor);
      assert text == Decimal(cursor)[..|text|];
      PrefixValue(Decimal(cursor), |text|);
      DigitsAreTrimmed(text);
    }
  }

  /** A cut write can move the cursor back: after 12, writing 25 and losing the last digit leaves 2. */
  lemma CutWriteGoesBack()
    ensures CursorIn(CursorWritten(Some("12"), 25, CursorCut(1))) == 2 < CursorIn(Some("12")) == 12
  {
    assert Decimal(25) == "25" && Decimal(25)[..1] == "2";
    DigitsAreTrimmed("2");
    DigitsAreTrimmed("12");
    assert "12"[..1] == "1" && "1"[..0] == "" && "2"[..0] == "";
    assert ValueOf("1") == 1;
  }

  // ---------------------------------------------------------------- the store

  function PageSince(events: seq<Event>, cursor: nat): EventsPage {
    EventsPage(if cursor >= |events| then [] else events[cursor..], |events|)
  }

  class FS {
    var events: seq<Event>
    var file: EventFile
    var cursorFile: Option<string>

    constructor (file: EventFile, cursorFile: Option<string>)
      ensures this.file == file && this.cursorFile == cursorFile && events == Readable(file)
    {
      this.file, this.cursorFile := file, cursorFile;
      var found: seq<Event> := [];
      for i := 0 to |file.lines|
        invariant found == EventsIn(file.lines[..i])
      {
        assert file.lines[..i + 1][..i] == file.lines[..i];
        if file.lines[i].EventLine? {
          found := found + [file.lines[i].event];
        }
      }
      assert file.lines[..|file.lines|] == file.lines;
      if file.tail.Unterminated? {
        found := found + [file.tail.event];
      }
      events := found;
    }

    /** The event is in memory exactly when the append succeeded. */
    method AppendEvent(event: Event, io: AppendIo) returns (ok: bool)
      modifies this`events, this`file
      ensures ok == io.Done?
      ensures file == Appended(old(file), event, io)
      ensures events == if ok then old(events) + [event] else old(events)
    {
      file := Appended(file, event, io);
      if !io.Done? {
        return false;
      }
      events := events + [event];
      return true;
    }

    method ReadEventsSince(cursor: nat) returns (page: EventsPage)
      ensures page == PageSince(events, cursor)
    {
      if cursor >= |events| {
        return EventsPage([], |events|);
      }
      return EventsPage(events[cursor..], |events|);
    }

    method SetCompileCursor(cursor: nat, io: CursorIo) returns (ok: bool)
      modifies this`cursorFile
      ensures ok == io.CursorDone? && cursorFile == CursorWritten(old(cursorFile), cursor, io)
      ensures ok && cursor < UINT64_LIMIT ==> CursorIn(cursorFile) == cursor
    {
      cursorFile := CursorWritten(cursorFile, cursor, io);
      if cursor < UINT64_LIMIT {
        CursorRoundTrip(old(cursorFile), cursor, io);
      }
      return io.CursorDone?;
    }

    method GetCompileCursor() returns (cursor: nat)
      ensures cursor == CursorIn(cursorFile)
    {
      if cursorFile.None? {
        return 0;
      }
      var parsed := ParseUint(TrimSpace(cursorFile.value));
      cursor := if parsed.None? then 0 else parsed.value;
    }
  }
}
