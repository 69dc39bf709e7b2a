/** Reading the agent's per-event verdicts out of the summary of a turn (`internal/agent/batch.go`),
    and how the summary is put together from streamed chunks (`internal/agent/backend_acp.go`). */
module Verdicts {
  import opened Text
  import opened Reasons

  datatype Option<+T> = None | Some(value: T)

  /** `Other` stands for any status text that the agent code does not know. */
  datatype ResultStatus = Integrated | Skipped | FailedByAgent | Unknown | Other(text: string)

  datatype EventResult = EventResult(
    eventId: string, status: ResultStatus, pages: seq<string>, reason: string, transcriptPath: string)

  // ---------------------------------------------------------------- one line

  /** `\s` of Go's regular expressions. */
  predicate IsRegexSpace(c: char) {
    c == '\t' || c == '\n' || c == '\U{000C}' || c == '\r' || c == ' '
  }

  function SpaceLen(s: string): (n: nat)
    ensures n <= |s|
  {
    if s != "" && IsRegexSpace(s[0]) then 1 + SpaceLen(s[1..]) else 0
  }

  function WordLen(s: string): (n: nat)
    ensures n <= |s|
  {
    if s != "" && !IsRegexSpace(s[0]) then 1 + WordLen(s[1..]) else 0
  }

  datatype Keyword = INTEGRATED | SKIPPED | FAILED

  function KeywordText(keyword: Keyword): string {
    match keyword
    case INTEGRATED => "INTEGRATED"
    case SKIPPED => "SKIPPED"
    case FAILED => "FAILED"
  }

  function KeywordAt(s: string): Option<Keyword> {
    if KeywordText(INTEGRATED) <= s then Some(INTEGRATED)
    else if KeywordText(SKIPPED) <= s then Some(SKIPPED)
    else if KeywordText(FAILED) <= s then Some(FAILED)
    else None
  }

  datatype Matched = Matched(eventId: string, keyword: Keyword, tail: string)

  /** One or more spaces, then the rest, which must not be empty. */
  function AfterSpaces(s: string): Option<string> {
    var n := SpaceLen(s);
    if n == 0 || n == |s| then None else Some(s[n..])
  }

  /** The verdict pattern `^EVENT\s+(\S+)\s+(INTEGRATED|SKIPPED|FAILED)\s+(.+)$` on a trimmed line. */
  function MatchVerdict(line: string): Option<Matched> {
    if !("EVENT" <= line) then None
    else
      match AfterSpaces(line[5..])
      case None => None
      case Some(named) =>
        var n := WordLen(named);
        match AfterSpaces(named[n..])
        case None => None
        case Some(worded) =>
          match KeywordAt(worded)
          case None => None
          case Some(keyword) =>
            match AfterSpaces(worded[|KeywordText(keyword)|..])
            case None => None
            case Some(tail) => Some(Matched(named[..n], keyword, tail))
  }

  /** The non-empty trimmed parts. */
  function PageNames(parts: seq<string>): seq<string> {
    if parts == [] then []
    else
      var page := TrimSpace(parts[0]);
      (if page != "" then [page] else []) + PageNames(parts[1..])
  }

  /** `parseEventResultLine`. */
  function ParseTail(m: Matched): Option<EventResult> {
    var tail := TrimSpace(m.tail);
    if m.keyword == INTEGRATED then
      if !("pages:" <= tail) then None
      else
        var pages := PageNames(Split(TrimSpace(TrimPrefix(tail, "pages:")), ','));
        if pages == [] then None else Some(EventResult(m.eventId, Integrated, pages, "", ""))
    else if !("reason:" <= tail) then None
    else
      var reason := TrimSpace(TrimPrefix(tail, "reason:"));
      if reason == "" then None
      else Some(EventResult(m.eventId, if m.keyword == FAILED then FailedByAgent else Skipped, [], reason, ""))
  }

  /** The verdict that a line of the summary gives, if it gives one. */
  function VerdictOf(rawLine: string): (verdict: Option<EventResult>)
    ensures verdict.Some? ==> verdict.value.status in {Integrated, Skipped, FailedByAgent}
  {
    match MatchVerdict(TrimSpace(rawLine))
    case None => None
    case Some(m) => ParseTail(m)
  }

  // ---------------------------------------------------------------- the summary

  /** What the lines of a summary say, line by line. */
  function Readings(summary: string): (readings: seq<Option<EventResult>>)
    ensures |readings| == |Split(summary, '\n')|
    ensures forall i :: 0 <= i < |readings| ==> readings[i] == VerdictOf(Split(summary, '\n')[i])
  {
    var lines := Split(summary, '\n');
    seq(|lines|, i requires 0 <= i < |lines| => VerdictOf(lines[i]))
  }

  predicate Names(reading: Option<EventResult>, id: string) {
    reading.Some? && reading.value.eventId == id
  }

  /** The last well-formed verdict about the event. */
  function LastVerdict(readings: seq<Option<EventResult>>, id: string): Option<EventResult> {
    if readings == [] then None
    else if Names(readings[|readings| - 1], id) then readings[|readings| - 1]
    else LastVerdict(readings[..|readings| - 1], id)
  }

  function VerdictCount(readings: seq<Option<EventResult>>): nat {
    if readings == [] then 0
    else VerdictCount(readings[..|readings| - 1]) + if readings[|readings| - 1].Some? then 1 else 0
  }

  /** Why an event without a verdict has none. */
  function DefaultReason(ids: seq<string>, summary: string): (reason: string)
    ensures IsValidUnknownReason(reason)
  {
    var readings := Readings(summary);
    if TrimSpace(summary) == "" then TURN_ENDED_NO_OUTPUT
    else if VerdictCount(readings) > 0 && forall id <- ids :: LastVerdict(readings, id).None? then MALFORMED_VERDICT
    else NO_PER_EVENT_VERDICT
  }

  function ResultFor(id: string, ids: seq<string>, summary: string, transcriptPath: string): EventResult {
    match LastVerdict(Readings(summary), id)
    case Some(verdict) => verdict
    case None =>
      EventResult(id, Unknown, [], DefaultReason(ids, summary),
                  if transcriptPath == "" then TRANSCRIPT_UNAVAILABLE else transcriptPath)
  }

  /** `LastVerdict` is the reading of the last line that names the event (line `i`), and nothing when
      no line does (`i` is then -1). */
  lemma {:induction false} LastVerdictIsLast(readings: seq<Option<EventResult>>, id: string) returns (i: int)
    ensures -1 <= i < |readings|
    ensures LastVerdict(readings, id) == if i < 0 then None else readings[i]
    ensures i >= 0 ==> Names(readings[i], id)
    ensures forall j :: i < j < |readings| ==> !Names(readings[j], id)
  {
    i := |readings| - 1;
    if readings != [] && !Names(readings[i], id) {
      i := LastVerdictIsLast(readings[..i], id);
    }
  }

  /** The parsed map holds what the lines read so far say about the batch's own events. */
  ghost predicate Holds(parsed: map<string, EventResult>, ids: seq<string>, readings: seq<Option<EventResult>>) {
    && (forall id :: id in parsed ==> id in ids)
    && forall id <- ids ::
         LastVerdict(readings, id) == if id in parsed then Some(parsed[id]) else None
  }

  lemma HoldsNext(
      parsed: map<string, EventResult>, ids: seq<string>, readings: seq<Option<EventResult>>,
      reading: Option<EventResult>)
    requires Holds(parsed, ids, readings)
    ensures
      if reading.Some? && reading.value.eventId in ids
      then Holds(parsed[reading.value.eventId := reading.value], ids, readings + [reading])
      else Holds(parsed, ids, readings + [reading])
    ensures VerdictCount(readings + [reading]) == VerdictCount(readings) + if reading.Some? then 1 else 0
  {
    assert (readings + [reading])[..|readings|] == readings;
  }

  /** What the map is after one more line. */
  function Noted(
      parsed: map<string, EventResult>, ids: seq<string>, reading: Option<EventResult>): map<string, EventResult> {
    if reading.Some? && reading.value.eventId in ids then parsed[reading.value.eventId := reading.value] else parsed
  }

  lemma NotedNext(parsed: map<string, EventResult>, ids: seq<string>, readings: seq<Option<EventResult>>, index: nat)
    requires index < |readings| && Holds(parsed, ids, readings[..index])
    ensures Holds(Noted(parsed, ids, readings[index]), ids, readings[..index + 1])
    ensures VerdictCount(readings[..index + 1]) ==
      VerdictCount(readings[..index]) + if readings[index].Some? then 1 else 0
  {
    HoldsNext(parsed, ids, readings[..index], readings[index]);
    assert readings[..index + 1] == readings[..index] + [readings[index]];
  }

  /** The first loop of `parseEventResults`: the verdicts of the batch's own events, the later ones
      overwriting the earlier, and how many lines gave a verdict at all. */
  method CollectVerdicts(ids: seq<string>, summary: string)
    returns (parsed: map<string, EventResult>, validEventLines: nat)
    ensures Holds(parsed, ids, Readings(summary))
    ensures validEventLines == VerdictCount(Readings(summary))
  {
    parsed, validEventLines := map[], 0;
    var lines := Split(summary, '\n');
    ghost var readings := Readings(summary);
    for index := 0 to |lines|
      invariant Holds(parsed, ids, readings[..index])
      invariant validEventLines == VerdictCount(readings[..index])
    {
      NotedNext(parsed, ids, readings, index);
      var result := VerdictOf(lines[index]);
      if result.None? {
        continue;
      }
      validEventLines := validEventLines + 1;
      if result.value.eventId !in ids {
        continue;
      }
      parsed := parsed[result.value.eventId := result.value];
    }
    assert readings[..|lines|] == readings;
  }

  lemma NoneParsed(parsed: map<string, EventResult>, ids: seq<string>, readings: seq<Option<EventResult>>)
    requires Holds(parsed, ids, readings)
    ensures |parsed| == 0 <==> forall id <- ids :: LastVerdict(readings, id).None?
  {
    if |parsed| != 0 {
      var id :| id in parsed;
      assert LastVerdict(readings, id).Some?;
    }
  }

  /** `parseEventResults`: one result per event of the batch, in batch order, each the last well-formed
      verdict that names it; an event without one is unknown, with a reason and a transcript. */
  method ParseEventResults(ids: seq<string>, summary: string, transcriptPath: string)
    returns (results: seq<EventResult>)
    ensures |results| == |ids|
    ensures forall i :: 0 <= i < |ids| ==> results[i] == ResultFor(ids[i], ids, summary, transcriptPath)
  {
    var parsed, validEventLines := CollectVerdicts(ids, summary);
    var defaultReason := NO_PER_EVENT_VERDICT;
    if TrimSpace(summary) == "" {
      defaultReason := TURN_ENDED_NO_OUTPUT;
    } else if validEventLines > 0 && |parsed| == 0 {
      defaultReason := MALFORMED_VERDICT;
    }
    NoneParsed(parsed, ids, Readings(summary));
    assert defaultReason == DefaultReason(ids, summary);
    results := FillResults(ids, summary, transcriptPath, parsed, defaultReason);
  }

  /** The second loop of `parseEventResults`. */
  method FillResults(
      ids: seq<string>, summary: string, transcriptPath: string, parsed: map<string, EventResult>,
      defaultReason: string)
    returns (results: seq<EventResult>)
    requires Holds(parsed, ids, Readings(summary)) && defaultReason == DefaultReason(ids, summary)
    ensures |results| == |ids|
    ensures forall i :: 0 <= i < |ids| ==> results[i] == ResultFor(ids[i], ids, summary, transcriptPath)
  {
    var transcript := if transcriptPath == "" then TRANSCRIPT_UNAVAILABLE else transcriptPath;
    results := [];
    for index := 0 to |ids|
      invariant |results| == index
      invariant forall i :: 0 <= i < index ==> results[i] == ResultFor(ids[i], ids, summary, transcriptPath)
    {
      var result := EventResult(ids[index], Unknown, [], defaultReason, transcript);
      if ids[index] in parsed {
        result := parsed[ids[index]];
      }
      results := results + [result];
    }
  }

  /** A result is about the event it was asked for; an unknown one has a reason from the closed list
      and names a transcript. */
  lemma ResultsAreComplete(id: string, ids: seq<string>, summary: string, transcriptPath: string)
    ensures
      var result := ResultFor(id, ids, summary, transcriptPath);
      && result.eventId == id
      && !result.status.Other?
      && (result.status == Unknown ==> IsValidUnknownReason(result.reason) && result.transcriptPath != "")
  {
    var i := LastVerdictIsLast(Readings(summary), id);
  }

  // ---------------------------------------------------------------- streamed chunks

  /** `appendAgentMessageChunk`: the builder the chunks of one turn are added to. */
  class SummaryBuilder {
    var text: string

    constructor ()
      ensures text == ""
    {
      text := "";
    }

    method AppendAgentMessageChunk(chunk: string)
      modifies this
      ensures text == Accumulated(old(text), chunk)
    {
      if chunk == "" {
        return;
      }
      if |text| > 0 {
        text := text + "\n";
      }
      text := text + chunk;
    }
  }

  function Accumulated(text: string, chunk: string): string {
    if chunk == "" then text else if text == "" then chunk else text + "\n" + chunk
  }

  function Summary(chunks: seq<string>): string {
    if chunks == [] then "" else Accumulated(Summary(chunks[..|chunks| - 1]), chunks[|chunks| - 1])
  }

  function LinesOf(chunks: seq<string>): seq<string> {
    if chunks == [] then []
    else
      LinesOf(chunks[..|chunks| - 1]) +
      if chunks[|chunks| - 1] == "" then [] else Split(chunks[|chunks| - 1], '\n')
  }

  /** The lines of the summary are those of the chunks, in order: no line runs across two chunks. */
  lemma {:induction false} SummaryLines(chunks: seq<string>)
    ensures Summary(chunks) == "" <==> forall c <- chunks :: c == ""
    ensures Summary(chunks) == "" ==> LinesOf(chunks) == []
    ensures Summary(chunks) != "" ==> Split(Summary(chunks), '\n') == LinesOf(chunks)
  {
    if chunks != [] {
      var before, last := chunks[..|chunks| - 1], chunks[|chunks| - 1];
      SummaryLines(before);
      assert chunks == before + [last] && last in chunks;
      assert forall c <- before :: c in chunks;
      if last != "" && Summary(before) != "" {
        SplitAtSeparator(Summary(before), last, '\n');
        assert "\n" == ['\n'];
      }
    }
  }

  // ---------------------------------------------------------------- round trip

  /** An id the pattern can read back. */
  predicate PlainId(id: string) {
    id != "" && forall c <- id :: !IsRegexSpace(c)
  }

  /** A text that survives trimming and stays on its line. */
  predicate PlainText(text: string) {
    text != "" && !IsSpace(text[0]) && !IsSpace(text[|text| - 1]) && '\n' !in text
  }

  /** A verdict the agent can report in the format the prompt asks for. */
  predicate Reportable(result: EventResult) {
    && PlainId(result.eventId) && result.transcriptPath == ""
    && match result.status
       case Integrated =>
         result.pages != [] && result.reason == "" && forall p <- result.pages :: PlainText(p) && ',' !in p
       case Skipped => result.pages == [] && PlainText(result.reason)
       case FailedByAgent => result.pages == [] && PlainText(result.reason)
       case _ => false
  }

  function KeywordFor(status: ResultStatus): Keyword {
    match status
    case Skipped => SKIPPED
    case FailedByAgent => FAILED
    case _ => INTEGRATED
  }

  function TailFor(result: EventResult): string {
    if result.status == Integrated then "pages: " + Join(result.pages, ", ") else "reason: " + result.reason
  }

  /** `ReportLine` before the fields are put in. */
  function LineOf(id: string, keyword: Keyword, tail: string): string {
    "EVENT " + id + " " + KeywordText(keyword) + " " + tail
  }

  /** The line format that the batch prompt prescribes. */
  function ReportLine(result: EventResult): string {
    LineOf(result.eventId, KeywordFor(result.status), TailFor(result))
  }

  lemma {:induction false} WordStops(word: string, rest: string)
    requires forall c <- word :: !IsRegexSpace(c)
    requires rest != "" && IsRegexSpace(rest[0])
    ensures WordLen(word + rest) == |word|
  {
    if word == "" {
      assert word + rest == rest;
    } else {
      assert (word + rest)[1..] == word[1..] + rest;
      WordStops(word[1..], rest);
    }
  }

  lemma OneSpace(rest: string)
    requires rest != "" && !IsRegexSpace(rest[0])
    ensures AfterSpaces(" " + rest) == Some(rest)
  {
    assert (" " + rest)[1..] == rest && SpaceLen(rest) == 0;
    assert SpaceLen(" " + rest) == 1;
  }

  lemma KeywordReads(keyword: Keyword, tail: string)
    ensures KeywordAt(KeywordText(keyword) + tail) == Some(keyword)
  {
    var worded := KeywordText(keyword) + tail;
    assert worded[0] == KeywordText(keyword)[0];
  }

  lemma MatchReport(id: string, keyword: Keyword, tail: string)
    requires PlainId(id) && tail != "" && !IsRegexSpace(tail[0])
    ensures MatchVerdict(LineOf(id, keyword, tail)) == Some(Matched(id, keyword, tail))
  {
    var word := KeywordText(keyword);
    var worded := word + (" " + tail);
    var named := id + (" " + worded);
    var line := LineOf(id, keyword, tail);
    assert line == "EVENT" + (" " + named) && line[5..] == " " + named;
    OneSpace(named);
    WordStops(id, " " + worded);
    assert named[|id|..] == " " + worded && named[..|id|] == id;
    OneSpace(worded);
    KeywordReads(keyword, " " + tail);
    assert worded[|word|..] == " " + tail;
    OneSpace(tail);
  }

  /** What the join of two or more pages looks like to a splitter on commas. */
  lemma {:induction false} PagesRoundTrip(pages: seq<string>)
    requires pages != [] && forall p <- pages :: PlainText(p) && ',' !in p
    ensures PageNames(Split(Join(pages, ", "), ',')) == pages
    ensures PlainText(Join(pages, ", "))
  {
    var first := pages[0];
    SplitWhole(first, ',');
    TrimmedIsFixed(first);
    if |pages| == 1 {
      assert PageNames([first]) == [first] + PageNames([]);
    } else {
      var rest := Join(pages[1..], ", ");
      PagesRoundTrip(pages[1..]);
      var joined := first + [','] + (" " + rest);
      assert Join(pages, ", ") == joined;
      SplitAtSeparator(first, " " + rest, ',');
      SpaceFirst(rest);
      var parts := Split(" " + rest, ',');
      assert ([first] + parts)[1..] == parts;
    }
  }

  /** A space in front of the text is trimmed off the first part. */
  lemma SpaceFirst(rest: string)
    ensures PageNames(Split(" " + rest, ',')) == PageNames(Split(rest, ','))
  {
    var parts := Split(rest, ',');
    assert (" " + rest)[1..] == rest;
    assert Split(" " + rest, ',') == [" " + parts[0]] + parts[1..];
    assert (" " + parts[0])[1..] == parts[0];
    assert TrimSpace(" " + parts[0]) == TrimSpace(parts[0]);
    assert ([" " + parts[0]] + parts[1..])[1..] == parts[1..];
  }

  lemma TrimAfterLabel(head: string, text: string)
    requires PlainText(text) && head != "" && !IsSpace(head[0])
    ensures TrimSpace(head + " " + text) == head + " " + text
    ensures TrimSpace(TrimPrefix(head + " " + text, head)) == text
  {
    var whole := head + " " + text;
    TrimmedIsFixed(whole);
    assert whole[|head|..] == " " + text;
    assert (" " + text)[1..] == text;
    TrimmedIsFixed(text);
  }

  lemma LabelledPages(list: string)
    ensures "pages: " + list == "pages:" + " " + list
  {
  }

  lemma PagesTailRoundTrip(id: string, pages: seq<string>)
    requires pages != [] && forall p <- pages :: PlainText(p) && ',' !in p
    ensures PlainText("pages: " + Join(pages, ", "))
    ensures ParseTail(Matched(id, INTEGRATED, "pages: " + Join(pages, ", "))) ==
      Some(EventResult(id, Integrated, pages, "", ""))
  {
    var list := Join(pages, ", ");
    PagesRoundTrip(pages);
    LabelledPages(list);
    TrimAfterLabel("pages:", list);
    PlainTail("pages: ", list);
  }

  lemma PlainTail(front: string, text: string)
    requires PlainText(text) && front != "" && !IsSpace(front[0]) && '\n' !in front
    ensures PlainText(front + text)
  {
    assert (front + text)[|front + text| - 1] == text[|text| - 1];
  }

  lemma ReasonTailRoundTrip(id: string, keyword: Keyword, reason: string)
    requires PlainText(reason) && keyword != INTEGRATED
    ensures PlainText("reason: " + reason)
    ensures ParseTail(Matched(id, keyword, "reason: " + reason)) ==
      Some(EventResult(id, if keyword == FAILED then FailedByAgent else Skipped, [], reason, ""))
  {
    TrimAfterLabel("reason:", reason);
    assert "reason: " + reason == "reason:" + " " + reason;
  }

  lemma TailRoundTrip(result: EventResult)
    requires Reportable(result)
    ensures PlainText(TailFor(result))
    ensures ParseTail(Matched(result.eventId, KeywordFor(result.status), TailFor(result))) == Some(result)
  {
    if result.status == Integrated {
      PagesTailRoundTrip(result.eventId, result.pages);
    } else {
      ReasonTailRoundTrip(result.eventId, KeywordFor(result.status), result.reason);
    }
  }

  lemma VerdictFrom(line: string, m: Matched, result: EventResult)
    requires TrimSpace(line) == line && MatchVerdict(line) == Some(m) && ParseTail(m) == Some(result)
    ensures VerdictOf(line) == Some(result)
  {
  }

  lemma LineShape(head: string, tail: string)
    requires PlainText(tail) && head != "" && !IsSpace(head[0]) && '\n' !in head
    ensures TrimSpace(head + tail) == head + tail && '\n' !in head + tail
  {
    TrimmedIsFixed(head + tail);
  }

  lemma LineIsTrimmed(id: string, keyword: Keyword, tail: string)
    requires PlainId(id) && PlainText(tail)
    ensures TrimSpace(LineOf(id, keyword, tail)) == LineOf(id, keyword, tail) && '\n' !in LineOf(id, keyword, tail)
  {
    LineShape("EVENT " + id + " " + KeywordText(keyword) + " ", tail);
  }

  /** A verdict printed in the prescribed format reads back as itself. */
  lemma ReportRoundTrip(result: EventResult)
    requires Reportable(result)
    ensures VerdictOf(ReportLine(result)) == Some(result)
    ensures '\n' !in ReportLine(result)
  {
    var id, keyword, tail := result.eventId, KeywordFor(result.status), TailFor(result);
    assert PlainText(tail) && ParseTail(Matched(id, keyword, tail)) == Some(result) by {
      TailRoundTrip(result);
    }
    LineIsTrimmed(id, keyword, tail);
    assert MatchVerdict(LineOf(id, keyword, tail)) == Some(Matched(id, keyword, tail)) by {
      MatchReport(id, keyword, tail);
    }
    VerdictFrom(LineOf(id, keyword, tail), Matched(id, keyword, tail), result);
  }

  function ReportLines(results: seq<EventResult>): (lines: seq<string>)
    ensures |lines| == |results| && forall i :: 0 <= i < |results| ==> lines[i] == ReportLine(results[i])
  {
    seq(|results|, i requires 0 <= i < |results| => ReportLine(results[i]))
  }

  lemma {:induction false} LastVerdictInReport(readings: seq<Option<EventResult>>, results: seq<EventResult>, i: nat)
    requires i < |results| == |readings|
    requires forall j :: 0 <= j < |results| ==> readings[j] == Some(results[j])
    requires forall j, k :: 0 <= j < k < |results| ==> results[j].eventId != results[k].eventId
    ensures LastVerdict(readings, results[i].eventId) == Some(results[i])
  {
    var n := |results| - 1;
    if i < n {
      LastVerdictInReport(readings[..n], results[..n], i);
      assert results[i].eventId != results[n].eventId;
    }
  }

  /** A whole report in the prescribed format, one line per event, parses back to the same verdicts. */
  lemma WholeReportRoundTrip(results: seq<EventResult>, ids: seq<string>, transcriptPath: string, i: nat)
    requires results != [] && forall r <- results :: Reportable(r)
    requires forall j, k :: 0 <= j < k < |results| ==> results[j].eventId != results[k].eventId
    requires i < |results|
    ensures ResultFor(results[i].eventId, ids, Join(ReportLines(results), "\n"), transcriptPath) == results[i]
  {
    var report := Join(ReportLines(results), "\n");
    forall k | 0 <= k < |results|
      ensures VerdictOf(ReportLine(results[k])) == Some(results[k]) && '\n' !in ReportLine(results[k])
    {
      assert results[k] in results;
      ReportRoundTrip(results[k]);
    }
    assert "\n" == ['\n'];
    SplitOfJoin(ReportLines(results), '\n');
    LastVerdictInReport(Readings(report), results, i);
  }
}
