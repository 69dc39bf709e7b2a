/** Conversion of whole lines and pages around inline code and fences (`internal/okf/migration.go`), for
    any tame replacement. */
module CodeSpans {
  import opened Text
  import opened Rewriting

  // ---------------------------------------------------------------- a line

  datatype Span = Prose(text: string) | Code(text: string)

  function CountBackticks(s: string): (n: nat)
    ensures n <= |s| && (forall i :: 0 <= i < n ==> s[i] == '`') && (n < |s| ==> s[n] != '`')
  {
    if s == "" || s[0] != '`' then 0 else 1 + CountBackticks(s[1..])
  }

  predicate TicksAt(s: string, i: nat, run: nat) {
    i + run <= |s| && forall k :: i <= k < i + run ==> s[k] == '`'
  }

  /** Where the next run of that many backticks starts, or -1 (`strings.Index`). */
  function FindTicks(s: string, run: nat): (i: int)
    ensures i >= -1
    ensures i >= 0 ==> TicksAt(s, i, run) && forall j :: 0 <= j < i ==> !TicksAt(s, j, run)
    ensures i < 0 ==> forall j: nat :: !TicksAt(s, j, run)
  {
    if TicksAt(s, 0, run) then 0
    else if s == "" then -1
    else
      var i := FindTicks(s[1..], run);
      assert forall j: nat :: j > 0 && TicksAt(s, j, run) ==> TicksAt(s[1..], j - 1, run);
      assert forall j: nat :: TicksAt(s[1..], j, run) ==> TicksAt(s, j + 1, run);
      if i < 0 then -1 else i + 1
  }

  function ProseLength(s: string): (n: nat)
    ensures n <= |s| && '`' !in s[..n] && (n < |s| ==> s[n] == '`')
    ensures forall i :: 0 <= i < n ==> s[i] != '`'
    ensures s != "" && s[0] != '`' ==> n > 0
  {
    if s == "" || s[0] == '`' then 0
    else
      var n := ProseLength(s[1..]);
      assert s[..n + 1] == [s[0]] + s[1..][..n];
      n + 1
  }

  /** The end of the code span that the line starts with, or 0 if it is not closed. */
  function CodeEnd(line: string): (n: nat)
    requires line != "" && line[0] == '`'
    ensures n <= |line|
  {
    var run := CountBackticks(line);
    var end := FindTicks(line[run..], run);
    if end < 0 then 0 else run + end + run
  }

  /** The line as prose and code, in order; an unclosed run of backticks makes the rest code. */
  function Spans(line: string): seq<Span>
    decreases |line|
  {
    if line == "" then []
    else if line[0] == '`' then
      var n := CodeEnd(line);
      if n == 0 then [Code(line)] else [Code(line[..n])] + Spans(line[n..])
    else
      var n := ProseLength(line);
      [Prose(line[..n])] + Spans(line[n..])
  }

  function ConvertSpan(replace: string -> string, span: Span): Span {
    match span
    case Prose(text) => Prose(Convert(replace, text))
    case Code(text) => span
  }

  function ConvertSpans(replace: string -> string, spans: seq<Span>): (converted: seq<Span>)
    ensures |converted| == |spans| && forall i :: 0 <= i < |spans| ==> converted[i] == ConvertSpan(replace, spans[i])
  {
    seq(|spans|, i requires 0 <= i < |spans| => ConvertSpan(replace, spans[i]))
  }

  function Flatten(spans: seq<Span>): string {
    if spans == [] then "" else spans[0].text + Flatten(spans[1..])
  }

  /** A line with the matches of its prose replaced. */
  function ConvertLine(replace: string -> string, line: string): string {
    Flatten(ConvertSpans(replace, Spans(line)))
  }

  lemma ConvertSpansFirst(replace: string -> string, span: Span, rest: seq<Span>)
    ensures ConvertSpans(replace, [span] + rest) == [ConvertSpan(replace, span)] + ConvertSpans(replace, rest)
    ensures Flatten([span] + rest) == span.text + Flatten(rest)
  {
    assert ([span] + rest)[1..] == rest;
  }

  lemma FlattenFirst(span: Span, rest: seq<Span>)
    ensures Flatten([span] + rest) == span.text + Flatten(rest)
  {
    assert ([span] + rest)[1..] == rest;
  }

  /** The length of the first span. */
  function FirstSpan(line: string): (n: nat)
    requires line != ""
    ensures 0 < n <= |line|
  {
    if line[0] != '`' then ProseLength(line) else if CodeEnd(line) == 0 then |line| else CodeEnd(line)
  }

  function SpanOf(line: string): Span
    requires line != ""
  {
    if line[0] == '`' then Code(line[..FirstSpan(line)]) else Prose(line[..FirstSpan(line)])
  }

  lemma SpansStep(line: string)
    requires line != ""
    ensures Spans(line) == [SpanOf(line)] + Spans(line[FirstSpan(line)..])
  {
    if line[0] == '`' && CodeEnd(line) == 0 {
      assert line[..|line|] == line && line[|line|..] == "";
      assert Spans("") == [];
      assert [Code(line)] + [] == [Code(line)];
    }
  }

  /** The spans are the line. */
  lemma {:induction false} SpansAreLine(line: string)
    ensures Flatten(Spans(line)) == line
    decreases |line|
  {
    if line != "" {
      var n := FirstSpan(line);
      SpansAreLine(line[n..]);
      SpansStep(line);
      FlattenFirst(SpanOf(line), Spans(line[n..]));
      Rejoin(line, n);
    }
  }

  lemma Rejoin(s: string, n: nat)
    requires n <= |s|
    ensures s[..n] + s[n..] == s
  {
  }

  /** Conversion of the first span, and then of the rest. */
  lemma ConvertLineStep(replace: string -> string, line: string)
    requires line != ""
    ensures line[0] == '`' && CodeEnd(line) == 0 ==> ConvertLine(replace, line) == line
    ensures line[0] == '`' && CodeEnd(line) > 0 ==>
      ConvertLine(replace, line) == line[..CodeEnd(line)] + ConvertLine(replace, line[CodeEnd(line)..])
    ensures line[0] != '`' ==>
      ConvertLine(replace, line) ==
        Convert(replace, line[..ProseLength(line)]) + ConvertLine(replace, line[ProseLength(line)..])
  {
    if line[0] == '`' {
      var n := CodeEnd(line);
      if n == 0 {
        ConvertSpansFirst(replace, Code(line), []);
        ConvertSpansFirst(replace, Code(line), ConvertSpans(replace, []));
        assert [Code(line)] + [] == [Code(line)];
      } else {
        ConvertSpansFirst(replace, Code(line[..n]), Spans(line[n..]));
        ConvertSpansFirst(replace, Code(line[..n]), ConvertSpans(replace, Spans(line[n..])));
      }
    } else {
      var n := ProseLength(line);
      ConvertSpansFirst(replace, Prose(line[..n]), Spans(line[n..]));
      ConvertSpansFirst(replace, Prose(Convert(replace, line[..n])), ConvertSpans(replace, Spans(line[n..])));
    }
  }

  /** Between its two runs of backticks, a code span has something else. */
  lemma CodeHasBody(line: string)
    requires line != "" && line[0] == '`' && CodeEnd(line) > 0
    ensures CountBackticks(line) < CodeEnd(line) && line[CountBackticks(line)] != '`'
  {
    var run := CountBackticks(line);
    assert TicksAt(line[run..], FindTicks(line[run..], run), run);
  }

  /** A closed code span is found again whatever follows it. */
  lemma CodeSpanStays(line: string, rest: string)
    requires line != "" && line[0] == '`' && CodeEnd(line) > 0
    ensures
      var code := line[..CodeEnd(line)];
      code != "" && code[0] == '`' && CodeEnd(code + rest) == |code|
  {
    var run, n := CountBackticks(line), CodeEnd(line);
    var code := line[..n];
    var other := code + rest;
    var end := FindTicks(line[run..], run);
    CodeHasBody(line);
    SameRun(line, other, run);
    forall j | 0 <= j < end ensures !TicksAt(other[run..], j, run) {
      if TicksAt(other[run..], j, run) {
        assert forall k :: j <= k < j + run ==> line[run..][k] == other[run..][k];
        assert TicksAt(line[run..], j, run);
      }
    }
    assert TicksAt(other[run..], end, run) by {
      assert forall k :: end <= k < end + run ==> other[run..][k] == line[run..][k];
    }
    FirstTicks(other[run..], run, end);
  }

  lemma SameRun(a: string, b: string, run: nat)
    requires run < |a| && run < |b| && CountBackticks(a) == run && forall i :: 0 <= i <= run ==> a[i] == b[i]
    ensures CountBackticks(b) == run
  {
    var n := CountBackticks(b);
    assert b[run] != '`' && forall i :: 0 <= i < run ==> b[i] == '`';
  }

  lemma FirstTicks(s: string, run: nat, i: nat)
    requires TicksAt(s, i, run) && forall j :: 0 <= j < i ==> !TicksAt(s, j, run)
    ensures FindTicks(s, run) == i
  {
    var k := FindTicks(s, run);
    assert k >= 0;
  }

  lemma ProseLengthIs(s: string, n: nat)
    requires n <= |s| && (forall i :: 0 <= i < n ==> s[i] != '`') && (n < |s| ==> s[n] == '`')
    ensures ProseLength(s) == n
  {
    var k := ProseLength(s);
  }

  /** A stretch of prose ends where the next backtick is. */
  lemma ProseStays(text: string, rest: string)
    requires '`' !in text && (rest == "" || rest[0] == '`')
    ensures ProseLength(text + rest) == |text|
  {
    forall i | 0 <= i < |text| ensures (text + rest)[i] != '`' {
      assert (text + rest)[i] == text[i] && text[i] in text;
    }
    ProseLengthIs(text + rest, |text|);
  }

  lemma ConvertedFirst(replace: string -> string, line: string)
    requires Tame(replace) && line != ""
    ensures ConvertLine(replace, line) != "" && ConvertLine(replace, line)[0] == line[0]
  {
    ConvertLineStep(replace, line);
    if line[0] != '`' {
      FirstStays(replace, line[..ProseLength(line)]);
    }
  }

  /** Code comes through byte for byte: the spans of the converted line are those of the line, with the
      prose converted. */
  lemma {:induction false} CodeIsSafe(replace: string -> string, line: string)
    requires Tame(replace)
    ensures Spans(ConvertLine(replace, line)) == ConvertSpans(replace, Spans(line))
    decreases |line|
  {
    if line == "" {
      assert ConvertSpans(replace, []) == [];
    } else {
      ConvertLineStep(replace, line);
      if line[0] == '`' {
        var n := CodeEnd(line);
        if n == 0 {
          ConvertSpansFirst(replace, Code(line), []);
          assert [Code(line)] + [] == [Code(line)] && ConvertSpans(replace, []) == [];
        } else {
          CodeIsSafe(replace, line[n..]);
          ConvertSpansFirst(replace, Code(line[..n]), Spans(line[n..]));
          CodeInFront(line, ConvertLine(replace, line[n..]));
        }
      } else {
        var n := ProseLength(line);
        CodeIsSafe(replace, line[n..]);
        ConvertSpansFirst(replace, Prose(line[..n]), Spans(line[n..]));
        ProseInFront(replace, line[..n], line[n..]);
      }
    }
  }

  lemma CodeInFront(line: string, rest: string)
    requires line != "" && line[0] == '`' && CodeEnd(line) > 0
    ensures Spans(line[..CodeEnd(line)] + rest) == [Code(line[..CodeEnd(line)])] + Spans(rest)
  {
    var code := line[..CodeEnd(line)];
    CodeSpanStays(line, rest);
    assert (code + rest)[..|code|] == code && (code + rest)[|code|..] == rest;
  }

  lemma ProseInFront(replace: string -> string, text: string, rest: string)
    requires Tame(replace) && text != "" && '`' !in text && (rest == "" || rest[0] == '`')
    ensures
      var converted, after := Convert(replace, text), ConvertLine(replace, rest);
      Spans(converted + after) == [Prose(converted)] + Spans(after)
  {
    var converted, after := Convert(replace, text), ConvertLine(replace, rest);
    FirstStays(replace, text);
    NothingComesIn(replace, text, '`');
    assert converted[0] in converted;
    if rest != "" {
      ConvertedFirst(replace, rest);
    } else {
      assert after == "";
    }
    ProseStays(converted, after);
    assert (converted + after)[..|converted|] == converted && (converted + after)[|converted|..] == after;
  }

  /** Prose spans hold no backtick. */
  lemma {:induction false} ProseHasNoTicks(line: string)
    ensures forall i :: 0 <= i < |Spans(line)| && Spans(line)[i].Prose? ==> '`' !in Spans(line)[i].text
    decreases |line|
  {
    if line != "" {
      if line[0] == '`' {
        if CodeEnd(line) > 0 {
          ProseHasNoTicks(line[CodeEnd(line)..]);
        }
      } else {
        ProseHasNoTicks(line[ProseLength(line)..]);
      }
    }
  }

  /** Converting a converted line changes nothing. */
  lemma LineTwice(replace: string -> string, line: string)
    requires Tame(replace)
    ensures ConvertLine(replace, ConvertLine(replace, line)) == ConvertLine(replace, line)
  {
    CodeIsSafe(replace, line);
    ProseHasNoTicks(line);
    var spans := Spans(line);
    var once := ConvertSpans(replace, spans);
    forall i | 0 <= i < |spans| ensures ConvertSpan(replace, once[i]) == once[i] {
      if spans[i].Prose? {
        ConvertTwice(replace, spans[i].text);
      }
    }
    assert ConvertSpans(replace, once) == once;
  }

  lemma ConvertFirst(replace: string -> string, line: string)
    requires line != ""
    ensures ConvertLine(replace, line) ==
      ConvertSpan(replace, SpanOf(line)).text + ConvertLine(replace, line[FirstSpan(line)..])
  {
    var span, rest := SpanOf(line), Spans(line[FirstSpan(line)..]);
    SpansStep(line);
    ConvertSpansFirst(replace, span, rest);
    FlattenFirst(ConvertSpan(replace, span), ConvertSpans(replace, rest));
  }

  lemma Regroup(a: string, b: string, c: string)
    ensures a + b + c == a + (b + c)
  {
  }

  /** One round of the loop: the first span of what is left goes to the output. */
  lemma Advance(replace: string -> string, line: string, i: nat, n: nat, done: string, part: string)
    requires i < |line| && n == FirstSpan(line[i..]) && part == ConvertSpan(replace, SpanOf(line[i..])).text
    requires done + ConvertLine(replace, line[i..]) == ConvertLine(replace, line)
    ensures i + n <= |line| && done + part + ConvertLine(replace, line[i + n..]) == ConvertLine(replace, line)
  {
    ConvertFirst(replace, line[i..]);
    assert line[i..][n..] == line[i + n..];
    Regroup(done, part, ConvertLine(replace, line[i + n..]));
  }

  /** The first span of the rest of a line, converted, and how much of the line it takes. */
  method ConvertNext(replace: string -> string, rest: string) returns (part: string, n: nat)
    requires rest != ""
    ensures n == FirstSpan(rest) && part == ConvertSpan(replace, SpanOf(rest)).text
  {
    if rest[0] == '`' {
      var run := CountBackticks(rest);
      var end := FindTicks(rest[run..], run);
      n := if end < 0 then |rest| else run + end + run;
      part := rest[..n];
    } else {
      n := ProseLength(rest);
      part := Convert(replace, rest[..n]);
    }
  }

  /** The line with the matches outside inline code replaced (`convertWikiLinksOutsideInlineCode`). */
  method ConvertOutsideInlineCode(replace: string -> string, line: string) returns (b: string)
    ensures b == ConvertLine(replace, line)
  {
    b := "";
    var i := 0;
    assert line[0..] == line;
    while i < |line|
      invariant 0 <= i <= |line|
      invariant b + ConvertLine(replace, line[i..]) == ConvertLine(replace, line)
    {
      var part, n := ConvertNext(replace, line[i..]);
      Advance(replace, line, i, n, b, part);
      b := b + part;
      i := i + n;
    }
    assert line[i..] == "" && ConvertLine(replace, "") == "";
  }

  // ---------------------------------------------------------------- fences

  /** The line opens or closes a fence. */
  predicate FenceLine(line: string) {
    "```" <= TrimSpace(line) || "~~~" <= TrimSpace(line)
  }

  /** The text starts with n of the character. */
  predicate Leading(s: string, c: char, n: nat) {
    n == 0 || (s != "" && s[0] == c && Leading(s[1..], c, n - 1))
  }

  lemma LeadingThree(s: string, c: char)
    ensures Leading(s, c, 3) <==> [c, c, c] <= s
  {
    if |s| >= 3 {
      assert s[1..][0] == s[1] && s[1..][1..] == s[2..] && s[2..][0] == s[2];
      assert Leading(s, c, 3) <==> s[0] == c && Leading(s[1..], c, 2);
      assert Leading(s[1..], c, 2) <==> s[1] == c && Leading(s[2..], c, 1);
      assert Leading(s[2..], c, 1) <==> s[2] == c;
      assert s[..3] == [s[0], s[1], s[2]];
    } else {
      ShortLead(s, c, 3);
    }
  }

  lemma {:induction false} ShortLead(s: string, c: char, n: nat)
    requires |s| < n
    ensures !Leading(s, c, n)
  {
    if s != "" {
      ShortLead(s[1..], c, n - 1);
    }
  }

  lemma FenceMeans(line: string)
    ensures FenceLine(line) <==> Leading(TrimLeft(line), '`', 3) || Leading(TrimLeft(line), '~', 3)
  {
    var text := TrimLeft(line);
    var k := TrimRightPrefix(text);
    LeadingThree(text, '`');
    LeadingThree(text, '~');
    PrefixOfTrimmed(text, k, '`');
    PrefixOfTrimmed(text, k, '~');
    assert ['`', '`', '`'] == "```" && ['~', '~', '~'] == "~~~";
  }

  lemma PrefixOfTrimmed(s: string, k: nat, c: char)
    requires k <= |s| && !IsSpace(c) && forall i :: k <= i < |s| ==> IsSpace(s[i])
    ensures [c, c, c] <= s[..k] <==> [c, c, c] <= s
  {
    if [c, c, c] <= s {
      assert s[2] == c;
      assert s[..k][..3] == s[..3];
    }
  }

  /** Prose is converted on its own, up to the next backtick. */
  lemma ConvertProse(replace: string -> string, text: string, rest: string)
    requires '`' !in text && (rest == "" || rest[0] == '`')
    ensures ConvertLine(replace, text + rest) == Convert(replace, text) + ConvertLine(replace, rest)
  {
    if text == "" {
      assert text + rest == rest;
    } else {
      ProseStays(text, rest);
      assert text[0] in text;
      assert (text + rest)[..|text|] == text && (text + rest)[|text|..] == rest;
      ConvertLineStep(replace, text + rest);
    }
  }

  lemma PlainChar(replace: string -> string, c: char, text: string)
    requires c != '['
    ensures Convert(replace, [c] + text) == [c] + Convert(replace, text)
  {
    assert ([c] + text)[1..] == text;
  }

  lemma PlainInFront(replace: string -> string, c: char, text: string, rest: string)
    requires c != '[' && c != '`' && '`' !in text && (rest == "" || rest[0] == '`')
    ensures ConvertLine(replace, [c] + text + rest) == [c] + ConvertLine(replace, text + rest)
  {
    var longer := [c] + text;
    assert '`' !in longer;
    ConvertProse(replace, longer, rest);
    ConvertProse(replace, text, rest);
    PlainChar(replace, c, text);
    Regroup([c], Convert(replace, text), ConvertLine(replace, rest));
  }

  /** A line as the prose it starts with and the rest. */
  lemma ProseAndRest(line: string) returns (text: string, rest: string)
    ensures line == text + rest && '`' !in text && (rest == "" || rest[0] == '`')
  {
    text, rest := line[..ProseLength(line)], line[ProseLength(line)..];
  }

  lemma PlainFirst(replace: string -> string, line: string)
    requires line != "" && line[0] != '`' && line[0] != '['
    ensures ConvertLine(replace, line) == [line[0]] + ConvertLine(replace, line[1..])
  {
    var text, rest := ProseAndRest(line[1..]);
    assert line == [line[0]] + text + rest;
    PlainInFront(replace, line[0], text, rest);
  }

  /** Leading white space is neither here nor there. */
  lemma {:induction false} TrimConverted(replace: string -> string, line: string)
    requires Tame(replace)
    ensures TrimLeft(ConvertLine(replace, line)) == ConvertLine(replace, TrimLeft(line))
  {
    if line != "" {
      if IsSpace(line[0]) {
        PlainFirst(replace, line);
        TrimConverted(replace, line[1..]);
        assert ([line[0]] + ConvertLine(replace, line[1..]))[1..] == ConvertLine(replace, line[1..]);
      } else {
        ConvertedFirst(replace, line);
      }
    } else {
      assert ConvertLine(replace, "") == "";
    }
  }

  lemma {:induction false} TildesStay(replace: string -> string, line: string, n: nat)
    requires Tame(replace)
    ensures Leading(ConvertLine(replace, line), '~', n) <==> Leading(line, '~', n)
    decreases n
  {
    if n > 0 && line != "" {
      ConvertedFirst(replace, line);
      if line[0] == '~' {
        PlainFirst(replace, line);
        TildesStay(replace, line[1..], n - 1);
        assert ConvertLine(replace, line)[1..] == ConvertLine(replace, line[1..]);
      }
    } else if line == "" {
      assert ConvertLine(replace, "") == "";
    }
  }

  lemma {:induction false} TicksCounted(s: string, n: nat)
    ensures Leading(s, '`', n) <==> CountBackticks(s) >= n
  {
    if n > 0 && s != "" {
      TicksCounted(s[1..], n - 1);
    }
  }

  lemma TicksStay(replace: string -> string, line: string)
    requires Tame(replace)
    ensures CountBackticks(ConvertLine(replace, line)) == CountBackticks(line)
  {
    if line == "" {
      assert ConvertLine(replace, "") == "";
    } else {
      ConvertedFirst(replace, line);
      if line[0] == '`' {
        ConvertLineStep(replace, line);
        if CodeEnd(line) > 0 {
          CodeHasBody(line);
          SameRun(line, ConvertLine(replace, line), CountBackticks(line));
        }
      }
    }
  }

  /** A converted line opens or closes a fence exactly when the line does. */
  lemma FenceStays(replace: string -> string, line: string)
    requires Tame(replace)
    ensures FenceLine(ConvertLine(replace, line)) <==> FenceLine(line)
  {
    var text := TrimLeft(line);
    FenceMeans(line);
    FenceMeans(ConvertLine(replace, line));
    TrimConverted(replace, line);
    TildesStay(replace, text, 3);
    TicksStay(replace, text);
    TicksCounted(text, 3);
    TicksCounted(ConvertLine(replace, text), 3);
  }

  // ---------------------------------------------------------------- a page

  /** Whether the lines end inside a fence. */
  predicate InFence(lines: seq<string>) {
    lines != [] && (InFence(lines[..|lines| - 1]) != FenceLine(lines[|lines| - 1]))
  }

  /** The line in its place: fences and what is inside them stay. */
  function ConvertOne(replace: string -> string, before: seq<string>, line: string): string {
    if FenceLine(line) || InFence(before) then line else ConvertLine(replace, line)
  }

  function ConvertLines(replace: string -> string, lines: seq<string>): (converted: seq<string>)
    ensures |converted| == |lines|
  {
    if lines == [] then []
    else
      var before, last := lines[..|lines| - 1], lines[|lines| - 1];
      ConvertLines(replace, before) + [ConvertOne(replace, before, last)]
  }

  function ConvertBody(replace: string -> string, body: string): string {
    Join(ConvertLines(replace, Split(body, '\n')), "\n")
  }

  /** The page with the matches outside code replaced (`convertWikiLinks`). */
  method ConvertPage(replace: string -> string, body: string) returns (converted: string)
    ensures converted == ConvertBody(replace, body)
  {
    var lines := Split(body, '\n');
    var out: seq<string> := [];
    var inFence := false;
    for i := 0 to |lines|
      invariant out == ConvertLines(replace, lines[..i])
      invariant inFence == InFence(lines[..i])
    {
      assert lines[..i + 1][..i] == lines[..i];
      var line := lines[i];
      if FenceLine(line) {
        inFence := !inFence;
        out := out + [line];
      } else if inFence {
        out := out + [line];
      } else {
        var one := ConvertOutsideInlineCode(replace, line);
        out := out + [one];
      }
    }
    assert lines[..|lines|] == lines;
    converted := Join(out, "\n");
  }

  /** The i-th line of the converted page: fence markers and fenced lines byte for byte, any other line
      converted. */
  lemma {:induction false} FencesAreSafe(replace: string -> string, lines: seq<string>, i: nat)
    requires i < |lines|
    ensures ConvertLines(replace, lines)[i] == ConvertOne(replace, lines[..i], lines[i])
    decreases |lines|
  {
    var before := lines[..|lines| - 1];
    if i < |before| {
      FencesAreSafe(replace, before, i);
      assert before[..i] == lines[..i];
    }
  }

  lemma {:induction false} FencesStay(replace: string -> string, lines: seq<string>)
    requires Tame(replace)
    ensures InFence(ConvertLines(replace, lines)) <==> InFence(lines)
  {
    if lines != [] {
      var before, last := lines[..|lines| - 1], lines[|lines| - 1];
      FencesStay(replace, before);
      FenceStays(replace, last);
      assert ConvertLines(replace, lines)[..|before|] == ConvertLines(replace, before);
    }
  }

  lemma {:induction false} LinesTwice(replace: string -> string, lines: seq<string>)
    requires Tame(replace)
    ensures ConvertLines(replace, ConvertLines(replace, lines)) == ConvertLines(replace, lines)
  {
    if lines != [] {
      var before, last := lines[..|lines| - 1], lines[|lines| - 1];
      var once := ConvertLines(replace, lines);
      LinesTwice(replace, before);
      FencesStay(replace, before);
      FenceStays(replace, last);
      LineTwice(replace, last);
      assert once[..|before|] == ConvertLines(replace, before);
    }
  }

  lemma {:induction false} NoNewline(replace: string -> string, line: string)
    requires Tame(replace) && '\n' !in line
    ensures '\n' !in ConvertLine(replace, line)
    decreases |line|
  {
    if line == "" {
      assert ConvertLine(replace, "") == "";
    } else {
      ConvertLineStep(replace, line);
      if line[0] == '`' {
        if CodeEnd(line) > 0 {
          NoNewline(replace, line[CodeEnd(line)..]);
        }
      } else {
        var n := ProseLength(line);
        NothingComesIn(replace, line[..n], '\n');
        NoNewline(replace, line[n..]);
      }
    }
  }

  lemma {:induction false} LinesStayLines(replace: string -> string, lines: seq<string>)
    requires Tame(replace) && forall l <- lines :: '\n' !in l
    ensures forall l <- ConvertLines(replace, lines) :: '\n' !in l
  {
    if lines != [] {
      LinesStayLines(replace, lines[..|lines| - 1]);
      NoNewline(replace, lines[|lines| - 1]);
    }
  }

  /** The lines of the converted page are the converted lines. */
  lemma LinesOfConverted(replace: string -> string, body: string)
    requires Tame(replace)
    ensures Split(ConvertBody(replace, body), '\n') == ConvertLines(replace, Split(body, '\n'))
  {
    var lines := Split(body, '\n');
    SplitPartsLackSeparator(body, '\n');
    LinesStayLines(replace, lines);
    SplitOfJoin(ConvertLines(replace, lines), '\n');
  }

  /** Converting a converted page changes nothing. */
  lemma BodyTwice(replace: string -> string, body: string)
    requires Tame(replace)
    ensures ConvertBody(replace, ConvertBody(replace, body)) == ConvertBody(replace, body)
  {
    LinesOfConverted(replace, body);
    LinesTwice(replace, Split(body, '\n'));
  }
}
