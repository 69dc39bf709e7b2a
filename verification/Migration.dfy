/** The wikilink rewriter (`internal/okf/migration.go`). */
module Migration {
  import opened Text
  import opened Verdicts
  import opened Paths
  import opened Links
  import opened LinkResolution
  import opened LinkRoundTrip
  import opened Rewriting
  import opened CodeSpans

  // ---------------------------------------------------------------- the replacement of one match

  function ReplaceChar(s: string, from: char, to: string): string {
    if s == "" then "" else (if s[0] == from then to else [s[0]]) + ReplaceChar(s[1..], from, to)
  }

  predicate IsWordChar(c: char) {
    '0' <= c <= '9' || 'a' <= c <= 'z' || 'A' <= c <= 'Z' || c == '_'
  }

  /** Where `strings.Title` sees the start of a word. */
  predicate IsSeparator(c: char) {
    if c < '\U{0080}' then !IsWordChar(c) else IsSpace(c)
  }

  function UpperChar(c: char): char {
    if 'a' <= c <= 'z' then (c - 'a' + 'A') else c
  }

  /** `strings.Title` on ASCII letters. */
  function Title(s: string): (r: string)
    ensures |r| == |s| && forall i :: 0 <= i < |s| ==> r[i] == s[i] || r[i] == UpperChar(s[i])
  {
    seq(|s|, i requires 0 <= i < |s| => if i == 0 || IsSeparator(s[i - 1]) then UpperChar(s[i]) else s[i])
  }

  function TrimSuffix(s: string, suffix: string): string {
    if HasSuffix(s, suffix) then s[..|s| - |suffix|] else s
  }

  function LabelFromWikiTarget(target: string): string {
    var path := SplitLinkSuffix(target).0;
    var name := TrimSuffix(Base(path), Ext(path));
    var base := ReplaceChar(ReplaceChar(name, '-', " "), '_', " ");
    if base == "" then target else Title(base)
  }

  function EscapeMarkdownLinkText(caption: string): string {
    ReplaceChar(ReplaceChar(caption, '[', "\\["), ']', "\\]")
  }

  /** The target and the label of a link's inside, cut at the first bar. */
  function CutLabel(inner: string): (string, string) {
    var bar := IndexOf(inner, '|');
    if bar < 0 then (TrimSpace(inner), "") else (TrimSpace(inner[..bar]), TrimSpace(inner[bar + 1..]))
  }

  function LinkFor(root: string, rel: string, target: string, caption: string): string {
    var text := if caption == "" then LabelFromWikiTarget(target) else caption;
    "[" + EscapeMarkdownLinkText(text) + "](" + MarkdownHrefForWikiTarget(root, rel, target) + ")"
  }

  function Replacement(root: string, rel: string, m: string): string {
    if |m| < 4 then m
    else
      var inner := TrimSpace(m[2..|m| - 2]);
      var (target, caption) := CutLabel(inner);
      if inner == "" || target == "" then m else LinkFor(root, rel, target, caption)
  }

  function Replacer(root: string, rel: string): string -> string {
    (m: string) => Replacement(root, rel, m)
  }

  /** The page with the matches outside code replaced. */
  method ConvertWikiLinks(root: string, rel: string, body: string) returns (converted: string)
    ensures converted == ConvertBody(Replacer(root, rel), body)
  {
    converted := ConvertPage(Replacer(root, rel), body);
  }

  // ---------------------------------------------------------------- the replacement is tame

  /** A character that the code never writes on its own. */
  predicate Foreign(c: char) {
    c == '[' || c == ']' || c == '`' || c == '\n'
  }

  lemma {:induction false} ReplaceCharLacks(s: string, from: char, to: string, c: char)
    requires c !in s && c !in to
    ensures c !in ReplaceChar(s, from, to)
  {
    if s != "" {
      ReplaceCharLacks(s[1..], from, to, c);
    }
  }

  lemma {:induction false} NothingToReplace(s: string, from: char, to: string)
    requires from !in s
    ensures ReplaceChar(s, from, to) == s
  {
    if s != "" {
      NothingToReplace(s[1..], from, to);
    }
  }

  lemma TrimLacks(s: string, c: char)
    requires c !in s
    ensures c !in TrimSpace(s)
  {
    var i, j := TrimSpaceShape(s);
  }

  lemma {:induction false} BaseLacks(s: string, c: char)
    requires c !in s && c != '.' && c != '/'
    ensures c !in Base(s)
  {
    TrimSlashesLacks(s, c);
    AfterLastSlashLacks(TrimSlashes(s), c);
  }

  lemma {:induction false} TrimSlashesLacks(s: string, c: char)
    requires c !in s
    ensures c !in TrimSlashes(s)
  {
    if s != "" && s[|s| - 1] == '/' {
      TrimSlashesLacks(s[..|s| - 1], c);
    }
  }

  lemma {:induction false} AfterLastSlashLacks(s: string, c: char)
    requires c !in s
    ensures c !in AfterLastSlash(s)
  {
    if s != "" && s[|s| - 1] != '/' {
      AfterLastSlashLacks(s[..|s| - 1], c);
    }
  }

  lemma TitleLacks(s: string, c: char)
    requires c !in s && Foreign(c)
    ensures c !in Title(s)
  {
    var r := Title(s);
    assert forall i :: 0 <= i < |r| ==> r[i] == s[i] || r[i] == UpperChar(s[i]);
  }

  lemma SpacedLacks(s: string, c: char)
    requires c !in s && Foreign(c)
    ensures c !in ReplaceChar(ReplaceChar(s, '-', " "), '_', " ")
  {
    ReplaceCharLacks(s, '-', " ", c);
    ReplaceCharLacks(ReplaceChar(s, '-', " "), '_', " ", c);
  }

  lemma TrimSuffixLacks(s: string, suffix: string, c: char)
    requires c !in s
    ensures c !in TrimSuffix(s, suffix)
  {
  }

  lemma LabelLacks(target: string, c: char)
    requires c !in target && Foreign(c)
    ensures c !in LabelFromWikiTarget(target)
  {
    var path := SplitLinkSuffix(target).0;
    PartsLack(target, c);
    BaseLacks(path, c);
    TrimSuffixLacks(Base(path), Ext(path), c);
    var name := TrimSuffix(Base(path), Ext(path));
    SpacedLacks(name, c);
    TitleLacks(ReplaceChar(ReplaceChar(name, '-', " "), '_', " "), c);
  }

  /** The relative path of the href brings in nothing but dots and slashes. */
  lemma HrefPathLacks(root: string, rel: string, path: string, c: char)
    requires IsPage(rel) && c !in path && c != '.' && c != '/'
    ensures c !in HrefPath(root, rel, path)
  {
    SplitChars(path, '/', c);
    CleanLacks(path, c);
    BaseLacks(path, c);
    RelLacks(root, rel, path, c);
  }

  lemma CleanLacks(path: string, c: char)
    requires c !in path && c != '.' && c != '/'
    ensures c !in Clean(path)
  {
    SplitChars(path, '/', c);
    var k, added := CleanShape([], Split(path, '/'), path != "" && path[0] == '/');
    JoinChars(ParsePath(path).parts, "/", c);
  }

  lemma RelLacks(root: string, rel: string, path: string, c: char)
    requires IsPage(rel) && c !in path && c != '.' && c != '/'
    ensures
      var relative := Rel(PageDir(root, rel), JoinPath(ParsePath(root), path));
      relative.Some? ==> c !in PathText(CleanPath(false, relative.value))
  {
    var dir, base := ParsePath(root), PageDir(root, rel);
    SplitChars(path, '/', c);
    var k, added := CleanShape(dir.parts, Split(path, '/'), dir.rooted);
    assert dir.parts[..k] <= base.parts by {
      PageDirParts(root, rel);
    }
    DownLacks(base.parts, dir.parts[..k], added, c);
    var relative := Rel(base, JoinPath(dir, path));
    if relative.Some? {
      PathTextLacks(relative.value, c);
    }
  }

  lemma PathTextLacks(parts: seq<string>, c: char)
    requires (forall p <- parts :: c !in p) && c != '.' && c != '/'
    ensures c !in PathText(CleanPath(false, parts))
  {
    JoinChars(parts, "/", c);
  }

  /** Below the common directory there is only what the target's path added. */
  lemma DownLacks(base: seq<string>, common: seq<string>, added: seq<string>, c: char)
    requires common <= base && (forall a <- added :: c !in a) && c != '.'
    ensures
      var n := CommonLength(base, common + added);
      forall p <- Ups(|base| - n) + (common + added)[n..] :: c !in p
  {
    var target := common + added;
    CommonAtLeast(base, target, |common|);
    var n := CommonLength(base, target);
    forall p <- Ups(|base| - n) + target[n..] ensures c !in p {
      if p in target[n..] {
        var i :| n <= i < |target| && target[i] == p;
        assert p == added[i - |common|];
      }
    }
  }

  lemma EscapeLacks(text: string, c: char)
    requires c !in text && Foreign(c)
    ensures c !in EscapeMarkdownDestination(text)
  {
    if c in EscapeMarkdownDestination(text) {
      EscapedChars(text, c);
      assert false;
    }
  }

  lemma PagePathLacks(path: string, c: char)
    requires c !in path && Foreign(c)
    ensures c !in PagePath(path)
  {
  }

  lemma PartsLack(target: string, c: char)
    requires c !in target
    ensures c !in SplitLinkSuffix(target).0 && c !in SplitLinkSuffix(target).1
  {
    var (path, suffix) := SplitLinkSuffix(target);
    assert forall i :: 0 <= i < |path| ==> path[i] == target[i];
    assert forall i :: 0 <= i < |suffix| ==> suffix[i] == target[|path| + i];
  }

  lemma HrefLacks(root: string, rel: string, target: string, c: char)
    requires IsPage(rel) && c !in target && Foreign(c)
    ensures c !in MarkdownHrefForWikiTarget(root, rel, target)
  {
    var (path, suffix) := SplitLinkSuffix(target);
    PartsLack(target, c);
    TrimLacks(path, c);
    PagePathLacks(TrimSpace(path), c);
    HrefPathLacks(root, rel, PagePath(TrimSpace(path)), c);
    EscapeLacks(HrefPath(root, rel, PagePath(TrimSpace(path))) + suffix, c);
  }

  lemma CutLacks(inner: string, c: char)
    requires c !in inner
    ensures c !in CutLabel(inner).0 && c !in CutLabel(inner).1
  {
    var bar := IndexOf(inner, '|');
    if bar < 0 {
      TrimLacks(inner, c);
    } else {
      TrimLacks(inner[..bar], c);
      TrimLacks(inner[bar + 1..], c);
    }
  }

  lemma LinkShape(front: string, back: string)
    requires front != "" && front[0] == '[' && '[' !in front[1..] && ']' !in front
    requires |back| > 1 && back[0] == ']' && back[1] == '(' && '[' !in back
    requires '`' !in front && '`' !in back && '\n' !in front && '\n' !in back
    ensures IsLink(front + back)
  {
    var r := front + back;
    IndexInFront(front, back, ']');
    assert r[1..] == front[1..] + back;
    assert r[|front| + 1] == back[1];
  }

  /** Text and destination around which the brackets of a link are put. */
  lemma MadeLink(text: string, href: string)
    requires forall c | Foreign(c) :: c !in text && c !in href
    ensures IsLink("[" + text + "](" + href + ")")
  {
    assert Foreign('[') && Foreign(']') && Foreign('`') && Foreign('\n');
    var front, back := "[" + text, "](" + href + ")";
    assert front[1..] == text;
    LinkShape(front, back);
    assert front + back == "[" + text + "](" + href + ")";
  }

  lemma InsideLacks(m: string, c: char)
    requires IsMatch(m) && '`' !in m && Foreign(c)
    ensures |m| >= 5 && c !in m[2..|m| - 2]
  {
    var n := InnerLength(m[2..]);
    var inside := m[2..|m| - 2];
    assert forall i :: 0 <= i < |inside| ==> inside[i] == m[2..][i] && inside[i] == m[i + 2] && m[i + 2] in m;
  }

  lemma LinkForIsLink(root: string, rel: string, target: string, caption: string)
    requires IsPage(rel) && forall c | Foreign(c) :: c !in target && c !in caption
    ensures IsLink(LinkFor(root, rel, target, caption))
  {
    var text := if caption == "" then LabelFromWikiTarget(target) else caption;
    forall c | Foreign(c) ensures c !in text && c !in MarkdownHrefForWikiTarget(root, rel, target) {
      LabelLacks(target, c);
      HrefLacks(root, rel, target, c);
    }
    assert Foreign('[') && Foreign(']');
    NothingToReplace(text, '[', "\\[");
    NothingToReplace(text, ']', "\\]");
    MadeLink(text, MarkdownHrefForWikiTarget(root, rel, target));
  }

  lemma ReplacementIsTame(root: string, rel: string)
    requires IsPage(rel)
    ensures Tame(Replacer(root, rel))
  {
    forall m: string | IsMatch(m) && '`' !in m
      ensures Replacer(root, rel)(m) == m || IsLink(Replacer(root, rel)(m))
    {
      var inner := TrimSpace(m[2..|m| - 2]);
      var (target, caption) := CutLabel(inner);
      forall c | Foreign(c) ensures c !in target && c !in caption {
        InsideLacks(m, c);
        TrimLacks(m[2..|m| - 2], c);
        CutLacks(inner, c);
      }
      LinkForIsLink(root, rel, target, caption);
    }
  }

  // ---------------------------------------------------------------- the results

  /** Converting the wiki links of a page twice is converting them once. */
  lemma ConversionIsIdempotent(root: string, rel: string, body: string)
    requires IsPage(rel)
    ensures
      var replace := Replacer(root, rel);
      ConvertBody(replace, ConvertBody(replace, body)) == ConvertBody(replace, body)
  {
    ReplacementIsTame(root, rel);
    BodyTwice(Replacer(root, rel), body);
  }

  /** Line by line: fence markers and fenced lines come through byte for byte; any other line keeps its
      inline code byte for byte and in order, with the prose between converted; and conversion changes
      nothing of the prose but its matches. */
  lemma ConversionIsCodeSafe(root: string, rel: string, body: string, i: nat)
    requires IsPage(rel) && i < |Split(body, '\n')|
    ensures
      var replace, lines := Replacer(root, rel), Split(body, '\n');
      var converted := Split(ConvertBody(replace, body), '\n');
      && |converted| == |lines|
      && (FenceLine(lines[i]) || InFence(lines[..i]) ==> converted[i] == lines[i])
      && (!FenceLine(lines[i]) && !InFence(lines[..i]) ==>
           Spans(converted[i]) == ConvertSpans(replace, Spans(lines[i])))
      && Flatten(Spans(lines[i])) == lines[i]
  {
    var replace, lines := Replacer(root, rel), Split(body, '\n');
    ReplacementIsTame(root, rel);
    LinesOfConverted(replace, body);
    FencesAreSafe(replace, lines, i);
    CodeIsSafe(replace, lines[i]);
    SpansAreLine(lines[i]);
  }

  /** The destination that `!?\[[^\]]*\]\(([^)]*)\)` captures in text that starts with `[`. */
  function Captured(s: string): Option<string>
    requires s != "" && s[0] == '['
  {
    var k := IndexOf(s, ']');
    if k < 0 || k + 1 >= |s| || s[k + 1] != '(' then None
    else
      var end := IndexOf(s[k + 2..], ')');
      if end < 0 then None else Some(s[k + 2..][..end])
  }

  lemma CapturedBehind(text: string, href: string)
    requires ']' !in text && ')' !in href
    ensures
      var link := "[" + text + "](" + href + ")";
      Captured(link) == Some(href)
  {
    var front, back := "[" + text, "](" + href + ")";
    var link := "[" + text + "](" + href + ")";
    assert link == front + back;
    IndexInFront(front, back, ']');
    assert back[0] == ']' && back[1] == '(' && link[|front| + 1] == back[1];
    IndexInFront(href, ")", ')');
    assert link[|front| + 2..] == href + ")";
    assert (href + ")")[..|href|] == href;
  }

  /** A link made for a clean target is found by the link check, and leads to the file that the target
      names, from a page at any depth whose directory is not that file. */
  lemma MadeLinkLeadsToFile(
      root: string, rel: string, slash: string, names: seq<string>, suffix: string, caption: string,
      anchor: string -> bool)
    requires IsPage(rel) && CleanTarget(slash, names, suffix)
    requires forall s :: anchor(s) ==> ':' in s
    requires PlainInside(slash + Join(names, "/") + suffix) && PlainInside(caption)
    ensures LeadsToFile(LinkFor(root, rel, slash + Join(names, "/") + suffix, caption), root, rel, names, anchor)
  {
    var wiki := slash + Join(names, "/") + suffix;
    var text := if caption == "" then LabelFromWikiTarget(wiki) else caption;
    var href := MarkdownHrefForWikiTarget(root, rel, wiki);
    LabelLacks(wiki, '[');
    LabelLacks(wiki, ']');
    NothingToReplace(text, '[', "\\[");
    NothingToReplace(text, ']', "\\]");
    LinkLeadsToFile(root, rel, slash, names, suffix, anchor);
    CapturedBehind(text, href);
  }

  /** The link check captures a destination in the text and resolves it to the file of the names, exactly
      when the page's directory is not that file. */
  ghost predicate LeadsToFile(
      link: string, root: string, rel: string, names: seq<string>, anchor: string -> bool)
    requires names != []
  {
    var dir, base := ParsePath(root), PageDir(root, rel);
    var target := CleanPath(dir.rooted, dir.parts + FileNames(names));
    && link != "" && link[0] == '[' && Captured(link).Some?
    && IsDestination(Captured(link).value, Captured(link).value)
    && (Resolve(dir, base, Captured(link).value, anchor) == Leads(target) <==> base != target)
  }

  // ---------------------------------------------------------------- from the wiki link on

  predicate PlainInside(text: string) {
    '[' !in text && ']' !in text && '\n' !in text
  }

  /** Neither end is white space. */
  predicate Trimmed(text: string) {
    text != "" && !IsSpace(text[0]) && !IsSpace(text[|text| - 1])
  }

  lemma MatchOf(inner: string)
    requires inner != "" && PlainInside(inner)
    ensures
      var m := "[[" + inner + "]]";
      IsMatch(m) && m[2..|m| - 2] == inner
  {
    var m := "[[" + inner + "]]";
    assert m[2..] == inner + "]]";
    forall i | 0 <= i < |inner| ensures m[2..][i] != '[' && m[2..][i] != ']' && m[2..][i] != '\n' {
      assert m[2..][i] == inner[i] && inner[i] in inner;
    }
    assert m[2..][|inner|] == ']';
    InnerLengthIs(m[2..], |inner|);
  }

  lemma CutWithoutBar(target: string)
    requires Trimmed(target) && '|' !in target
    ensures TrimSpace(target) == target && CutLabel(target) == (target, "")
  {
    TrimmedIsFixed(target);
  }

  lemma CutAtBar(target: string, caption: string)
    requires Trimmed(target) && '|' !in target
    ensures
      var inner := TrimSpace(target + "|" + caption);
      inner != "" && CutLabel(inner) == (target, TrimSpace(caption))
  {
    var front, rest := target + "|", TrimRight(caption);
    TrimRightBehind(front, caption);
    assert TrimSpace(front + caption) == front + rest;
    assert front + rest == target + ("|" + rest);
    IndexInFront(target, "|" + rest, '|');
    assert (front + rest)[..|target|] == target && (front + rest)[|target| + 1..] == rest;
    TrimmedIsFixed(target);
    TrimAfterTrimRight(caption);
  }

  /** How a wiki link is replaced, with a caption and without one. */
  lemma ReplacementIsLink(root: string, rel: string, target: string, caption: string)
    requires Trimmed(target) && '|' !in target && PlainInside(target) && PlainInside(caption)
    ensures
      var plain, captioned := "[[" + target + "]]", "[[" + target + "|" + caption + "]]";
      && IsMatch(plain) && Replacement(root, rel, plain) == LinkFor(root, rel, target, "")
      && IsMatch(captioned) && Replacement(root, rel, captioned) == LinkFor(root, rel, target, TrimSpace(caption))
  {
    var inner := target + "|" + caption;
    MatchOf(target);
    CutWithoutBar(target);
    MatchOf(inner);
    CutAtBar(target, caption);
    assert "[[" + target + "|" + caption + "]]" == "[[" + inner + "]]";
  }

  /** A wiki link to a clean target, with a caption or without one, is replaced by a link that the link
      check finds and that leads to the file the target names, from a page at any depth whose directory is
      not that file. */
  lemma WikiLinkLeadsToFile(
      root: string, rel: string, slash: string, names: seq<string>, suffix: string, caption: string,
      anchor: string -> bool)
    requires IsPage(rel) && CleanTarget(slash, names, suffix) && !EndsInSpace(suffix)
    requires forall s :: anchor(s) ==> ':' in s
    requires
      var target := slash + Join(names, "/") + suffix;
      PlainInside(target) && '|' !in target && PlainInside(caption)
    ensures
      var target := slash + Join(names, "/") + suffix;
      && LeadsToFile(Replacement(root, rel, "[[" + target + "]]"), root, rel, names, anchor)
      && LeadsToFile(Replacement(root, rel, "[[" + target + "|" + caption + "]]"), root, rel, names, anchor)
  {
    var target := slash + Join(names, "/") + suffix;
    CleanIsTrimmed(slash, names, suffix);
    ReplacementIsLink(root, rel, target, caption);
    TrimLacks(caption, '[');
    TrimLacks(caption, ']');
    TrimLacks(caption, '\n');
    MadeLinkLeadsToFile(root, rel, slash, names, suffix, "", anchor);
    MadeLinkLeadsToFile(root, rel, slash, names, suffix, TrimSpace(caption), anchor);
  }

  lemma CleanIsTrimmed(slash: string, names: seq<string>, suffix: string)
    requires CleanTarget(slash, names, suffix) && !EndsInSpace(suffix)
    ensures Trimmed(slash + Join(names, "/") + suffix)
  {
    var path, target := slash + Join(names, "/"), slash + Join(names, "/") + suffix;
    assert OrdinaryName(names[0]) && OrdinaryName(names[|names| - 1]);
    RootIsNotLast(names);
    assert names[0] == FileNames(names)[0];
    RootStart(names[0]);
    PathEnds(slash, names);
    assert target[0] == path[0];
    assert target[|target| - 1] == if suffix == "" then path[|path| - 1] else suffix[|suffix| - 1];
  }
}
