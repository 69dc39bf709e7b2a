/** Link destinations: how the migration writes them and the validator reads them
    (`internal/okf/migration.go`, `internal/okf/validator.go`). */
module Links {
  import opened Text
  import opened Verdicts
  import opened Paths

  // ---------------------------------------------------------------- escaping

  /** The characters that are escaped, each with its code, in the order in which they are decoded. */
  const ESCAPED: string := " ()<>\\"

  /** The two digits of a code. */
  function Digits(c: char): (char, char) {
    if c == ' ' then ('2', '0')
    else if c == '(' then ('2', '8')
    else if c == ')' then ('2', '9')
    else if c == '<' then ('3', 'C')
    else if c == '>' then ('3', 'E')
    else ('5', 'C')
  }

  function CodeOf(c: char): string {
    ['%', Digits(c).0, Digits(c).1]
  }

  predicate StartsWithCode(s: string, c: char) {
    |s| >= 3 && s[0] == '%' && s[1] == Digits(c).0 && s[2] == Digits(c).1
  }

  lemma StartsWithCodeMeans(s: string, c: char)
    ensures StartsWithCode(s, c) <==> CodeOf(c) <= s
  {
    if StartsWithCode(s, c) {
      assert s[..3] == CodeOf(c);
    }
  }

  /** Codes are told apart by their digits, which are not characters that are escaped. */
  lemma DigitsApart(c: char, d: char)
    requires c in ESCAPED && d in ESCAPED
    ensures Digits(c) == Digits(d) <==> c == d
    ensures Digits(c).0 !in ESCAPED && Digits(c).1 !in ESCAPED && Digits(c).0 != '%' && Digits(c).1 != '%'
  {
  }

  /** Every one of the characters replaced by its code. */
  function Encode(s: string, chars: string): string
    requires forall c <- chars :: c in ESCAPED
  {
    if s == "" then "" else (if s[0] in chars then CodeOf(s[0]) else [s[0]]) + Encode(s[1..], chars)
  }

  function EscapeMarkdownDestination(href: string): string {
    Encode(href, ESCAPED)
  }

  /** `strings.ReplaceAll` of the code of a character by the character. */
  function ReplaceCode(s: string, c: char): string
    requires c in ESCAPED
  {
    if s == "" then ""
    else if StartsWithCode(s, c) then [c] + ReplaceCode(s[3..], c)
    else [s[0]] + ReplaceCode(s[1..], c)
  }

  /** The codes of the characters, replaced one character after the other. */
  function DecodeAll(s: string, chars: string): string
    requires forall c <- chars :: c in ESCAPED
    decreases |chars|
  {
    if chars == "" then s else DecodeAll(ReplaceCode(s, chars[0]), chars[1..])
  }

  function DecodeMarkdownDestinationPath(link: string): string {
    DecodeAll(link, ESCAPED)
  }

  /** The text contains none of the six codes. */
  predicate FreeOfCodes(s: string) {
    forall c <- ESCAPED :: !Contains(s, CodeOf(c))
  }

  /** Decoding one character commutes with encoding the others. */
  lemma {:induction false} ReplaceAfterEncode(s: string, c: char, chars: string)
    requires c in ESCAPED && c !in chars && forall d <- chars :: d in ESCAPED
    ensures ReplaceCode(Encode(s, [c] + chars), c) == Encode(ReplaceCode(s, c), chars)
    decreases |s|
  {
    if s == "" {
    } else if StartsWithCode(s, c) {
      CodeIsOrdinary(s, c, [c] + chars);
      ReplaceAfterEncode(s[3..], c, chars);
    } else if s[0] in [c] + chars {
      CodeStaysApart(s[0], c, Encode(s[1..], [c] + chars));
      ReplaceAfterEncode(s[1..], c, chars);
      assert s[0] != '%';
    } else {
      EncodeMakesNoCode(s, c, [c] + chars);
      ReplaceAfterEncode(s[1..], c, chars);
    }
  }

  lemma EncodeOrdinary(s: string, chars: string)
    requires s != "" && s[0] !in chars && forall d <- chars :: d in ESCAPED
    ensures Encode(s, chars) == [s[0]] + Encode(s[1..], chars)
  {
  }

  /** The letters of a code are never encoded. */
  lemma CodeIsOrdinary(s: string, c: char, all: string)
    requires c in ESCAPED && (forall d <- all :: d in ESCAPED) && StartsWithCode(s, c)
    ensures Encode(s, all) == CodeOf(c) + Encode(s[3..], all)
    ensures ReplaceCode(Encode(s, all), c) == [c] + ReplaceCode(Encode(s[3..], all), c)
  {
    DigitsApart(c, c);
    EncodeOrdinary(s, all);
    EncodeOrdinary(s[1..], all);
    EncodeOrdinary(s[2..], all);
    assert s[1..][1..] == s[2..] && s[2..][1..] == s[3..];
    var rest := Encode(s[3..], all);
    assert Encode(s, all) == CodeOf(c) + rest;
    assert (CodeOf(c) + rest)[3..] == rest;
  }

  lemma ReplaceOrdinary(d: char, rest: string, c: char)
    requires c in ESCAPED && d != '%'
    ensures ReplaceCode([d] + rest, c) == [d] + ReplaceCode(rest, c)
  {
    assert ([d] + rest)[1..] == rest;
  }

  lemma OtherCodeStays(one: char, two: char, rest: string, c: char)
    requires c in ESCAPED && one != '%' && two != '%' && (one, two) != Digits(c)
    ensures ReplaceCode(['%', one, two] + rest, c) == ['%', one, two] + ReplaceCode(rest, c)
  {
    ReplaceOrdinary(two, rest, c);
    ReplaceOrdinary(one, [two] + rest, c);
    var text := ['%', one, two] + rest;
    assert text[1..] == [one] + ([two] + rest);
    assert !StartsWithCode(text, c);
    assert ReplaceCode(text, c) == ['%'] + ([one] + ([two] + ReplaceCode(rest, c)));
  }

  lemma OwnCodeGoes(c: char, rest: string)
    requires c in ESCAPED
    ensures ReplaceCode(CodeOf(c) + rest, c) == [c] + ReplaceCode(rest, c)
  {
    assert (CodeOf(c) + rest)[3..] == rest;
  }

  /** In front of the rest, an encoded character is decoded if it is the one, and left alone otherwise. */
  lemma CodeStaysApart(d: char, c: char, rest: string)
    requires d in ESCAPED && c in ESCAPED
    ensures ReplaceCode(CodeOf(d) + rest, c) == (if d == c then [c] else CodeOf(d)) + ReplaceCode(rest, c)
  {
    if d == c {
      OwnCodeGoes(c, rest);
    } else {
      DigitsApart(d, c);
      DigitsApart(d, d);
      OtherCodeStays(Digits(d).0, Digits(d).1, rest, c);
    }
  }

  /** An ordinary character does not become the start of a code by encoding what follows it. */
  lemma EncodeMakesNoCode(s: string, c: char, all: string)
    requires c in ESCAPED && (forall d <- all :: d in ESCAPED)
    requires s != "" && s[0] !in all && !StartsWithCode(s, c)
    ensures ReplaceCode(Encode(s, all), c) == [s[0]] + ReplaceCode(Encode(s[1..], all), c)
  {
    EncodeOrdinary(s, all);
    var rest := Encode(s[1..], all);
    assert ([s[0]] + rest)[1..] == rest;
    if StartsWithCode([s[0]] + rest, c) {
      DigitsApart(c, c);
      StartKept(s[1..], all, Digits(c).0);
      StartKept(s[2..], all, Digits(c).1);
      assert false;
    }
  }

  /** Encoded text that starts with anything but a percent sign starts as the text does. */
  lemma StartKept(s: string, chars: string, c: char)
    requires forall d <- chars :: d in ESCAPED
    requires var e := Encode(s, chars); e != "" && e[0] == c && c != '%'
    ensures s != "" && s[0] == c && Encode(s, chars) == [c] + Encode(s[1..], chars)
  {
  }

  lemma {:induction false} DecodeOfEncode(s: string, chars: string)
    requires forall c <- chars :: c in ESCAPED
    requires forall i, j :: 0 <= i < j < |chars| ==> chars[i] != chars[j]
    ensures DecodeAll(Encode(s, chars), chars) == DecodeAll(s, chars)
    decreases |chars|
  {
    if chars == "" {
      EncodeNothing(s);
    } else {
      assert chars == [chars[0]] + chars[1..];
      ReplaceAfterEncode(s, chars[0], chars[1..]);
      DecodeOfEncode(ReplaceCode(s, chars[0]), chars[1..]);
    }
  }

  lemma {:induction false} EncodeNothing(s: string)
    ensures Encode(s, "") == s
  {
    if s != "" {
      EncodeNothing(s[1..]);
    }
  }

  /** Escaping never changes what a destination decodes to, whatever it contains. */
  lemma EscapeIsInvisible(s: string)
    ensures DecodeMarkdownDestinationPath(EscapeMarkdownDestination(s)) == DecodeMarkdownDestinationPath(s)
  {
    DecodeOfEncode(s, ESCAPED);
  }

  /** Replacing shortens the text if there is anything to replace, and changes nothing otherwise. */
  lemma {:induction false} ReplaceShortens(s: string, c: char)
    requires c in ESCAPED
    ensures |ReplaceCode(s, c)| <= |s|
    ensures Contains(s, CodeOf(c)) ==> |ReplaceCode(s, c)| < |s|
    ensures !Contains(s, CodeOf(c)) ==> ReplaceCode(s, c) == s
  {
    if s != "" {
      StartsWithCodeMeans(s, c);
      if StartsWithCode(s, c) {
        ReplaceShortens(s[3..], c);
      } else {
        ReplaceShortens(s[1..], c);
      }
    }
  }

  lemma {:induction false} DecodeShortens(s: string, chars: string)
    requires forall c <- chars :: c in ESCAPED
    ensures |DecodeAll(s, chars)| <= |s|
    ensures DecodeAll(s, chars) == s <==> forall c <- chars :: !Contains(s, CodeOf(c))
    decreases |chars|
  {
    if chars != "" {
      var next := ReplaceCode(s, chars[0]);
      ReplaceShortens(s, chars[0]);
      DecodeShortens(next, chars[1..]);
      if Contains(s, CodeOf(chars[0])) {
        assert chars[0] in chars;
      } else {
        assert chars == [chars[0]] + chars[1..];
      }
    }
  }

  /** Exactly the texts without a literal code survive the round trip. */
  lemma EscapeRoundTrip(s: string)
    ensures DecodeMarkdownDestinationPath(EscapeMarkdownDestination(s)) == s <==> FreeOfCodes(s)
  {
    EscapeIsInvisible(s);
    DecodeShortens(s, ESCAPED);
  }

  // ---------------------------------------------------------------- writing a destination

  function IndexOf(s: string, c: char): (i: int)
    ensures -1 <= i < |s|
    ensures i >= 0 ==> s[i] == c && c !in s[..i]
    ensures i < 0 <==> c !in s
  {
    if s == "" then -1
    else if s[0] == c then 0
    else
      var i := IndexOf(s[1..], c);
      if i < 0 then -1
      else
        assert s[..i + 1] == [s[0]] + s[1..][..i];
        i + 1
  }

  /** The first occurrence is the one behind a part without any. */
  lemma {:induction false} IndexInFront(a: string, b: string, c: char)
    requires c !in a && b != "" && b[0] == c
    ensures IndexOf(a + b, c) == |a|
  {
    if a != "" {
      assert (a + b)[1..] == a[1..] + b;
      IndexInFront(a[1..], b, c);
    }
  }

  /** The path and the anchor or query of a target. */
  function SplitLinkSuffix(target: string): (r: (string, string))
    ensures r.0 + r.1 == target
  {
    var hash := IndexOf(target, '#');
    if hash >= 0 then (target[..hash], target[hash..])
    else
      var query := IndexOf(target, '?');
      if query >= 0 then (target[..query], target[query..]) else (target, "")
  }

  predicate IsBundleRoot(part: string) {
    part == "semantic" || part == "episodic" || part == "procedural" || part == "prospective" || part == "archive"
  }

  predicate IsBundleRootPath(path: string) {
    IsBundleRoot(Split(TrimPrefix(path, "/"), '/')[0])
  }

  function LowerChar(c: char): char {
    if 'A' <= c <= 'Z' then (c - 'A' + 'a') else c
  }

  /** `strings.ToLower` on ASCII letters. */
  function Lower(s: string): (r: string)
    ensures |r| == |s| && forall i :: 0 <= i < |s| ==> r[i] == LowerChar(s[i])
  {
    seq(|s|, i requires 0 <= i < |s| => LowerChar(s[i]))
  }

  predicate IsExternalLink(link: string) {
    var lower := Lower(link);
    "http://" <= lower || "https://" <= lower || "mailto:" <= lower || "tel:" <= lower || "#" <= lower
  }

  /** The path that a target names: with its extension, and without a leading slash. */
  function PagePath(pathPart: string): string {
    TrimPrefix(if HasSuffix(Base(pathPart), ".md") then pathPart else pathPart + ".md", "/")
  }

  function PageDir(root: string, rel: string): CleanPath {
    DirOf(JoinPath(ParsePath(root), rel))
  }

  /** The unescaped path of the href, relative to the page when the target is under a bundle root. */
  function HrefPath(root: string, rel: string, path: string): string {
    var relative :=
      if IsBundleRootPath(path) then
        match Rel(PageDir(root, rel), JoinPath(ParsePath(root), path))
        case Some(parts) => PathText(CleanPath(false, parts))
        case None => ""
      else "";
    var href := if relative == "" then Clean(path) else relative;
    if href == "." then Base(path) else href
  }

  function MarkdownHrefForWikiTarget(root: string, rel: string, target: string): string {
    var (path, suffix) := SplitLinkSuffix(target);
    var pathPart := TrimSpace(path);
    if pathPart == "" || IsExternalLink(pathPart) then target
    else EscapeMarkdownDestination(HrefPath(root, rel, PagePath(pathPart)) + suffix)
  }

  // ---------------------------------------------------------------- reading a destination

  predicate EndsDestination(c: char) {
    c == ' ' || c == '\t' || c == '\n'
  }

  /** Whether the scan is inside single and inside double quotes after the text. */
  function Quotes(s: string): (q: (bool, bool)) {
    if s == "" then (false, false)
    else
      var before, c := Quotes(s[..|s| - 1]), s[|s| - 1];
      if c == '\'' && !before.1 then (!before.0, before.1)
      else if c == '"' && !before.0 then (before.0, !before.1)
      else before
  }

  /** A destination ends at i: unquoted white space. */
  predicate EndsAt(s: string, i: nat)
    requires i < |s|
  {
    EndsDestination(s[i]) && Quotes(s[..i]) == (false, false)
  }

  /** What a raw destination stands for: between angle brackets, or up to unquoted white space. */
  ghost predicate IsDestination(raw: string, link: string) {
    var s := TrimSpace(raw);
    if s != "" && s[0] == '<' && '>' in s then link == TrimSpace(s[1..IndexOf(s, '>')])
    else
      || (link == s && forall i :: 0 <= i < |s| ==> !EndsAt(s, i))
      || exists i ::
           && 0 <= i < |s| && EndsAt(s, i) && (forall j :: 0 <= j < i ==> !EndsAt(s, j))
           && link == TrimSpace(s[..i])
  }

  method MarkdownLinkDestination(raw: string) returns (link: string)
    ensures IsDestination(raw, link)
  {
    var s := TrimSpace(raw);
    if s == "" {
      return "";
    }
    if s[0] == '<' {
      var end := IndexOf(s, '>');
      if end >= 0 {
        return TrimSpace(s[1..end]);
      }
    }
    var inSingle, inDouble := false, false;
    for i := 0 to |s|
      invariant (inSingle, inDouble) == Quotes(s[..i])
      invariant forall j :: 0 <= j < i ==> !EndsAt(s, j)
    {
      assert s[..i + 1][..i] == s[..i];
      if s[i] == '\'' {
        if !inDouble {
          inSingle := !inSingle;
        }
      } else if s[i] == '"' {
        if !inSingle {
          inDouble := !inDouble;
        }
      } else if EndsDestination(s[i]) {
        if !inSingle && !inDouble {
          return TrimSpace(s[..i]);
        }
      }
    }
    return s;
  }

  /** The destination is unique. */
  lemma DestinationIsUnique(raw: string, a: string, b: string)
    requires IsDestination(raw, a) && IsDestination(raw, b)
    ensures a == b
  {
  }
}
