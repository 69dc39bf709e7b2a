/** Replacing `[[...]]` outside code (`internal/okf/migration.go`), for any replacement of a match. */
module Rewriting {
  import opened Text
  import opened Links

  // ---------------------------------------------------------------- matches

  /** The length of the longest prefix without a bracket or a newline. */
  function InnerLength(s: string): (n: nat)
    ensures n <= |s|
    ensures forall i :: 0 <= i < n ==> s[i] != '[' && s[i] != ']' && s[i] != '\n'
    ensures n < |s| ==> s[n] == '[' || s[n] == ']' || s[n] == '\n'
  {
    if s == "" || s[0] == '[' || s[0] == ']' || s[0] == '\n' then 0 else 1 + InnerLength(s[1..])
  }

  /** The length of the match of `\[\[([^\[\]\n]+)\]\]` at the start of the text, or 0. */
  function MatchLength(s: string): (n: nat)
    ensures n <= |s| && (n > 0 ==> n >= 5)
  {
    if |s| < 5 || s[0] != '[' || s[1] != '[' then 0
    else
      var n := InnerLength(s[2..]);
      if n > 0 && n + 4 <= |s| && s[n + 2] == ']' && s[n + 3] == ']' then n + 4 else 0
  }

  predicate IsMatch(m: string) {
    MatchLength(m) == |m| && m != ""
  }

  /** The text with every match replaced, left to right. */
  function Convert(replace: string -> string, s: string): string
    decreases |s|
  {
    if s == "" then ""
    else
      var n := MatchLength(s);
      if n > 0 then replace(s[..n]) + Convert(replace, s[n..]) else [s[0]] + Convert(replace, s[1..])
  }

  /** A markdown link whose text and destination are free of brackets, backticks and newlines. */
  predicate IsLink(r: string) {
    && r != "" && r[0] == '[' && '[' !in r[1..] && '`' !in r && '\n' !in r
    && var k := IndexOf(r, ']');
       0 < k < |r| - 1 && r[k + 1] == '('
  }

  /** Every match outside code either stays or becomes a link. */
  ghost predicate Tame(replace: string -> string) {
    forall m: string :: IsMatch(m) && '`' !in m ==> replace(m) == m || IsLink(replace(m))
  }

  lemma InnerLengthIs(s: string, n: nat)
    requires n < |s| && (s[n] == '[' || s[n] == ']' || s[n] == '\n')
    requires forall i :: 0 <= i < n ==> s[i] != '[' && s[i] != ']' && s[i] != '\n'
    ensures InnerLength(s) == n
  {
    var k := InnerLength(s);
  }

  /** A match does not depend on what follows it. */
  lemma MatchStays(s: string, rest: string)
    requires MatchLength(s) > 0
    ensures IsMatch(s[..MatchLength(s)])
    ensures MatchLength(s[..MatchLength(s)] + rest) == MatchLength(s)
  {
    var n := MatchLength(s);
    var m := s[..n];
    InnerLengthIs(m[2..], n - 4);
    InnerLengthIs((m + rest)[2..], n - 4);
  }

  /** The first character stays. */
  lemma FirstStays(replace: string -> string, s: string)
    requires Tame(replace) && '`' !in s && s != ""
    ensures Convert(replace, s) != "" && Convert(replace, s)[0] == s[0]
  {
    if MatchLength(s) > 0 {
      MatchStays(s, "");
    }
  }

  /** Up to its first opening bracket, converted text is the text itself. */
  lemma {:induction false} PlainPrefix(replace: string -> string, s: string, k: nat)
    requires Tame(replace) && '`' !in s
    requires k <= |Convert(replace, s)| && forall i :: 0 <= i < k ==> Convert(replace, s)[i] != '['
    ensures k <= |s| && forall i :: 0 <= i < k ==> s[i] == Convert(replace, s)[i]
    decreases |s|
  {
    if s != "" && k > 0 {
      FirstStays(replace, s);
      var rest := Convert(replace, s[1..]);
      assert Convert(replace, s) == [s[0]] + rest;
      assert forall i :: 0 <= i < k - 1 ==> rest[i] == Convert(replace, s)[i + 1];
      PlainPrefix(replace, s[1..], k - 1);
      assert forall i :: 0 < i < k ==> s[i] == s[1..][i - 1] && Convert(replace, s)[i] == rest[i - 1];
    }
  }

  /** A link that was put in is not a match, whatever follows it. */
  lemma LinkIsNoMatch(r: string, rest: string)
    requires IsLink(r)
    ensures MatchLength(r + rest) == 0
  {
    assert (r + rest)[1] == r[1] == r[1..][0];
    assert r[1..][0] in r[1..];
  }

  /** With a bracket in front, it is not one either. */
  lemma BracketLinkIsNoMatch(r: string, rest: string)
    requires IsLink(r)
    ensures MatchLength("[" + r + rest) == 0
  {
    var k := IndexOf(r, ']');
    var s := "[" + r + rest;
    forall i | 0 <= i < k - 1 ensures s[2..][i] != '[' && s[2..][i] != ']' && s[2..][i] != '\n' {
      assert s[2..][i] == r[i + 1] == r[1..][i] && r[1..][i] in r[1..];
      assert r[i + 1] in r && r[i + 1] in r[..k];
    }
    assert s[2..][k - 1] == r[k];
    InnerLengthIs(s[2..], k - 1);
    assert s[k + 2] == r[k + 1];
  }

  /** Conversion passes over text that holds no further opening bracket. */
  lemma {:induction false} PassOver(replace: string -> string, p: string, rest: string)
    requires '[' !in p
    ensures Convert(replace, p + rest) == p + Convert(replace, rest)
  {
    if p == "" {
      assert p + rest == rest;
    } else {
      assert (p + rest)[1..] == p[1..] + rest;
      PassOver(replace, p[1..], rest);
    }
  }

  lemma PassOverLink(replace: string -> string, r: string, rest: string)
    requires IsLink(r)
    ensures Convert(replace, r + rest) == r + Convert(replace, rest)
  {
    LinkIsNoMatch(r, rest);
    assert (r + rest)[1..] == r[1..] + rest;
    PassOver(replace, r[1..], rest);
  }

  /** Text that agrees up to the end of a match has the match too. */
  lemma SameStartSameMatch(s: string, t: string)
    requires MatchLength(t) > 0 && |s| >= MatchLength(t)
    requires forall i :: 0 <= i < MatchLength(t) ==> s[i] == t[i]
    ensures MatchLength(s) > 0
  {
    var n := MatchLength(t) - 4;
    assert forall i :: 0 <= i < n + 1 ==> s[2..][i] == t[2..][i];
    InnerLengthIs(s[2..], n);
  }

  lemma MatchHasNoBracket(t: string)
    requires MatchLength(t) > 0
    ensures forall i :: 2 <= i < MatchLength(t) ==> t[i] != '['
  {
    forall i | 2 <= i < MatchLength(t) ensures t[i] != '[' {
      assert i < MatchLength(t) - 2 ==> t[i] == t[2..][i - 2];
    }
  }

  /** Had a match appeared, it would have been there before. */
  lemma KeptMatch(replace: string -> string, a: char, b: char, rest: string)
    requires Tame(replace) && '`' !in rest
    requires MatchLength([a, b] + Convert(replace, rest)) > 0
    ensures MatchLength([a, b] + rest) > 0
  {
    var out := Convert(replace, rest);
    var n := MatchLength([a, b] + out);
    MatchHasNoBracket([a, b] + out);
    forall i | 0 <= i < n - 2 ensures out[i] != '[' {
      assert out[i] == ([a, b] + out)[i + 2];
    }
    PlainPrefix(replace, rest, n - 2);
    SameStartSameMatch([a, b] + rest, [a, b] + out);
  }

  /** In front of a match, a character does not start one. */
  lemma NoMatchBeforeMatch(replace: string -> string, c: char, m: string, rest: string)
    requires Tame(replace) && IsMatch(m) && '`' !in m
    ensures MatchLength([c] + (replace(m) + rest)) == 0
  {
    var text := [c] + (replace(m) + rest);
    if IsLink(replace(m)) && c == '[' {
      BracketLinkIsNoMatch(replace(m), rest);
      assert text == "[" + replace(m) + rest;
    } else if c == '[' {
      assert text[2..][0] == m[1] == '[';
    }
  }

  /** A character that does not start a match does not start one after the conversion either. */
  lemma NoNewMatch(replace: string -> string, s: string)
    requires Tame(replace) && '`' !in s && s != "" && MatchLength(s) == 0
    ensures MatchLength([s[0]] + Convert(replace, s[1..])) == 0
  {
    if |s| > 1 {
      var n := MatchLength(s[1..]);
      if n > 0 {
        MatchStays(s[1..], "");
        NoMatchBeforeMatch(replace, s[0], s[1..][..n], Convert(replace, s[1..][n..]));
      } else {
        assert s[1..][1..] == s[2..] && s == [s[0], s[1]] + s[2..];
        assert [s[0]] + Convert(replace, s[1..]) == [s[0], s[1]] + Convert(replace, s[2..]);
        if MatchLength([s[0], s[1]] + Convert(replace, s[2..])) > 0 {
          KeptMatch(replace, s[0], s[1], s[2..]);
        }
      }
    }
  }

  /** Converting converted text changes nothing. */
  lemma {:induction false} ConvertTwice(replace: string -> string, s: string)
    requires Tame(replace) && '`' !in s
    ensures Convert(replace, Convert(replace, s)) == Convert(replace, s)
    decreases |s|
  {
    if s != "" {
      var n := MatchLength(s);
      if n > 0 {
        ConvertTwice(replace, s[n..]);
        var r, rest := replace(s[..n]), Convert(replace, s[n..]);
        MatchStays(s, rest);
        if r == s[..n] {
          assert (r + rest)[..n] == r && (r + rest)[n..] == rest;
        } else {
          PassOverLink(replace, r, rest);
        }
      } else {
        ConvertTwice(replace, s[1..]);
        NoNewMatch(replace, s);
        var rest := Convert(replace, s[1..]);
        assert ([s[0]] + rest)[1..] == rest;
      }
    }
  }

  // ---------------------------------------------------------------- what is left alone

  datatype Piece = Plain(c: char) | Match(m: string)

  /** The text as characters and matches, in order. */
  function Pieces(s: string): seq<Piece>
    decreases |s|
  {
    if s == "" then []
    else
      var n := MatchLength(s);
      if n > 0 then [Match(s[..n])] + Pieces(s[n..]) else [Plain(s[0])] + Pieces(s[1..])
  }

  function Rendered(replace: string -> string, pieces: seq<Piece>): string {
    if pieces == [] then ""
    else (match pieces[0] case Plain(c) => [c] case Match(m) => replace(m)) + Rendered(replace, pieces[1..])
  }

  /** Every match as it is. */
  function Unchanged(): string -> string {
    (m: string) => m
  }

  lemma RenderedFirst(replace: string -> string, piece: Piece, rest: seq<Piece>)
    ensures Rendered(replace, [piece] + rest) ==
      (match piece case Plain(c) => [c] case Match(m) => replace(m)) + Rendered(replace, rest)
  {
    assert ([piece] + rest)[1..] == rest;
  }

  /** Conversion renders the pieces of the text with the matches replaced. */
  lemma {:induction false} ConvertIsRendered(replace: string -> string, s: string)
    ensures Convert(replace, s) == Rendered(replace, Pieces(s))
    decreases |s|
  {
    if s != "" {
      var n := MatchLength(s);
      if n > 0 {
        ConvertIsRendered(replace, s[n..]);
        RenderedFirst(replace, Match(s[..n]), Pieces(s[n..]));
      } else {
        ConvertIsRendered(replace, s[1..]);
        RenderedFirst(replace, Plain(s[0]), Pieces(s[1..]));
      }
    }
  }

  lemma {:induction false} UnchangedIsText(s: string)
    ensures Convert(Unchanged(), s) == s
    decreases |s|
  {
    if s != "" {
      var n := MatchLength(s);
      UnchangedIsText(s[if n > 0 then n else 1..]);
    }
  }

  /** Conversion replaces the matches and nothing else: rendered as they are, the pieces are the text. */
  lemma OnlyMatchesChange(replace: string -> string, s: string)
    ensures Convert(replace, s) == Rendered(replace, Pieces(s))
    ensures s == Rendered(Unchanged(), Pieces(s))
  {
    ConvertIsRendered(replace, s);
    ConvertIsRendered(Unchanged(), s);
    UnchangedIsText(s);
  }

  /** Neither a backtick nor a newline comes in. */
  lemma {:induction false} NothingComesIn(replace: string -> string, s: string, c: char)
    requires Tame(replace) && '`' !in s && c !in s && (c == '`' || c == '\n')
    ensures c !in Convert(replace, s)
    decreases |s|
  {
    if s != "" {
      var n := MatchLength(s);
      if n > 0 {
        MatchStays(s, "");
        NothingComesIn(replace, s[n..], c);
      } else {
        NothingComesIn(replace, s[1..], c);
      }
    }
  }
}
