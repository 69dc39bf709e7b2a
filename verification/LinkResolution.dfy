/** A link that the migration writes is read back as the file it names
    (`internal/okf/migration.go`, `internal/okf/validator.go`). */
module LinkResolution {
  import opened Text
  import opened Verdicts
  import opened Paths
  import opened Links

  // ---------------------------------------------------------------- the validator's reading

  /** Where a link leads: nowhere that is checked, or to a file of the bundle. */
  datatype Resolution = Unchecked | Leads(target: CleanPath)

  /** The part of the link before the first such character. */
  function Before(s: string, c: char): string {
    var i := IndexOf(s, c);
    if i < 0 then s else s[..i]
  }

  predicate IsWithin(root: CleanPath, target: CleanPath) {
    match Rel(root, target)
    case None => false
    case Some(parts) => parts == [] || !(".." <= PathText(CleanPath(false, parts)))
  }

  /** What the link check makes of a destination; `anchor` recognises links to repository sources. */
  function Resolve(root: CleanPath, pageDir: CleanPath, link: string, anchor: string -> bool): Resolution {
    if link == "" || IsExternalLink(link) || anchor(link) then Unchecked
    else
      var path := DecodeMarkdownDestinationPath(Before(Before(link, '#'), '?'));
      var target := JoinPath(pageDir, path);
      if path == "" || path[0] == '/' || !IsWithin(root, target) then Unchecked else Leads(target)
  }

  method ResolveLink(root: CleanPath, pageDir: CleanPath, raw: string, anchor: string -> bool) returns (r: Resolution)
    ensures forall link | IsDestination(raw, link) :: r == Resolve(root, pageDir, link, anchor)
  {
    var link := MarkdownLinkDestination(raw);
    forall other | IsDestination(raw, other) ensures other == link {
      DestinationIsUnique(raw, other, link);
    }
    if link == "" || IsExternalLink(link) {
      return Unchecked;
    }
    if anchor(link) {
      return Unchecked;
    }
    var path := Before(link, '#');
    path := Before(path, '?');
    path := DecodeMarkdownDestinationPath(path);
    if path == "" {
      return Unchecked;
    }
    if path[0] == '/' {
      return Unchecked;
    }
    var target := JoinPath(pageDir, path);
    if !IsWithin(root, target) {
      return Unchecked;
    }
    return Leads(target);
  }

  // ---------------------------------------------------------------- the path of the href

  /** The names that a page's path adds to those of the root. */
  lemma {:induction false} CleanRelAppends(kept: seq<string>, parts: seq<string>, rooted: bool)
    requires forall p <- parts :: p != ".."
    ensures CleanParts(kept, parts, rooted) == kept + Kept(parts)
    decreases |parts|
  {
    if parts == [] {
      assert kept + [] == kept;
    } else {
      assert parts[0] in parts && forall p <- parts[1..] :: p in parts;
      CleanRelAppends(CleanStep(kept, parts[0], rooted), parts[1..], rooted);
      if Keeps(parts[0]) {
        assert kept + [parts[0]] + Kept(parts[1..]) == kept + Kept(parts);
      }
    }
  }

  predicate Keeps(part: string) {
    part != "" && part != "."
  }

  function Kept(parts: seq<string>): (kept: seq<string>)
    ensures forall k <- kept :: k in parts && Keeps(k)
  {
    if parts == [] then [] else (if Keeps(parts[0]) then [parts[0]] else []) + Kept(parts[1..])
  }

  /** A page of the bundle: a path below the root that does not climb. */
  predicate IsPage(rel: string) {
    Kept(Split(rel, '/')) != [] && forall p <- Split(rel, '/') :: p != ".."
  }

  /** The directory of a page is the root's with the names in front of the page's own. */
  lemma PageDirParts(root: string, rel: string)
    requires IsPage(rel)
    ensures
      var names := Kept(Split(rel, '/'));
      PageDir(root, rel) == CleanPath(ParsePath(root).rooted, ParsePath(root).parts + names[..|names| - 1])
  {
    var dir, names := ParsePath(root), Kept(Split(rel, '/'));
    CleanRelAppends(dir.parts, Split(rel, '/'), dir.rooted);
    var all := dir.parts + names;
    assert all[..|all| - 1] == dir.parts + names[..|names| - 1];
  }

  /** A relative path leads from the base to the target, through directories that are not `..`. */
  lemma RelLeads(base: CleanPath, target: CleanPath, n: nat)
    requires base.rooted == target.rooted && n == CommonLength(base.parts, target.parts)
    requires forall i :: n <= i < |base.parts| ==> base.parts[i] != ".."
    requires forall i :: n <= i < |target.parts| ==> IsName(target.parts[i])
    ensures Rel(base, target) == Some(Ups(|base.parts| - n) + target.parts[n..])
    ensures CleanParts(base.parts, Ups(|base.parts| - n) + target.parts[n..], base.rooted) == target.parts
  {
    var ups, down := Ups(|base.parts| - n), target.parts[n..];
    CleanPartsConcat(base.parts, ups, down, base.rooted);
    UpsRemove(base.parts, |base.parts| - n, base.rooted);
    forall d <- down ensures IsName(d) {
      var i :| 0 <= i < |down| && down[i] == d;
      assert down[i] == target.parts[n + i];
    }
    NamesAreKept(base.parts[..n], down, base.rooted);
    assert base.parts[..n] + down == target.parts;
  }

  lemma {:induction false} CommonAtLeast(a: seq<string>, b: seq<string>, n: nat)
    requires n <= |a| && n <= |b| && a[..n] == b[..n]
    ensures n <= CommonLength(a, b)
  {
    assert forall i :: 0 <= i < n ==> a[i] == a[..n][i] && b[i] == b[..n][i];
  }

  /** From any page, the relative path to a clean target below the root leads to it. */
  lemma HrefLeads(root: string, rel: string, names: seq<string>) returns (parts: seq<string>)
    requires IsPage(rel) && forall n <- names :: IsName(n)
    ensures
      var dir, base := ParsePath(root), PageDir(root, rel);
      var target := CleanPath(dir.rooted, dir.parts + names);
      && Rel(base, target) == Some(parts)
      && CleanParts(base.parts, parts, base.rooted) == target.parts
      && (parts == [] <==> base == target)
      && (forall p <- parts :: p == ".." || p in names)
  {
    PageDirParts(root, rel);
    var dir, base, own := ParsePath(root), PageDir(root, rel), Kept(Split(rel, '/'));
    var target := CleanPath(dir.rooted, dir.parts + names);
    var n := CommonLength(base.parts, target.parts);
    CommonAtLeast(base.parts, target.parts, |dir.parts|);
    forall i | n <= i < |base.parts| ensures base.parts[i] != ".." {
      assert base.parts[i] == own[i - |dir.parts|] && own[i - |dir.parts|] in own;
    }
    forall i | n <= i < |target.parts| ensures IsName(target.parts[i]) && target.parts[i] in names {
      assert target.parts[i] == names[i - |dir.parts|] && names[i - |dir.parts|] in names;
    }
    RelLeads(base, target, n);
    parts := Ups(|base.parts| - n) + target.parts[n..];
    if parts == [] {
      assert base.parts == base.parts[..n] == target.parts[..n] == target.parts;
    } else if base == target {
      CommonAtLeast(base.parts, target.parts, |base.parts|);
    }
  }

  // ---------------------------------------------------------------- texts

  lemma {:induction false} JoinLast(parts: seq<string>, sep: string)
    requires |parts| > 1
    ensures Join(parts, sep) == Join(parts[..|parts| - 1], sep) + sep + parts[|parts| - 1]
    decreases |parts|
  {
    if |parts| > 2 {
      JoinLast(parts[1..], sep);
      assert parts[1..][..|parts| - 2] == parts[..|parts| - 1][1..];
    } else {
      assert parts[1..] == [parts[1]] && parts[..1] == [parts[0]];
    }
  }

  lemma {:induction false} AfterLastSlashAppend(a: string, b: string)
    requires '/' !in b
    ensures AfterLastSlash(a + b) == AfterLastSlash(a) + b
  {
    if b == "" {
      assert a + b == a;
    } else {
      var shorter := b[..|b| - 1];
      assert (a + b)[..|a + b| - 1] == a + shorter;
      assert (a + b)[|a + b| - 1] == b[|b| - 1];
      AfterLastSlashAppend(a, shorter);
    }
  }

  lemma BaseAfter(front: string, last: string)
    requires IsName(last) && (front == "" || front[|front| - 1] == '/')
    ensures Base(front + last) == last
  {
    var path := front + last;
    assert path[|path| - 1] == last[|last| - 1];
    assert last[|last| - 1] in last;
    assert TrimSlashes(path) == path;
    AfterLastSlashAppend(front, last);
  }

  lemma BaseBehind(slash: string, front: string, last: string)
    requires IsName(last)
    ensures Base(slash + (front + "/" + last)) == last
  {
    assert slash + (front + "/" + last) == slash + front + "/" + last;
    BaseAfter(slash + front + "/", last);
  }

  /** The last element of a joined path. */
  lemma BaseOfJoin(slash: string, names: seq<string>)
    requires slash == "" || slash == "/"
    requires names != [] && IsName(names[|names| - 1])
    ensures Base(slash + Join(names, "/")) == names[|names| - 1]
  {
    var last := names[|names| - 1];
    if |names| == 1 {
      BaseAfter(slash, last);
    } else {
      JoinLast(names, "/");
      BaseBehind(slash, Join(names[..|names| - 1], "/"), last);
    }
  }

  lemma {:induction false} ContainsAcross(a: string, sep: char, b: string, code: string)
    requires code != "" && sep !in code && Contains(a + [sep] + b, code)
    ensures Contains(a, code) || Contains(b, code)
  {
    var s := a + [sep] + b;
    assert s[|a|] == sep;
    if code <= s {
      if |a| < |code| {
        assert false;
      }
      assert code == s[..|code|] == a[..|code|];
    } else if a == "" {
      assert s[1..] == b;
    } else {
      assert s[1..] == a[1..] + [sep] + b;
      ContainsAcross(a[1..], sep, b, code);
    }
  }

  lemma {:induction false} TooShort(s: string, code: string)
    requires |s| < |code|
    ensures !Contains(s, code)
  {
    if s != "" {
      TooShort(s[1..], code);
    }
  }

  /** A code does not straddle the names of a path. */
  lemma {:induction false} JoinFreeOfCodes(parts: seq<string>)
    requires forall p <- parts :: p == ".." || FreeOfCodes(p)
    ensures FreeOfCodes(Join(parts, "/"))
  {
    forall c <- ESCAPED ensures !Contains(Join(parts, "/"), CodeOf(c)) {
      if parts == [] {
      } else if |parts| == 1 {
        assert parts[0] in parts;
        TooShort("..", CodeOf(c));
      } else {
        JoinFreeOfCodes(parts[1..]);
        assert parts[0] in parts;
        TooShort("..", CodeOf(c));
        if Contains(Join(parts, "/"), CodeOf(c)) {
          assert Join(parts, "/") == parts[0] + ['/'] + Join(parts[1..], "/");
          ContainsAcross(parts[0], '/', Join(parts[1..], "/"), CodeOf(c));
          assert false;
        }
      }
    }
  }

  lemma {:induction false} EncodeConcat(a: string, b: string, chars: string)
    requires forall c <- chars :: c in ESCAPED
    ensures Encode(a + b, chars) == Encode(a, chars) + Encode(b, chars)
  {
    if a == "" {
      assert a + b == b;
    } else {
      assert (a + b)[1..] == a[1..] + b;
      EncodeConcat(a[1..], b, chars);
    }
  }

  /** Escaped text is made of the characters that are not escaped and those of the codes. */
  lemma {:induction false} EscapedChars(s: string, c: char)
    requires c in EscapeMarkdownDestination(s)
    ensures (c in s && c !in ESCAPED) || c in "%02893CE5"
  {
    if s[0] in ESCAPED {
      if c !in CodeOf(s[0]) {
        EscapedChars(s[1..], c);
      }
    } else if c != s[0] {
      EscapedChars(s[1..], c);
    }
  }
}
