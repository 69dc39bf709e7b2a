/** The path from a wiki link to the file it names and back, end to end
    (`internal/okf/migration.go`, `internal/okf/validator.go`). */
module LinkRoundTrip {
  import opened Text
  import opened Verdicts
  import opened Paths
  import opened Links
  import opened LinkResolution

  // ---------------------------------------------------------------- which targets

  /** No anchor, query or scheme, and no white space but the plain space. */
  predicate OrdinaryChar(c: char) {
    c != '#' && c != '?' && c != ':' && (IsSpace(c) ==> c == ' ')
  }

  predicate OrdinaryName(name: string) {
    IsName(name) && FreeOfCodes(name) && forall c <- name :: OrdinaryChar(c)
  }

  /** Nothing, an anchor, or a query without an anchor. */
  predicate OrdinarySuffix(suffix: string) {
    && (suffix == "" || suffix[0] == '#' || (suffix[0] == '?' && '#' !in suffix))
    && forall c <- suffix :: c != ':' && (IsSpace(c) ==> c == ' ')
  }

  /** The file that a path of names stands for: the extension may be left out. */
  function FileNames(names: seq<string>): seq<string>
    requires names != []
  {
    var last := names[|names| - 1];
    if HasSuffix(last, ".md") then names else names[..|names| - 1] + [last + ".md"]
  }

  predicate EndsInSpace(s: string) {
    s != "" && IsSpace(s[|s| - 1])
  }

  /** A clean target under one of the roots of the bundle, as it is written in a wiki link: a slash in
      front or not, the names of the path, and a suffix. */
  predicate CleanTarget(slash: string, names: seq<string>, suffix: string) {
    && (slash == "" || slash == "/")
    && names != [] && (forall n <- names :: OrdinaryName(n)) && IsBundleRoot(FileNames(names)[0])
    && !EndsInSpace(names[|names| - 1])
    && OrdinarySuffix(suffix)
  }

  // ---------------------------------------------------------------- names

  lemma FileNamesAreNames(names: seq<string>)
    requires names != [] && forall n <- names :: OrdinaryName(n)
    ensures forall n <- FileNames(names) :: OrdinaryName(n)
    ensures FileNames(names) != []
  {
    var last := names[|names| - 1];
    if !HasSuffix(last, ".md") {
      assert OrdinaryName(last);
      ExtendedName(last);
      forall n <- FileNames(names) ensures OrdinaryName(n) {
        assert n in names || n == last + ".md";
      }
    }
  }

  lemma ExtendedName(name: string)
    requires OrdinaryName(name)
    ensures OrdinaryName(name + ".md")
  {
    var longer := name + ".md";
    assert longer[0] == name[0] && |longer| > 3;
    forall c <- ESCAPED ensures !Contains(longer, CodeOf(c)) {
      if Contains(longer, CodeOf(c)) {
        assert longer == name + ['.'] + "md";
        DigitsApart(c, c);
        assert '.' !in CodeOf(c);
        ContainsAcross(name, '.', "md", CodeOf(c));
        TooShort("md", CodeOf(c));
        assert false;
      }
    }
    forall c <- longer ensures OrdinaryChar(c) {
      assert c in name || c in ".md";
    }
  }

  lemma {:induction false} JoinedChars(parts: seq<string>, c: char)
    requires c in Join(parts, "/")
    ensures c == '/' || exists p <- parts :: c in p
  {
    if |parts| == 1 {
      assert parts[0] in parts;
    } else {
      assert parts[0] in parts;
      if c in Join(parts[1..], "/") && c != '/' {
        JoinedChars(parts[1..], c);
        var p :| p in parts[1..] && c in p;
        assert p in parts;
      }
    }
  }

  lemma OrdinaryText(parts: seq<string>)
    requires forall p <- parts :: p == ".." || OrdinaryName(p)
    ensures forall c <- Join(parts, "/") :: OrdinaryChar(c)
  {
    forall c <- Join(parts, "/") ensures OrdinaryChar(c) {
      JoinedChars(parts, c);
      if c != '/' {
        var p :| p in parts && c in p;
        assert p == ".." || OrdinaryName(p);
      }
    }
  }

  // ---------------------------------------------------------------- writing

  lemma SuffixIsSplit(path: string, suffix: string)
    requires (forall c <- path :: OrdinaryChar(c)) && OrdinarySuffix(suffix)
    ensures SplitLinkSuffix(path + suffix) == (path, suffix)
  {
    var target := path + suffix;
    if suffix != "" {
      IndexInFront(path, suffix, suffix[0]);
      assert target[..|path|] == path && target[|path|..] == suffix;
      if suffix[0] == '?' {
        assert '#' !in target;
      }
    } else {
      assert target == path;
    }
  }

  lemma SlashTrimmed(slash: string, path: string)
    requires (slash == "" || slash == "/") && path != "" && path[0] != '/'
    ensures TrimPrefix(slash + path, "/") == path
  {
    assert (slash + path)[|slash|..] == path;
  }

  lemma SlashInFront(slash: string, path: string)
    ensures slash + path + ".md" == slash + (path + ".md")
  {
  }

  /** Writing out the extension. */
  lemma PagePathIs(slash: string, names: seq<string>)
    requires slash == "" || slash == "/"
    requires names != [] && forall n <- names :: OrdinaryName(n)
    ensures PagePath(slash + Join(names, "/")) == Join(FileNames(names), "/")
  {
    assert OrdinaryName(names[|names| - 1]);
    BaseOfJoin(slash, names);
    FileNamesAreNames(names);
    assert OrdinaryName(FileNames(names)[0]);
    FirstOfJoin(FileNames(names));
    SlashTrimmed(slash, Join(FileNames(names), "/"));
    if !HasSuffix(names[|names| - 1], ".md") {
      JoinExtended(names);
      SlashInFront(slash, Join(names, "/"));
    }
  }

  lemma JoinExtended(names: seq<string>)
    requires names != [] && !HasSuffix(names[|names| - 1], ".md")
    ensures Join(FileNames(names), "/") == Join(names, "/") + ".md"
  {
    var pages, last := FileNames(names), names[|names| - 1];
    if |names| > 1 {
      JoinLast(names, "/");
      JoinLast(pages, "/");
      assert pages[..|pages| - 1] == names[..|names| - 1];
      Regroup(Join(names[..|names| - 1], "/"), last);
    }
  }

  lemma Regroup(front: string, last: string)
    ensures front + "/" + (last + ".md") == front + "/" + last + ".md"
  {
  }

  lemma FirstOfJoin(names: seq<string>)
    requires names != [] && IsName(names[0])
    ensures Join(names, "/") != "" && Join(names, "/")[0] == names[0][0] != '/'
  {
    assert names[0][0] in names[0];
  }

  /** The bundle directory that a clean path starts with is recognised. */
  lemma RootRecognised(names: seq<string>)
    requires names != [] && forall n <- names :: IsName(n)
    ensures IsBundleRootPath(Join(names, "/")) <==> IsBundleRoot(names[0])
    ensures Split(Join(names, "/"), '/') == names
  {
    FirstOfJoin(names);
    assert TrimPrefix(Join(names, "/"), "/") == Join(names, "/");
    SplitOfJoin(names, '/');
  }

  /** A joined relative path is never mistaken for "here". */
  lemma NotHere(parts: seq<string>)
    requires parts != [] && forall p <- parts :: p == ".." || IsName(p)
    ensures Join(parts, "/") != "" && Join(parts, "/") != "." && Join(parts, "/")[0] != '/'
  {
    assert parts[0] in parts;
    if parts[0] != ".." {
      FirstOfJoin(parts);
    }
    if |parts| == 1 {
      assert Join(parts, "/") == parts[0];
    } else {
      assert |Join(parts, "/")| >= |parts[0]| + 1 >= 2;
    }
  }

  /** The href of a clean target: the relative path, or the bare file name when the page's directory is
      the target itself. */
  lemma HrefOfTarget(root: string, rel: string, names: seq<string>) returns (parts: seq<string>)
    requires IsPage(rel) && names != [] && (forall n <- names :: IsName(n)) && IsBundleRoot(names[0])
    ensures
      var dir, base := ParsePath(root), PageDir(root, rel);
      && HrefPath(root, rel, Join(names, "/")) == Join(if parts == [] then [names[|names| - 1]] else parts, "/")
      && CleanParts(base.parts, parts, base.rooted) == dir.parts + names
      && (parts == [] <==> base == CleanPath(dir.rooted, dir.parts + names))
      && (forall p <- parts :: p == ".." || p in names)
  {
    var dir, path := ParsePath(root), Join(names, "/");
    parts := HrefLeads(root, rel, names);
    RootRecognised(names);
    NamesAreKept(dir.parts, names, dir.rooted);
    if parts == [] {
      BaseOfJoin("", names);
      assert "" + path == path;
    } else {
      NotHere(parts);
    }
  }

  /** The whole href of a clean target. */
  lemma TargetIsWritten(root: string, rel: string, slash: string, names: seq<string>, suffix: string)
    requires IsPage(rel) && CleanTarget(slash, names, suffix)
    ensures MarkdownHrefForWikiTarget(root, rel, slash + Join(names, "/") + suffix) ==
      EscapeMarkdownDestination(HrefPath(root, rel, Join(FileNames(names), "/")) + suffix)
  {
    var path := slash + Join(names, "/");
    PathIsOrdinary(slash, names);
    SuffixIsSplit(path, suffix);
    PagePathIs(slash, names);
    PathIsKept(slash, names);
  }

  lemma PathIsOrdinary(slash: string, names: seq<string>)
    requires (slash == "" || slash == "/") && forall n <- names :: OrdinaryName(n)
    ensures forall c <- slash + Join(names, "/") :: OrdinaryChar(c)
  {
    OrdinaryText(names);
  }

  lemma InternalStart(path: string)
    requires path != "" && path[0] in "sepa/"
    ensures !IsExternalLink(path)
  {
    assert Lower(path)[0] == path[0];
  }

  lemma RootStart(part: string)
    requires IsBundleRoot(part)
    ensures part != "" && part[0] in "sepa"
  {
  }

  /** The ends of the text of a clean path. */
  lemma PathEnds(slash: string, names: seq<string>)
    requires (slash == "" || slash == "/") && names != [] && names[|names| - 1] != "" && IsName(names[0])
    ensures
      var path, last := slash + Join(names, "/"), names[|names| - 1];
      path != "" && path[|path| - 1] == last[|last| - 1] && path[0] == if slash == "" then names[0][0] else '/'
  {
    FirstOfJoin(names);
    LastOfJoin(names);
  }

  /** A clean path is neither trimmed nor taken for a link out of the bundle. */
  lemma PathIsKept(slash: string, names: seq<string>)
    requires CleanTarget(slash, names, "")
    ensures
      var path := slash + Join(names, "/");
      path != "" && TrimSpace(path) == path && !IsExternalLink(path)
  {
    var path := slash + Join(names, "/");
    assert OrdinaryName(names[0]) && OrdinaryName(names[|names| - 1]);
    RootIsNotLast(names);
    assert names[0] == FileNames(names)[0];
    RootStart(names[0]);
    PathEnds(slash, names);
    assert path[0] in "sepa/";
    InternalStart(path);
    assert !EndsInSpace(names[|names| - 1]);
    TrimmedIsFixed(path);
  }

  lemma RootHasNoExtension(part: string)
    requires IsBundleRoot(part)
    ensures |part| >= 3 && part[|part| - 1] != 'd'
  {
  }

  /** A directory of the bundle is not itself a page, so there is a name behind it. */
  lemma RootIsNotLast(names: seq<string>)
    requires names != [] && IsBundleRoot(FileNames(names)[0])
    ensures |names| > 1
  {
    var last := FileNames(names)[|names| - 1];
    assert last[|last| - 1] == last[|last| - 3..][2] == 'd';
    if |names| == 1 {
      RootHasNoExtension(last);
      assert false;
    }
  }

  lemma LastOfJoin(names: seq<string>)
    requires names != [] && names[|names| - 1] != ""
    ensures
      var text, last := Join(names, "/"), names[|names| - 1];
      text != "" && text[|text| - 1] == last[|last| - 1]
  {
    if |names| > 1 {
      JoinLast(names, "/");
    }
  }

  // ---------------------------------------------------------------- reading

  /** The characters that an escaped link cannot have. */
  lemma EscapedIsQuiet(s: string)
    requires forall c <- s :: c != ':' && (IsSpace(c) ==> c == ' ')
    ensures forall c <- EscapeMarkdownDestination(s) :: c != ':' && c != '<' && c != ')' && !IsSpace(c)
    ensures forall d | d in "#?" && d !in s :: d !in EscapeMarkdownDestination(s)
  {
    forall c <- EscapeMarkdownDestination(s)
      ensures c != ':' && c != '<' && c != ')' && !IsSpace(c) && (c in "#?" ==> c in s)
    {
      EscapedChars(s, c);
    }
  }

  /** Such a link is read as it stands. */
  lemma QuietIsDestination(link: string)
    requires link != "" && forall c <- link :: c != '<' && !IsSpace(c)
    ensures IsDestination(link, link)
  {
    assert link[0] in link && link[|link| - 1] in link;
    TrimmedIsFixed(link);
    forall i | 0 <= i < |link| ensures !EndsAt(link, i) {
      assert link[i] in link;
    }
  }

  lemma NotExternal(link: string)
    requires link != "" && link[0] != '#' && ':' !in link
    ensures !IsExternalLink(link)
  {
    var lower := Lower(link);
    forall i | 0 <= i < |lower| ensures lower[i] != ':' {
      assert link[i] in link;
    }
    assert |lower| > 3 ==> lower[3] != ':';
    assert |lower| > 4 ==> lower[4] != ':';
    assert |lower| > 5 ==> lower[5] != ':';
    assert |lower| > 6 ==> lower[6] != ':';
    assert lower[0] != '#';
  }

  /** Anchor and query are cut off again. */
  lemma SuffixIsCut(path: string, suffix: string)
    requires (forall c <- path :: OrdinaryChar(c)) && OrdinarySuffix(suffix)
    ensures Before(Before(EscapeMarkdownDestination(path + suffix), '#'), '?') == EscapeMarkdownDestination(path)
  {
    var a, b := EscapeMarkdownDestination(path), EscapeMarkdownDestination(suffix);
    EncodeConcat(path, suffix, ESCAPED);
    EscapedIsQuiet(path);
    EscapedIsQuiet(suffix);
    assert '#' in "#?" && '?' in "#?" && '#' !in a && '?' !in a;
    if suffix == "" {
      assert a + b == a;
    } else {
      assert b != "" && b[0] == suffix[0];
      IndexInFront(a, b, suffix[0]);
      assert (a + b)[..|a|] == a;
      if suffix[0] == '?' {
        assert '#' !in b && '#' !in a + b;
      }
    }
  }

  /** A file under a directory of the bundle is within the bundle. */
  lemma BundleIsWithin(dir: CleanPath, names: seq<string>)
    requires names != [] && IsBundleRoot(names[0]) && IsName(names[0])
    ensures IsWithin(dir, CleanPath(dir.rooted, dir.parts + names))
  {
    var all := dir.parts + names;
    CommonAtLeast(dir.parts, all, |dir.parts|);
    assert Ups(0) + all[|dir.parts|..] == names;
    FirstOfJoin(names);
    assert names[0][0] != '.';
  }

  /** An escaped link is read whole, and is not taken for a link out of the bundle. */
  lemma EscapedIsRead(text: string)
    requires text != "" && text[0] != '#' && forall c <- text :: c != ':' && (IsSpace(c) ==> c == ' ')
    ensures
      var link := EscapeMarkdownDestination(text);
      link != "" && IsDestination(link, link) && ')' !in link && ':' !in link && !IsExternalLink(link)
  {
    EscapedIsQuiet(text);
    FirstEscaped(text);
    QuietIsDestination(EscapeMarkdownDestination(text));
    NotExternal(EscapeMarkdownDestination(text));
  }

  /** What is decoded is the path that was escaped. */
  lemma EscapedIsDecoded(parts: seq<string>, suffix: string)
    requires parts != [] && (forall p <- parts :: p == ".." || OrdinaryName(p)) && OrdinarySuffix(suffix)
    ensures
      var link := EscapeMarkdownDestination(Join(parts, "/") + suffix);
      DecodeMarkdownDestinationPath(Before(Before(link, '#'), '?')) == Join(parts, "/")
  {
    OrdinaryText(parts);
    SuffixIsCut(Join(parts, "/"), suffix);
    JoinFreeOfCodes(parts);
    EscapeRoundTrip(Join(parts, "/"));
  }

  /** How the link check reads a path that was escaped: as the path itself, from the page's directory. */
  lemma EscapedPathResolves(
      dir: CleanPath, base: CleanPath, parts: seq<string>, suffix: string, anchor: string -> bool)
    requires parts != [] && (forall p <- parts :: p == ".." || OrdinaryName(p)) && OrdinarySuffix(suffix)
    requires forall s :: anchor(s) ==> ':' in s
    ensures
      var link := EscapeMarkdownDestination(Join(parts, "/") + suffix);
      var target := CleanPath(base.rooted, CleanParts(base.parts, parts, base.rooted));
      && IsDestination(link, link) && ')' !in link
      && Resolve(dir, base, link, anchor) == if IsWithin(dir, target) then Leads(target) else Unchecked
  {
    var path := Join(parts, "/");
    NotHere(parts);
    TextIsOrdinary(parts, suffix);
    EscapedIsRead(path + suffix);
    EscapedIsDecoded(parts, suffix);
    PartsLackSlash(parts);
    SplitOfJoin(parts, '/');
  }

  lemma PartsLackSlash(parts: seq<string>)
    requires forall p <- parts :: p == ".." || OrdinaryName(p)
    ensures forall p <- parts :: '/' !in p
  {
  }

  lemma TextIsOrdinary(parts: seq<string>, suffix: string)
    requires parts != [] && (forall p <- parts :: p == ".." || OrdinaryName(p)) && OrdinarySuffix(suffix)
    ensures
      var text := Join(parts, "/") + suffix;
      text != "" && text[0] != '#' && forall c <- text :: c != ':' && (IsSpace(c) ==> c == ' ')
  {
    OrdinaryText(parts);
    NotHere(parts);
    assert Join(parts, "/")[0] in Join(parts, "/");
  }

  lemma FirstEscaped(s: string)
    requires s != "" && s[0] != '#'
    ensures EscapeMarkdownDestination(s) != "" && EscapeMarkdownDestination(s)[0] != '#'
  {
  }

  // ---------------------------------------------------------------- the round trip

  /** From a page at any depth, the destination written for a clean target is read back whole by the link
      check and leads to the file that the target names, exactly when the page's directory is not that
      file itself. */
  lemma LinkLeadsToFile(
      root: string, rel: string, slash: string, names: seq<string>, suffix: string, anchor: string -> bool)
    requires IsPage(rel) && CleanTarget(slash, names, suffix)
    requires forall s :: anchor(s) ==> ':' in s
    ensures
      var dir, base := ParsePath(root), PageDir(root, rel);
      var target := CleanPath(dir.rooted, dir.parts + FileNames(names));
      var href := MarkdownHrefForWikiTarget(root, rel, slash + Join(names, "/") + suffix);
      && IsDestination(href, href) && ')' !in href
      && (Resolve(dir, base, href, anchor) == Leads(target) <==> base != target)
  {
    var dir, base, pages := ParsePath(root), PageDir(root, rel), FileNames(names);
    TargetIsWritten(root, rel, slash, names, suffix);
    FileNamesAreNames(names);
    assert forall p <- pages :: IsName(p) by {
      forall p <- pages ensures IsName(p) {
        assert OrdinaryName(p);
      }
    }
    var parts := HrefOfTarget(root, rel, pages);
    var written := if parts == [] then [pages[|pages| - 1]] else parts;
    forall p <- written ensures p == ".." || OrdinaryName(p) {
      assert p == ".." || p in pages;
    }
    EscapedPathResolves(dir, base, written, suffix, anchor);
    assert pages[0] in pages;
    BundleIsWithin(dir, pages);
    PageDirParts(root, rel);
    if parts == [] {
      NamesAreKept(base.parts, written, base.rooted);
    }
  }
}
