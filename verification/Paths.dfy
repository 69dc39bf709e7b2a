/** `path/filepath` on Unix, by components. */
module Paths {
  import opened Text
  import opened Verdicts

  /** A cleaned path: whether it starts at `/`, and its components. */
  datatype CleanPath = CleanPath(rooted: bool, parts: seq<string>)

  /** The effect of one component on the components kept so far. */
  function CleanStep(kept: seq<string>, part: string, rooted: bool): seq<string> {
    if part == "" || part == "." then kept
    else if part == ".." then
      if kept != [] && kept[|kept| - 1] != ".." then kept[..|kept| - 1]
      else if rooted then kept
      else kept + [".."]
    else kept + [part]
  }

  function CleanParts(kept: seq<string>, parts: seq<string>, rooted: bool): seq<string>
    decreases |parts|
  {
    if parts == [] then kept else CleanParts(CleanStep(kept, parts[0], rooted), parts[1..], rooted)
  }

  function ParsePath(path: string): CleanPath {
    var rooted := path != "" && path[0] == '/';
    CleanPath(rooted, CleanParts([], Split(path, '/'), rooted))
  }

  function PathText(path: CleanPath): string {
    var body := Join(path.parts, "/");
    if path.rooted then "/" + body else if body == "" then "." else body
  }

  /** `filepath.Clean`. */
  function Clean(path: string): string {
    PathText(ParsePath(path))
  }

  /** `filepath.Join` of a directory and a path. */
  function JoinPath(dir: CleanPath, path: string): CleanPath {
    CleanPath(dir.rooted, CleanParts(dir.parts, Split(path, '/'), dir.rooted))
  }

  /** `filepath.Dir`. */
  function DirOf(path: CleanPath): CleanPath {
    CleanPath(path.rooted, if path.parts == [] then [] else path.parts[..|path.parts| - 1])
  }

  function CommonLength(a: seq<string>, b: seq<string>): (n: nat)
    ensures n <= |a| && n <= |b| && a[..n] == b[..n]
    ensures n < |a| && n < |b| ==> a[n] != b[n]
  {
    if a == [] || b == [] || a[0] != b[0] then 0
    else
      var n := 1 + CommonLength(a[1..], b[1..]);
      assert forall i :: 0 < i < n ==> a[i] == a[1..][i - 1] && b[i] == b[1..][i - 1];
      n
  }

  function Ups(n: nat): (parts: seq<string>)
    ensures |parts| == n && forall p <- parts :: p == ".."
  {
    seq(n, _ => "..")
  }

  /** `filepath.Rel`: up from the base to the common directory, then down to the target. */
  function Rel(base: CleanPath, target: CleanPath): Option<seq<string>> {
    var n := CommonLength(base.parts, target.parts);
    if base.rooted != target.rooted || (n < |base.parts| && base.parts[n] == "..") then None
    else Some(Ups(|base.parts| - n) + target.parts[n..])
  }

  /** `filepath.Base`. */
  function Base(path: string): string {
    if path == "" then "."
    else
      var kept := TrimSlashes(path);
      if kept == "" then "/" else AfterLastSlash(kept)
  }

  function TrimSlashes(s: string): string {
    if s != "" && s[|s| - 1] == '/' then TrimSlashes(s[..|s| - 1]) else s
  }

  function AfterLastSlash(s: string): string {
    if s == "" || s[|s| - 1] == '/' then "" else AfterLastSlash(s[..|s| - 1]) + [s[|s| - 1]]
  }

  /** `filepath.Ext`: from the last dot of the last element on. */
  function Ext(path: string): string {
    if path == "" || path[|path| - 1] == '/' then ""
    else if path[|path| - 1] == '.' then "."
    else
      var before := Ext(path[..|path| - 1]);
      if before == "" then "" else before + [path[|path| - 1]]
  }

  // ---------------------------------------------------------------- laws

  lemma {:induction false} CleanPartsConcat(kept: seq<string>, a: seq<string>, b: seq<string>, rooted: bool)
    ensures CleanParts(kept, a + b, rooted) == CleanParts(CleanParts(kept, a, rooted), b, rooted)
    decreases |a|
  {
    if a == [] {
      assert a + b == b;
    } else {
      assert (a + b)[1..] == a[1..] + b;
      CleanPartsConcat(CleanStep(kept, a[0], rooted), a[1..], b, rooted);
    }
  }

  /** Joining is cleaning the two texts with a slash between. */
  lemma JoinIsClean(dir: string, path: string)
    requires dir != ""
    ensures ParsePath(dir + "/" + path) == JoinPath(ParsePath(dir), path)
  {
    assert dir + "/" + path == dir + ['/'] + path;
    SplitAtSeparator(dir, path, '/');
    CleanPartsConcat([], Split(dir, '/'), Split(path, '/'), dir[0] == '/');
  }

  predicate IsName(part: string) {
    part != "" && part != "." && part != ".." && '/' !in part
  }

  /** Names are kept as they are. */
  lemma {:induction false} NamesAreKept(kept: seq<string>, names: seq<string>, rooted: bool)
    requires forall n <- names :: IsName(n)
    ensures CleanParts(kept, names, rooted) == kept + names
    decreases |names|
  {
    if names == [] {
      assert kept + names == kept;
    } else {
      assert IsName(names[0]);
      NamesAreKept(kept + [names[0]], names[1..], rooted);
      assert kept + [names[0]] + names[1..] == kept + names;
    }
  }

  /** Going up takes components away as long as there are any that are not `..`. */
  lemma {:induction false} UpsRemove(kept: seq<string>, n: nat, rooted: bool)
    requires n <= |kept| && forall i :: |kept| - n <= i < |kept| ==> kept[i] != ".."
    ensures CleanParts(kept, Ups(n), rooted) == kept[..|kept| - n]
    decreases n
  {
    if n == 0 {
      assert kept[..|kept|] == kept;
    } else {
      assert Ups(n)[1..] == Ups(n - 1);
      UpsRemove(kept[..|kept| - 1], n - 1, rooted);
    }
  }

  /** What cleaning leaves is a part of what was kept, followed by components of the path or `..`. */
  lemma {:induction false} CleanShape(kept: seq<string>, parts: seq<string>, rooted: bool)
    returns (k: nat, added: seq<string>)
    ensures k <= |kept| && CleanParts(kept, parts, rooted) == kept[..k] + added
    ensures forall a <- added :: a == ".." || a in parts
    decreases |parts|
  {
    if parts == [] {
      k, added := |kept|, [];
    } else {
      var next := CleanStep(kept, parts[0], rooted);
      var j, rest := CleanShape(next, parts[1..], rooted);
      if |kept| <= |next| {
        k := if j <= |kept| then j else |kept|;
        added := next[k..j] + rest;
        assert next[..k] == kept[..k];
        assert next[..j] + rest == kept[..k] + added;
        forall a <- added ensures a == ".." || a in parts {
          if a in next[k..j] {
            assert a == ".." || a == parts[0];
          } else if a != ".." {
            assert a in parts[1..];
          }
        }
      } else {
        k, added := j, rest;
        assert next[..j] == kept[..j];
      }
    }
  }

  lemma {:induction false} JoinChars(parts: seq<string>, sep: string, c: char)
    requires c !in sep && forall p <- parts :: c !in p
    ensures c !in Join(parts, sep)
  {
    if |parts| > 1 {
      JoinChars(parts[1..], sep, c);
    }
  }

  lemma {:induction false} SplitChars(s: string, sep: char, c: char)
    requires c !in s
    ensures forall p <- Split(s, sep) :: c !in p
  {
    if s != "" {
      SplitChars(s[1..], sep, c);
    }
  }
}
