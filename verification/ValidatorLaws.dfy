/** What the commit gate guarantees of one turn, and what it lets no turn do. */
module ValidatorLaws {
  import opened Text
  import opened Verdicts
  import opened Wiki
  import opened Sums
  import opened Validator

  // ---------------------------------------------------------------- nothing is destroyed

  /** A page that left the active tree has its exact bytes under the archive; a page that was archived
      stays archived. */
  lemma NothingDestroyed(prod: Option<Tree>, staging: Tree, opt: ValidateOptions, maxDiffBytes: int, path: Path)
    requires Acceptable(prod, Some(staging), opt, maxDiffBytes) && !opt.allowDelete
    requires path in Files(prod) && IsMarkdown(path) && path !in staging
    ensures !IsArchivePath(path) && opt.allowPairedArchiveMove
    ensures Archived(path) in staging && staging[Archived(path)] == Files(prod)[path]
  {
    assert PageKept(Files(prod), staging, opt, path);
  }

  // ---------------------------------------------------------------- what an archived page does to later turns

  /** While production holds an archived page, a turn is only let through when paired moves are on, the
      active page is still there, and the archived page is staged with the bytes of that active page. */
  lemma ArchivedPageNeedsTwin(prod: Option<Tree>, staging: Tree, opt: ValidateOptions, maxDiffBytes: int,
      archived: Path)
    requires Acceptable(prod, Some(staging), opt, maxDiffBytes) && !opt.allowDelete
    requires archived in Files(prod) && IsMarkdown(archived) && IsArchivePath(archived)
    ensures opt.allowPairedArchiveMove && Former(archived) in Files(prod)
    ensures archived in staging && staging[archived] == Files(prod)[Former(archived)]
  {
    assert PageKept(Files(prod), staging, opt, archived);
    assert FileAllowed(Files(prod), staging[archived], opt, archived);
    KindsApart(archived);
  }

  /** So after a turn that moved a page to the archive, no turn without blanket deletion is let through,
      whatever it stages: keeping the archived page is a taxonomy violation, dropping it a deletion. */
  lemma MoveBlocksLaterTurns(
      prod: Option<Tree>, moved: Tree, opt: ValidateOptions, maxDiffBytes: int, path: Path,
      later: Tree, laterOpt: ValidateOptions)
    requires Acceptable(prod, Some(moved), opt, maxDiffBytes) && !opt.allowDelete
    requires path in Files(prod) && IsMarkdown(path) && path !in moved
    requires !laterOpt.allowDelete
    ensures !Acceptable(Some(moved), Some(later), laterOpt, maxDiffBytes)
  {
    NothingDestroyed(prod, moved, opt, maxDiffBytes, path);
    FormerOfArchived(path);
    MarkdownArchived(path);
    if Acceptable(Some(moved), Some(later), laterOpt, maxDiffBytes) {
      ArchivedPageNeedsTwin(Some(moved), later, laterOpt, maxDiffBytes, Archived(path));
      assert false;
    }
  }

  lemma MarkdownArchived(path: Path)
    requires IsMarkdown(path)
    ensures IsMarkdown(Archived(path))
  {
    var text := Archived(path).text;
    assert text[|text| - 3..] == path.text[|path.text| - 3..];
  }

  /** A turn that changes nothing is let through exactly when production itself is legal: every archived
      page is a copy of an active one and paired moves are on, and every other file is metadata or a page
      of the taxonomy with its markers. */
  lemma NoOpTurn(prod: Tree, opt: ValidateOptions, maxDiffBytes: nat)
    ensures Acceptable(Some(prod), Some(prod), opt, maxDiffBytes) <==> AllFilesAllowed(prod, prod, opt)
  {
    var zero := (path: Path) => 0;
    TotalSame(prod.Keys, DiffFunction(prod, prod, opt), zero);
    TotalOfZero(prod.Keys, zero);
  }

  lemma {:induction false} TotalOfZero<T(!new)>(s: set<T>, f: T -> nat)
    requires forall x :: f(x) == 0
    ensures Total(s, f) == 0
    decreases |s|
  {
    if s != {} {
      var x :| x in s;
      TotalWithout(s, f, x);
      TotalOfZero(s - {x}, f);
    }
  }

  // ---------------------------------------------------------------- growth

  ghost function SizeIn(tree: Tree, counted: Path -> bool): Path -> nat {
    (path: Path) => if path in tree && counted(path) then ByteLen(tree[path]) else 0
  }

  /** The bytes of the files of a tree that are counted. */
  ghost function BytesOf(tree: Tree, counted: Path -> bool): nat {
    Total(tree.Keys, SizeIn(tree, counted))
  }

  /** One turn grows the active pages, or any part of them, by at most the budget. */
  lemma GrowthBound(prod: Option<Tree>, staging: Tree, opt: ValidateOptions, maxDiffBytes: int, counted: Path -> bool)
    requires Acceptable(prod, Some(staging), opt, maxDiffBytes)
    requires forall path :: counted(path) ==> IsActive(path)
    ensures BytesOf(staging, counted) <= BytesOf(Files(prod), counted) + maxDiffBytes
  {
    var before := Files(prod);
    forall path <- staging.Keys
      ensures SizeIn(staging, counted)(path) <= SizeIn(before, counted)(path) + DiffFunction(before, staging, opt)(path)
    {
      assert FileAllowed(before, staging[path], opt, path);
    }
    TotalBound(staging.Keys, SizeIn(staging, counted), SizeIn(before, counted), DiffFunction(before, staging, opt));
    TotalWithin(staging.Keys, before.Keys, SizeIn(before, counted));
  }

  /** Trees that agree on the counted files have the same size. */
  lemma SameBytes(a: Tree, b: Tree, counted: Path -> bool)
    requires forall path | counted(path) :: (path in a <==> path in b) && (path in a ==> a[path] == b[path])
    ensures BytesOf(a, counted) == BytesOf(b, counted)
  {
    TotalWithin(a.Keys, b.Keys, SizeIn(a, counted));
    TotalWithin(b.Keys, a.Keys, SizeIn(b, counted));
    TotalSame(a.Keys, SizeIn(a, counted), SizeIn(b, counted));
    TotalSame(b.Keys, SizeIn(b, counted), SizeIn(a, counted));
  }
}
