/** The commit gate (`internal/agent/validator.go`). */
module Validator {
  import opened Text
  import opened Verdicts
  import opened Turns
  import opened Wiki
  import opened Sums

  const DEFAULT_MAX_DIFF_BYTES := 1048576

  const NON_MARKDOWN := "non-Markdown file in wiki (only .md files are allowed)"
  const BAD_PATH := "path does not conform to wiki taxonomy (semantic/, episodic/, procedural/, prospective/)"
  const NO_FRONTMATTER := "missing required frontmatter (compiled_from, last_compiled)"
  const ARCHIVE_DELETED := "archived page deleted in staging (archive/ history is append-only)"
  const PAGE_DELETED :=
    "page deleted in staging without a byte-identical archive/ copy (compile may archive-move, not destroy)"

  datatype ValidateOptions = ValidateOptions(allowDelete: bool, allowPairedArchiveMove: bool)

  // ---------------------------------------------------------------- what a turn may do

  /** The staged page is under the archive and is byte for byte the active page it came from. */
  predicate FaithfulMove(prod: Tree, staged: string, opt: ValidateOptions, path: Path) {
    opt.allowPairedArchiveMove && IsArchivePath(path) && Former(path) in prod && prod[Former(path)] == staged
  }

  /** A staged file is legal: metadata, a faithful move, or a page of the taxonomy with its markers. */
  predicate FileAllowed(prod: Tree, staged: string, opt: ValidateOptions, path: Path) {
    || InMeta(path)
    || FaithfulMove(prod, staged, opt, path)
    || (IsMarkdown(path) && IsValidWikiPath(path) && (IsStructuralWikiIndex(path) || HasFrontmatter(staged)))
  }

  /** A page of production survives: it is still there, or it moved to the archive unchanged. */
  predicate PageKept(prod: Tree, staging: Tree, opt: ValidateOptions, path: Path)
    requires path in prod
  {
    || !IsMarkdown(path)
    || path in staging
    || (opt.allowPairedArchiveMove && !IsArchivePath(path)
        && Archived(path) in staging && staging[Archived(path)] == prod[path])
  }

  /** The bytes that a staged file adds to the budget. */
  function DiffOf(prod: Tree, staged: string, opt: ValidateOptions, path: Path): nat {
    if InMeta(path) then 0
    else if FaithfulMove(prod, staged, opt, path) then if path in prod then 0 else ByteLen(staged)
    else if !IsMarkdown(path) then 0
    else if path in prod then Abs(ByteLen(staged) - ByteLen(prod[path]))
    else ByteLen(staged)
  }

  function Abs(x: int): nat {
    if x < 0 then -x else x
  }

  ghost function DiffFunction(prod: Tree, staging: Tree, opt: ValidateOptions): Path -> nat {
    (path: Path) => if path in staging then DiffOf(prod, staging[path], opt, path) else 0
  }

  ghost function DiffBytes(prod: Tree, staging: Tree, opt: ValidateOptions): nat {
    Total(staging.Keys, DiffFunction(prod, staging, opt))
  }

  ghost predicate AllFilesAllowed(prod: Tree, staging: Tree, opt: ValidateOptions) {
    forall path <- staging :: FileAllowed(prod, staging[path], opt, path)
  }

  ghost predicate AllPagesKept(prod: Tree, staging: Tree, opt: ValidateOptions) {
    forall path <- prod :: PageKept(prod, staging, opt, path)
  }

  /** What a turn must leave in staging to be committed. */
  ghost predicate Acceptable(prod: Option<Tree>, staging: Option<Tree>, opt: ValidateOptions, maxDiffBytes: int) {
    staging.Some? ==>
      && AllFilesAllowed(Files(prod), staging.value, opt)
      && DiffBytes(Files(prod), staging.value, opt) <= maxDiffBytes
      && (opt.allowDelete || AllPagesKept(Files(prod), staging.value, opt))
  }

  // ---------------------------------------------------------------- what is reported

  predicate Reports(violations: seq<Violation>, path: Path, message: string) {
    Violation(path.text, message) in violations
  }

  /** The complaints about one staged file. */
  predicate StagedComplaint(prod: Tree, staged: string, opt: ValidateOptions, path: Path, message: string) {
    && !InMeta(path) && !FaithfulMove(prod, staged, opt, path)
    && if IsMarkdown(path) then
         || (message == BAD_PATH && !IsValidWikiPath(path))
         || (message == NO_FRONTMATTER && !IsStructuralWikiIndex(path) && !HasFrontmatter(staged))
       else message == NON_MARKDOWN
  }

  /** The complaint about one file of production. */
  predicate LossComplaint(prod: Tree, staging: Tree, opt: ValidateOptions, path: Path, message: string)
    requires path in prod
  {
    !PageKept(prod, staging, opt, path) && message == if IsArchivePath(path) then ARCHIVE_DELETED else PAGE_DELETED
  }

  function BudgetMessage(total: nat, maxDiffBytes: int): string {
    "diff budget exceeded: " + Decimal(total) + " bytes > " + DecimalInt(maxDiffBytes) + " bytes max"
  }

  /** `found` holds exactly the complaints about the file. */
  ghost predicate IsFileReport(found: seq<Violation>, path: Path, complaint: (Path, string) -> bool) {
    && (forall v <- found :: v.path == path.text && complaint(path, v.message))
    && (forall message | complaint(path, message) :: Reports(found, path, message))
  }

  /** `violations` holds exactly the complaints about the files walked so far. */
  ghost predicate IsReport(violations: seq<Violation>, walked: set<Path>, complaint: (Path, string) -> bool) {
    && (forall v <- violations :: Path(v.path) in walked && complaint(Path(v.path), v.message))
    && (forall path <- walked, message | complaint(path, message) :: Reports(violations, path, message))
  }

  lemma ReportNext(
      violations: seq<Violation>, walked: set<Path>, found: seq<Violation>, path: Path,
      complaint: (Path, string) -> bool)
    requires IsReport(violations, walked, complaint)
    requires IsFileReport(found, path, complaint)
    ensures IsReport(violations + found, walked + {path}, complaint)
  {
    var longer := violations + found;
    forall p <- walked + {path}, message | complaint(p, message) ensures Reports(longer, p, message) {
      if p == path {
        assert Reports(found, path, message);
      } else {
        assert Reports(violations, p, message);
      }
    }
    forall v <- longer ensures Path(v.path) in walked + {path} && complaint(Path(v.path), v.message) {
      if v !in violations {
        assert v in found;
        assert Path(v.path) == path;
      }
    }
  }

  ghost function StagedComplaints(prod: Tree, staging: Tree, opt: ValidateOptions): (Path, string) -> bool {
    (path: Path, message: string) => path in staging && StagedComplaint(prod, staging[path], opt, path, message)
  }

  ghost function LossComplaints(prod: Tree, staging: Tree, opt: ValidateOptions): (Path, string) -> bool {
    (path: Path, message: string) => path in prod && LossComplaint(prod, staging, opt, path, message)
  }

  class WikiValidator {
    const maxDiffBytes: int

    /** A budget that is not positive means the default of one megabyte. */
    constructor (maxDiffBytes: int)
      ensures this.maxDiffBytes == if maxDiffBytes <= 0 then DEFAULT_MAX_DIFF_BYTES else maxDiffBytes
      ensures this.maxDiffBytes > 0
    {
      this.maxDiffBytes := if maxDiffBytes <= 0 then DEFAULT_MAX_DIFF_BYTES else maxDiffBytes;
    }

    /** The visit of one staged file. */
    method CheckStaged(prod: Tree, staging: Tree, opt: ValidateOptions, path: Path)
      returns (found: seq<Violation>, diff: nat)
      requires path in staging
      ensures diff == DiffOf(prod, staging[path], opt, path)
      ensures IsFileReport(found, path, StagedComplaints(prod, staging, opt))
    {
      found, diff := [], 0;
      if InMeta(path) {
        return;
      }
      var data := staging[path];
      if opt.allowPairedArchiveMove && IsArchivePath(path) {
        var activeRel := Former(path);
        if activeRel in prod && prod[activeRel] == data {
          if path !in prod {
            diff := ByteLen(data);
          }
          return;
        }
      }
      if !IsMarkdown(path) {
        found := [Violation(path.text, NON_MARKDOWN)];
        assert Reports(found, path, NON_MARKDOWN);
        return;
      }
      if !IsValidWikiPath(path) {
        found := found + [Violation(path.text, BAD_PATH)];
      }
      ghost var first := found;
      if !IsStructuralWikiIndex(path) && !HasFrontmatter(data) {
        found := found + [Violation(path.text, NO_FRONTMATTER)];
        assert Reports(found, path, NO_FRONTMATTER);
      }
      assert !IsValidWikiPath(path) ==> Reports(first, path, BAD_PATH) && Reports(found, path, BAD_PATH);
      if path in prod {
        diff := Abs(ByteLen(data) - ByteLen(prod[path]));
      } else {
        diff := ByteLen(data);
      }
    }

    /** The visit of one file of production. */
    method CheckProduction(prod: Tree, staging: Tree, opt: ValidateOptions, path: Path)
      returns (found: seq<Violation>)
      requires path in prod
      ensures IsFileReport(found, path, LossComplaints(prod, staging, opt))
    {
      found := [];
      if !IsMarkdown(path) {
        return;
      }
      if IsArchivePath(path) {
        if path !in staging {
          found := [Violation(path.text, ARCHIVE_DELETED)];
          assert Reports(found, path, ARCHIVE_DELETED);
        }
        return;
      }
      if path !in staging {
        if opt.allowPairedArchiveMove && Archived(path) in staging && staging[Archived(path)] == prod[path] {
          return;
        }
        found := [Violation(path.text, PAGE_DELETED)];
        assert Reports(found, path, PAGE_DELETED);
      }
    }

    method WalkStaging(prod: Tree, staging: Tree, opt: ValidateOptions)
      returns (violations: seq<Violation>, totalDiffBytes: nat)
      ensures IsReport(violations, staging.Keys, StagedComplaints(prod, staging, opt))
      ensures totalDiffBytes == DiffBytes(prod, staging, opt)
    {
      violations, totalDiffBytes := [], 0;
      var left := staging.Keys;
      ghost var walked: set<Path> := {};
      ghost var diffs := DiffFunction(prod, staging, opt);
      while left != {}
        invariant left + walked == staging.Keys && left !! walked
        invariant IsReport(violations, walked, StagedComplaints(prod, staging, opt))
        invariant totalDiffBytes == Total(walked, diffs)
      {
        var path :| path in left;
        var found, diff := CheckStaged(prod, staging, opt, path);
        ReportNext(violations, walked, found, path, StagedComplaints(prod, staging, opt));
        TotalWith(walked, diffs, path);
        violations, totalDiffBytes := violations + found, totalDiffBytes + diff;
        left, walked := left - {path}, walked + {path};
      }
    }

    method WalkProduction(prod: Tree, staging: Tree, opt: ValidateOptions) returns (violations: seq<Violation>)
      ensures IsReport(violations, prod.Keys, LossComplaints(prod, staging, opt))
    {
      violations := [];
      var left := prod.Keys;
      ghost var walked: set<Path> := {};
      while left != {}
        invariant left + walked == prod.Keys && left !! walked
        invariant IsReport(violations, walked, LossComplaints(prod, staging, opt))
      {
        var path :| path in left;
        var found := CheckProduction(prod, staging, opt, path);
        ReportNext(violations, walked, found, path, LossComplaints(prod, staging, opt));
        violations := violations + found;
        left, walked := left - {path}, walked + {path};
      }
    }

    /** The turn is let through exactly when what it staged is acceptable; otherwise every complaint is
        reported, and nothing else is. */
    method Validate(prod: Option<Tree>, staging: Option<Tree>, opt: ValidateOptions)
      returns (violations: seq<Violation>)
      ensures violations == [] <==> Acceptable(prod, staging, opt, maxDiffBytes)
      ensures staging.Some? ==> exists staged, budget, lost ::
        && violations == staged + budget + lost
        && IsReport(staged, staging.value.Keys, StagedComplaints(Files(prod), staging.value, opt))
        && budget == (var total := DiffBytes(Files(prod), staging.value, opt);
                      if total > maxDiffBytes then [Violation("", BudgetMessage(total, maxDiffBytes))] else [])
        && if opt.allowDelete then lost == []
           else IsReport(lost, Files(prod).Keys, LossComplaints(Files(prod), staging.value, opt))
    {
      if staging.None? {
        return [];
      }
      var tree, live := staging.value, Files(prod);
      var staged, totalDiffBytes := WalkStaging(live, tree, opt);
      violations := staged;
      var budget := [];
      if totalDiffBytes > maxDiffBytes {
        budget := [Violation("", BudgetMessage(totalDiffBytes, maxDiffBytes))];
      }
      violations := violations + budget;
      var lost := [];
      if !opt.allowDelete && prod.Some? {
        lost := WalkProduction(live, tree, opt);
      }
      violations := violations + lost;
      NothingStagedWrong(live, tree, opt, staged);
      if !opt.allowDelete {
        NothingLost(live, tree, opt, lost);
      }
    }
  }

  lemma NothingStagedWrong(prod: Tree, staging: Tree, opt: ValidateOptions, violations: seq<Violation>)
    requires IsReport(violations, staging.Keys, StagedComplaints(prod, staging, opt))
    ensures violations == [] <==> AllFilesAllowed(prod, staging, opt)
  {
    if violations != [] {
      var v := violations[0];
      assert v in violations;
      assert !FileAllowed(prod, staging[Path(v.path)], opt, Path(v.path));
    } else {
      forall path <- staging ensures FileAllowed(prod, staging[path], opt, path) {
        assert !Reports(violations, path, NON_MARKDOWN) && !Reports(violations, path, BAD_PATH)
            && !Reports(violations, path, NO_FRONTMATTER);
        assert forall message :: !StagedComplaints(prod, staging, opt)(path, message);
      }
    }
  }

  lemma NothingLost(prod: Tree, staging: Tree, opt: ValidateOptions, violations: seq<Violation>)
    requires IsReport(violations, prod.Keys, LossComplaints(prod, staging, opt))
    ensures violations == [] <==> AllPagesKept(prod, staging, opt)
  {
    if violations != [] {
      var v := violations[0];
      assert v in violations;
      assert !PageKept(prod, staging, opt, Path(v.path));
    } else {
      forall path <- prod ensures PageKept(prod, staging, opt, path) {
        var message := if IsArchivePath(path) then ARCHIVE_DELETED else PAGE_DELETED;
        assert !Reports(violations, path, message);
        assert !LossComplaints(prod, staging, opt)(path, message);
      }
    }
  }
}
