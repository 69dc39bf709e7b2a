/** Committing a turn (`internal/agent/backend_acp.go`): validate, run the pre-merge hook, swap the trees. */
module Commits {
  import opened Verdicts
  import opened Turns
  import opened Wiki
  import opened Validator
  import opened WikiRuns

  /** The directories next to each other in the data directory: `wiki`, `wiki.merging`, `wiki.backup`. */
  datatype Disk = Disk(wiki: Option<Tree>, merging: Option<Tree>, backup: Option<Tree>)

  /** A recursive removal or copy: whether it succeeds, the contents of the directory at the points where
      the process could die, and what is left when it fails. */
  datatype TreeIo = TreeIo(ok: bool, midway: seq<Option<Tree>>, left: Option<Tree>)

  /** What the file system does with each call of one merge. */
  datatype MergeIo = MergeIo(
    cleanTemp: TreeIo, copy: TreeIo, dropTemp: TreeIo, cleanBackup: TreeIo, statWiki: bool,
    renameToBackup: bool, renameToWiki: bool, restore: bool, dropBackup: TreeIo)

  datatype MergeOutcome = NothingToMerge | Swapped | MergeFailed

  predicate EmptyOrMissing(tree: Option<Tree>) {
    tree.None? || tree.value == map[]
  }

  /** One thing the file system does at once. A directory is not renamed onto one that has files. */
  predicate FileSystemStep(a: Disk, b: Disk) {
    || (b.wiki == a.wiki && b.backup == a.backup)
    || (b.wiki == a.wiki && b.merging == a.merging)
    || (a.wiki.Some? && EmptyOrMissing(a.backup) && b == Disk(None, a.merging, a.wiki))
    || (a.merging.Some? && EmptyOrMissing(a.wiki) && b == Disk(a.merging, None, a.backup))
    || (a.backup.Some? && EmptyOrMissing(a.wiki) && b == Disk(a.backup, a.merging, None))
  }

  /** Production is the complete old tree, or the complete new one, or it is absent and the complete old
      tree is in the backup. */
  predicate Safe(d: Disk, before: Option<Tree>, staging: Tree) {
    d.wiki == before || d.wiki == Some(staging) || (before.Some? && d.wiki.None? && d.backup == before)
  }

  /** How a committed turn ends. */
  datatype TurnOutcome =
    | Rejected(violations: seq<Violation>)
    | HookFailed
    | NotMerged
    | MergeError
    | MergedTurn

  predicate Succeeds(io: MergeIo) {
    io.cleanTemp.ok && io.copy.ok && io.cleanBackup.ok && io.statWiki && io.renameToBackup && io.renameToWiki
  }

  class ProductionStore {
    var wiki: Option<Tree>
    var merging: Option<Tree>
    var backup: Option<Tree>
    const validator: WikiValidator
    /** Every state the directories went through. */
    ghost var passed: seq<Disk>

    ghost function OnDisk(): Disk
      reads this
    {
      Disk(wiki, merging, backup)
    }

    ghost predicate Valid()
      reads this
    {
      passed != [] && passed[|passed| - 1] == OnDisk()
    }

    constructor (wiki: Option<Tree>, merging: Option<Tree>, backup: Option<Tree>, validator: WikiValidator)
      ensures Valid() && OnDisk() == Disk(wiki, merging, backup) && this.validator == validator
    {
      this.wiki, this.merging, this.backup, this.validator := wiki, merging, backup, validator;
      passed := [Disk(wiki, merging, backup)];
    }

    /** Since state `start` every state was safe and reached by one step of the file system. */
    ghost predicate SafeSince(start: nat, before: Option<Tree>, staging: Tree)
      reads this
    {
      && Valid() && start < |passed|
      && (forall i :: start <= i < |passed| ==> Safe(passed[i], before, staging))
      && (forall i :: start <= i < |passed| - 1 ==> FileSystemStep(passed[i], passed[i + 1]))
    }

    method Place(next: Disk, ghost start: nat, ghost before: Option<Tree>, ghost staging: Tree)
      requires SafeSince(start, before, staging)
      requires FileSystemStep(OnDisk(), next) && Safe(next, before, staging)
      modifies this
      ensures SafeSince(start, before, staging) && OnDisk() == next && old(passed) <= passed
    {
      wiki, merging, backup := next.wiki, next.merging, next.backup;
      passed := passed + [next];
    }

    method ChangeTemp(io: TreeIo, result: Option<Tree>, ghost start: nat, ghost before: Option<Tree>,
        ghost staging: Tree)
      requires SafeSince(start, before, staging)
      modifies this
      ensures SafeSince(start, before, staging) && old(passed) <= passed
      ensures OnDisk() == old(OnDisk()).(merging := if io.ok then result else io.left)
    {
      for i := 0 to |io.midway|
        invariant SafeSince(start, before, staging) && old(passed) <= passed
        invariant wiki == old(wiki) && backup == old(backup)
      {
        Place(Disk(wiki, io.midway[i], backup), start, before, staging);
      }
      Place(Disk(wiki, if io.ok then result else io.left, backup), start, before, staging);
    }

    method RemoveBackup(io: TreeIo, ghost start: nat, ghost before: Option<Tree>, ghost staging: Tree)
      requires SafeSince(start, before, staging) && (wiki == before || wiki == Some(staging))
      modifies this
      ensures SafeSince(start, before, staging) && old(passed) <= passed
      ensures OnDisk() == old(OnDisk()).(backup := if io.ok then None else io.left)
    {
      for i := 0 to |io.midway|
        invariant SafeSince(start, before, staging) && old(passed) <= passed
        invariant wiki == old(wiki) && merging == old(merging)
      {
        Place(Disk(wiki, merging, io.midway[i]), start, before, staging);
      }
      Place(Disk(wiki, merging, if io.ok then None else io.left), start, before, staging);
    }

    /** However the calls go, and wherever the process dies, no state on the way loses the wiki. */
    method MergeWiki(staging: Option<Tree>, io: MergeIo) returns (outcome: MergeOutcome)
      requires Valid()
      modifies this
      ensures Valid() && old(passed) <= passed
      ensures staging.Some? ==> SafeSince(|old(passed)| - 1, old(wiki), staging.value)
      ensures outcome == NothingToMerge <==> staging.None?
      ensures staging.None? ==> passed == old(passed) && OnDisk() == old(OnDisk())
      ensures outcome == Swapped ==> staging.Some? && wiki == staging
      ensures outcome == MergeFailed ==>
        wiki == old(wiki) || (old(wiki).Some? && wiki.None? && backup == old(wiki) && !io.restore)
      ensures staging.Some? && Succeeds(io) ==> outcome == Swapped
    {
      if staging.None? {
        return NothingToMerge;
      }
      ghost var start, before, tree := |passed| - 1, wiki, staging.value;
      ChangeTemp(io.cleanTemp, None, start, before, tree);
      if !io.cleanTemp.ok {
        return MergeFailed;
      }
      ChangeTemp(io.copy, staging, start, before, tree);
      if !io.copy.ok {
        ChangeTemp(io.dropTemp, None, start, before, tree);
        return MergeFailed;
      }
      RemoveBackup(io.cleanBackup, start, before, tree);
      var hadProd := false;
      if wiki.Some? && io.statWiki {
        if !io.renameToBackup || !EmptyOrMissing(backup) {
          ChangeTemp(io.dropTemp, None, start, before, tree);
          return MergeFailed;
        }
        Place(Disk(None, merging, wiki), start, before, tree);
        hadProd := true;
      }
      if !io.renameToWiki || !EmptyOrMissing(wiki) {
        if hadProd && io.restore {
          Place(Disk(backup, merging, None), start, before, tree);
        }
        return MergeFailed;
      }
      Place(Disk(merging, None, backup), start, before, tree);
      if hadProd {
        RemoveBackup(io.dropBackup, start, before, tree);
      }
      return Swapped;
    }

    /** Validation first, then the hook, then the merge: a turn that any of the first two stops, or that is
        not meant to merge, leaves every directory as it was, and a merged turn is one the gate accepted. */
    method CommitStagingTurn(
        staging: Option<Tree>, opt: ValidateOptions, preMergeOk: bool, skipMerge: bool, io: MergeIo)
      returns (outcome: TurnOutcome)
      requires Valid()
      modifies this
      ensures Valid() && old(passed) <= passed
      ensures outcome.Rejected? <==> !Acceptable(old(wiki), staging, opt, validator.maxDiffBytes)
      ensures outcome.Rejected? ==> outcome.violations != []
      ensures outcome == HookFailed <==> !outcome.Rejected? && !preMergeOk
      ensures outcome == NotMerged <==> !outcome.Rejected? && preMergeOk && skipMerge
      ensures outcome.Rejected? || outcome == HookFailed || outcome == NotMerged ==>
        passed == old(passed) && OnDisk() == old(OnDisk())
      ensures outcome == MergedTurn ==> wiki == Merged(old(wiki), staging)
      ensures outcome == MergeError ==>
        wiki == old(wiki) || (old(wiki).Some? && wiki.None? && backup == old(wiki))
      ensures staging.Some? && passed != old(passed) ==> SafeSince(|old(passed)| - 1, old(wiki), staging.value)
      ensures
        (&& Acceptable(old(wiki), staging, opt, validator.maxDiffBytes) && preMergeOk && !skipMerge
         && Succeeds(io)) ==>
          outcome == MergedTurn
    {
      var violations := validator.Validate(wiki, staging, opt);
      if |violations| > 0 {
        return Rejected(violations);
      }
      if !preMergeOk {
        return HookFailed;
      }
      if skipMerge {
        return NotMerged;
      }
      var merged := MergeWiki(staging, io);
      outcome := if merged == MergeFailed then MergeError else MergedTurn;
    }

    /** The rebuild of the index pages: five writes, of which all but the last may fail unnoticed. At every
        point on the way only structural index pages differ. */
    method RebuildIndex(texts: seq<Option<string>>, rootWritten: bool) returns (ok: bool)
      requires Valid() && |texts| == INDEX_PAGES
      modifies this
      ensures Valid() && wiki == RebuiltWiki(old(wiki), texts) && old(passed) <= passed
      ensures merging == old(merging) && backup == old(backup)
      ensures ok == rootWritten
      ensures IndexesRewritten(Files(old(wiki)), Files(wiki))
      ensures forall i :: |old(passed)| <= i < |passed| ==> IndexesRewritten(Files(old(wiki)), Files(passed[i].wiki))
    {
      ghost var before := wiki;
      for i := 0 to INDEX_PAGES
        invariant Valid() && wiki == RebuiltWiki(before, texts[..i]) && old(passed) <= passed
        invariant merging == old(merging) && backup == old(backup)
        invariant forall j :: |old(passed)| <= j < |passed| ==> IndexesRewritten(Files(before), Files(passed[j].wiki))
      {
        assert texts[..i + 1][..i] == texts[..i];
        if wiki.Some? && texts[i].Some? {
          wiki := Some(wiki.value[IndexPage(i) := texts[i].value]);
        }
        RebuildTouchesIndexes(before, texts[..i + 1]);
        passed := passed + [Disk(wiki, merging, backup)];
      }
      assert texts[..INDEX_PAGES] == texts;
      RebuildTouchesIndexes(before, texts);
      ok := rootWritten;
    }
  }
}
