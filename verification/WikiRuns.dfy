/** Whole runs of committed turns and index rebuilds on the production wiki. */
module WikiRuns {
  import opened Text
  import opened Verdicts
  import opened Wiki
  import opened Sums
  import opened Validator
  import opened ValidatorLaws

  /** The options of the turns that merge: ingest, and compile with its paired archive moves. */
  datatype TurnKind = BatchTurn | CompileTurn

  function OptionsOf(kind: TurnKind): ValidateOptions {
    ValidateOptions(false, kind.CompileTurn?)
  }

  // ---------------------------------------------------------------- the index rebuild

  const INDEX_PAGES := 5

  /** The pages that the rebuild writes, in its order. */
  function IndexPage(i: nat): Path {
    if i == 0 then Path("semantic/index.md")
    else if i == 1 then Path("episodic/index.md")
    else if i == 2 then Path("procedural/index.md")
    else if i == 3 then Path("prospective/index.md")
    else Path("index.md")
  }

  /** A tree after the first writes of a rebuild: each leaves some text, or leaves its page alone. */
  function RebuiltTree(tree: Tree, texts: seq<Option<string>>): Tree {
    if texts == [] then tree
    else
      var n := |texts| - 1;
      var before := RebuiltTree(tree, texts[..n]);
      if texts[n].None? then before else before[IndexPage(n) := texts[n].value]
  }

  /** Without a wiki directory no write succeeds. */
  function RebuiltWiki(wiki: Option<Tree>, texts: seq<Option<string>>): Option<Tree> {
    if wiki.None? then None else Some(RebuiltTree(wiki.value, texts))
  }

  /** Only structural index pages differ, and none of them is gone. */
  ghost predicate IndexesRewritten(before: Tree, after: Tree) {
    forall path: Path ::
      && (path in before ==> path in after)
      && (!IsStructuralWikiIndex(path) && path in after ==> path in before && after[path] == before[path])
  }

  /** However far a rebuild got and whatever it wrote, it touched the structural index pages alone. */
  lemma {:induction false} RebuildTouchesIndexes(wiki: Option<Tree>, texts: seq<Option<string>>)
    ensures IndexesRewritten(Files(wiki), Files(RebuiltWiki(wiki, texts)))
  {
    if wiki.Some? && texts != [] {
      RebuildTouchesIndexes(wiki, texts[..|texts| - 1]);
      assert IsStructuralWikiIndex(IndexPage(|texts| - 1));
    }
  }

  // ---------------------------------------------------------------- runs

  /** What happens to the production wiki: a turn whose staging was let through and merged, or a rebuild
      of the index pages as far as it got. */
  datatype Change = Committed(kind: TurnKind, staging: Option<Tree>) | Rebuilt(texts: seq<Option<string>>)

  function Merged(before: Option<Tree>, staging: Option<Tree>): Option<Tree> {
    if staging.None? then before else staging
  }

  function After(before: Option<Tree>, change: Change): Option<Tree> {
    match change
    case Committed(_, staging) => Merged(before, staging)
    case Rebuilt(texts) => RebuiltWiki(before, texts)
  }

  ghost predicate Allowed(before: Option<Tree>, change: Change, maxDiffBytes: nat) {
    match change
    case Committed(kind, staging) => Acceptable(before, staging, OptionsOf(kind), maxDiffBytes)
    case Rebuilt(texts) => |texts| <= INDEX_PAGES
  }

  /** The wiki after the changes, from the first on. */
  function WikiAfter(wiki: Option<Tree>, changes: seq<Change>): Option<Tree> {
    if changes == [] then wiki
    else After(WikiAfter(wiki, changes[..|changes| - 1]), changes[|changes| - 1])
  }

  ghost predicate AllAllowed(wiki: Option<Tree>, changes: seq<Change>, maxDiffBytes: nat) {
    changes == []
    || (&& AllAllowed(wiki, changes[..|changes| - 1], maxDiffBytes)
        && Allowed(WikiAfter(wiki, changes[..|changes| - 1]), changes[|changes| - 1], maxDiffBytes))
  }

  /** The page is there under its own path or under the archive. */
  predicate NamePresent(tree: Tree, path: Path) {
    path in tree || Archived(path) in tree
  }

  // ---------------------------------------------------------------- no page is ever lost

  lemma ChangeKeepsPages(before: Option<Tree>, change: Change, maxDiffBytes: nat, path: Path)
    requires Allowed(before, change, maxDiffBytes) && IsMarkdown(path)
    ensures
      var tree, next := Files(before), Files(After(before, change));
      && (path in tree && IsArchivePath(path) ==> path in next)
      && (NamePresent(tree, path) ==> NamePresent(next, path))
      && (path in tree && path !in next ==> Archived(path) in next && next[Archived(path)] == tree[path])
  {
    if change.Rebuilt? {
      RebuildTouchesIndexes(before, change.texts);
    } else if change.staging.Some? {
      var tree, next := Files(before), change.staging.value;
      if path in tree && path !in next {
        NothingDestroyed(before, next, OptionsOf(change.kind), maxDiffBytes, path);
      } else if path !in tree && Archived(path) in tree {
        MarkdownArchived(path);
        FormerOfArchived(path);
        assert PageKept(tree, next, OptionsOf(change.kind), Archived(path));
      }
    }
  }

  /** Over any run, the names of pages present as themselves or in the archive only grow, and an archived
      page stays. */
  lemma {:induction false} NoPageIsLost(wiki: Option<Tree>, changes: seq<Change>, maxDiffBytes: nat, i: nat, path: Path)
    requires AllAllowed(wiki, changes, maxDiffBytes) && i <= |changes| && IsMarkdown(path)
    ensures
      var earlier, last := Files(WikiAfter(wiki, changes[..i])), Files(WikiAfter(wiki, changes));
      && (NamePresent(earlier, path) ==> NamePresent(last, path))
      && (path in earlier && IsArchivePath(path) ==> path in last)
    decreases |changes|
  {
    if i == |changes| {
      assert changes[..i] == changes;
    } else {
      var before := changes[..|changes| - 1];
      assert before[..i] == changes[..i];
      NoPageIsLost(wiki, before, maxDiffBytes, i, path);
      ChangeKeepsPages(WikiAfter(wiki, before), changes[|changes| - 1], maxDiffBytes, path);
    }
  }

  /** Once a page that no rebuild writes was moved to the archive, its archived copy does not change and the
      page does not come back. */
  lemma ChangeKeepsArchived(before: Option<Tree>, change: Change, maxDiffBytes: nat, path: Path)
    requires Allowed(before, change, maxDiffBytes) && IsMarkdown(path) && !IsStructuralWikiIndex(path)
    requires path !in Files(before) && Archived(path) in Files(before)
    ensures
      var tree, next := Files(before), Files(After(before, change));
      path !in next && Archived(path) in next && next[Archived(path)] == tree[Archived(path)]
  {
    FormerOfArchived(path);
    MarkdownArchived(path);
    KindsApart(Archived(path));
    if change.Rebuilt? {
      RebuildTouchesIndexes(before, change.texts);
    } else if change.staging.Some? {
      ArchivedPageNeedsTwin(before, change.staging.value, OptionsOf(change.kind), maxDiffBytes, Archived(path));
    }
  }

  /** A page and its archived copy at one moment. */
  datatype Slot = Slot(page: Option<string>, archived: Option<string>)

  function SlotIn(tree: Tree, path: Path): Slot {
    Slot(if path in tree then Some(tree[path]) else None,
         if Archived(path) in tree then Some(tree[Archived(path)]) else None)
  }

  function SlotAfter(wiki: Option<Tree>, changes: seq<Change>, path: Path): Slot {
    SlotIn(Files(WikiAfter(wiki, changes)), path)
  }

  /** A page that goes leaves its bytes in the archive; with the page gone, neither changes again. */
  predicate SlotStep(before: Slot, after: Slot) {
    && (before.page.Some? && after.page.None? ==> after.archived == before.page)
    && (before.page.None? && before.archived.Some? ==> after == before)
  }

  lemma {:induction false} LastActiveSlot(slots: seq<Slot>, i: nat, n: nat) returns (k: nat)
    requires i < n < |slots| && slots[i].page.Some? && slots[n].page.None?
    requires forall j :: 0 < j <= n ==> SlotStep(slots[j - 1], slots[j])
    ensures i <= k < n && slots[k].page.Some? && slots[n].archived == slots[k].page
  {
    assert SlotStep(slots[n - 1], slots[n]);
    if slots[n - 1].page.Some? {
      k := n - 1;
    } else {
      k := LastActiveSlot(slots, i, n - 1);
    }
  }

  lemma ChangeIsSlotStep(before: Option<Tree>, change: Change, maxDiffBytes: nat, path: Path)
    requires Allowed(before, change, maxDiffBytes) && IsMarkdown(path) && !IsStructuralWikiIndex(path)
    ensures SlotStep(SlotIn(Files(before), path), SlotIn(Files(After(before, change)), path))
  {
    ChangeKeepsPages(before, change, maxDiffBytes, path);
    if path !in Files(before) && Archived(path) in Files(before) {
      ChangeKeepsArchived(before, change, maxDiffBytes, path);
    }
  }

  lemma {:induction false} AllowedPrefix(wiki: Option<Tree>, changes: seq<Change>, maxDiffBytes: nat, n: nat)
    requires AllAllowed(wiki, changes, maxDiffBytes) && n <= |changes|
    ensures AllAllowed(wiki, changes[..n], maxDiffBytes)
    decreases |changes|
  {
    if n == |changes| {
      assert changes[..n] == changes;
    } else {
      AllowedPrefix(wiki, changes[..|changes| - 1], maxDiffBytes, n);
      assert changes[..|changes| - 1][..n] == changes[..n];
    }
  }

  lemma RunIsSlotStep(wiki: Option<Tree>, changes: seq<Change>, maxDiffBytes: nat, n: nat, path: Path)
    requires AllAllowed(wiki, changes, maxDiffBytes) && 0 < n <= |changes|
    requires IsMarkdown(path) && !IsStructuralWikiIndex(path)
    ensures SlotStep(SlotAfter(wiki, changes[..n - 1], path), SlotAfter(wiki, changes[..n], path))
  {
    AllowedPrefix(wiki, changes, maxDiffBytes, n);
    assert changes[..n][..n - 1] == changes[..n - 1];
    ChangeIsSlotStep(WikiAfter(wiki, changes[..n - 1]), changes[n - 1], maxDiffBytes, path);
  }

  /** Over any run, a page that was active and is no longer has, in the archive, exactly the bytes it had
      when it was last active. */
  lemma MovedPageKeepsItsBytes(wiki: Option<Tree>, changes: seq<Change>, maxDiffBytes: nat, i: nat, path: Path)
      returns (k: nat)
    requires AllAllowed(wiki, changes, maxDiffBytes) && i < |changes|
    requires IsMarkdown(path) && !IsStructuralWikiIndex(path)
    requires SlotAfter(wiki, changes[..i], path).page.Some? && SlotAfter(wiki, changes, path).page.None?
    ensures i <= k < |changes| && SlotAfter(wiki, changes[..k], path).page.Some?
    ensures SlotAfter(wiki, changes, path).archived == SlotAfter(wiki, changes[..k], path).page
  {
    var slots := seq(|changes| + 1, n requires 0 <= n <= |changes| => SlotAfter(wiki, changes[..n], path));
    forall j | 0 < j <= |changes| ensures SlotStep(slots[j - 1], slots[j]) {
      RunIsSlotStep(wiki, changes, maxDiffBytes, j, path);
    }
    assert changes[..|changes|] == changes;
    k := LastActiveSlot(slots, i, |changes|);
  }

  // ---------------------------------------------------------------- after a move

  lemma {:induction false} SlotHolds(slots: seq<Slot>, i: nat, n: nat)
    requires i <= n < |slots| && slots[i].page.None? && slots[i].archived.Some?
    requires forall j :: 0 < j <= n ==> SlotStep(slots[j - 1], slots[j])
    ensures slots[n] == slots[i]
    decreases n
  {
    if i < n {
      SlotHolds(slots, i, n - 1);
      assert SlotStep(slots[n - 1], slots[n]);
    }
  }

  lemma MovedSlotHolds(wiki: Option<Tree>, changes: seq<Change>, maxDiffBytes: nat, i: nat, j: nat, path: Path)
    requires AllAllowed(wiki, changes, maxDiffBytes) && i <= j <= |changes|
    requires IsMarkdown(path) && !IsStructuralWikiIndex(path)
    requires SlotAfter(wiki, changes[..i], path).page.None? && SlotAfter(wiki, changes[..i], path).archived.Some?
    ensures SlotAfter(wiki, changes[..j], path) == SlotAfter(wiki, changes[..i], path)
  {
    var slots := seq(|changes| + 1, n requires 0 <= n <= |changes| => SlotAfter(wiki, changes[..n], path));
    forall n | 0 < n <= j ensures SlotStep(slots[n - 1], slots[n]) {
      RunIsSlotStep(wiki, changes, maxDiffBytes, n, path);
    }
    SlotHolds(slots, i, j);
  }

  lemma AllowedAt(wiki: Option<Tree>, changes: seq<Change>, maxDiffBytes: nat, j: nat)
    requires AllAllowed(wiki, changes, maxDiffBytes) && j < |changes|
    ensures Allowed(WikiAfter(wiki, changes[..j]), changes[j], maxDiffBytes)
  {
    AllowedPrefix(wiki, changes, maxDiffBytes, j + 1);
    assert changes[..j + 1][..j] == changes[..j];
  }

  /** Over any run, once a page that no rebuild writes is gone and its archived copy is there, no turn
      that stages a wiki is let through again, whatever it stages and however many rebuilds run. */
  lemma NoTurnAfterMove(wiki: Option<Tree>, changes: seq<Change>, maxDiffBytes: nat, i: nat, j: nat, path: Path)
    requires AllAllowed(wiki, changes, maxDiffBytes) && i <= j < |changes|
    requires IsMarkdown(path) && !IsStructuralWikiIndex(path)
    requires SlotAfter(wiki, changes[..i], path).page.None? && SlotAfter(wiki, changes[..i], path).archived.Some?
    requires changes[j].Committed?
    ensures changes[j].staging.None?
  {
    MovedSlotHolds(wiki, changes, maxDiffBytes, i, j, path);
    AllowedAt(wiki, changes, maxDiffBytes, j);
    if changes[j].staging.Some? {
      TwinNeeded(WikiAfter(wiki, changes[..j]), changes[j], maxDiffBytes, path);
      assert false;
    }
  }

  lemma TwinNeeded(before: Option<Tree>, change: Change, maxDiffBytes: nat, path: Path)
    requires Allowed(before, change, maxDiffBytes) && change.Committed? && change.staging.Some?
    requires IsMarkdown(path) && Archived(path) in Files(before)
    ensures path in Files(before)
  {
    FormerOfArchived(path);
    MarkdownArchived(path);
    ArchivedPageNeedsTwin(before, change.staging.value, OptionsOf(change.kind), maxDiffBytes, Archived(path));
  }

  // ---------------------------------------------------------------- index pages

  lemma ThreeChanges(wiki: Option<Tree>, a: Change, b: Change, c: Change, maxDiffBytes: nat)
    ensures WikiAfter(wiki, [a]) == After(wiki, a)
    ensures WikiAfter(wiki, [a, b, c]) == After(After(After(wiki, a), b), c)
    ensures
      (&& Allowed(wiki, a, maxDiffBytes) && Allowed(After(wiki, a), b, maxDiffBytes)
       && Allowed(After(After(wiki, a), b), c, maxDiffBytes)) ==>
        AllAllowed(wiki, [a, b, c], maxDiffBytes)
  {
    OneMore(wiki, [], a, maxDiffBytes);
    OneMore(wiki, [a], b, maxDiffBytes);
    OneMore(wiki, [a, b], c, maxDiffBytes);
    assert [] + [a] == [a] && [a] + [b] == [a, b] && [a, b] + [c] == [a, b, c];
  }

  lemma OneMore(wiki: Option<Tree>, changes: seq<Change>, change: Change, maxDiffBytes: nat)
    ensures WikiAfter(wiki, changes + [change]) == After(WikiAfter(wiki, changes), change)
    ensures AllAllowed(wiki, changes + [change], maxDiffBytes) <==>
      AllAllowed(wiki, changes, maxDiffBytes) && Allowed(WikiAfter(wiki, changes), change, maxDiffBytes)
  {
    assert (changes + [change])[..|changes|] == changes;
  }

  /** A page that the rebuild writes does come back, and with it the gate opens again: a turn moves an
      index page to the archive, a rebuild writes it anew, and the next turn is let through and overwrites
      the archived copy. */
  lemma MovedIndexComesBack(first: string, second: string, maxDiffBytes: nat)
      returns (wiki: Option<Tree>, changes: seq<Change>)
    requires first != second && ByteLen(first) <= maxDiffBytes
    ensures AllAllowed(wiki, changes, maxDiffBytes) && |changes| == 3
    ensures changes[2].Committed? && changes[2].staging.Some?
    ensures SlotAfter(wiki, changes[..1], IndexPage(0)) == Slot(None, Some(first))
    ensures SlotAfter(wiki, changes, IndexPage(0)) == Slot(Some(second), Some(second))
  {
    var page := IndexPage(0);
    FormerOfArchived(page);
    KindsApart(page);
    IndexIsMarkdown();
    wiki := Some(map[page := first]);
    var a := Committed(CompileTurn, Some(map[Archived(page) := first]));
    var b := Rebuilt([Some(second)]);
    var c := Committed(CompileTurn, Some(map[page := second, Archived(page) := second]));
    MoveIsAccepted(page, first, maxDiffBytes);
    OneWrite(map[Archived(page) := first], second);
    OverwriteIsAccepted(page, first, second, maxDiffBytes);
    ThreeChanges(wiki, a, b, c, maxDiffBytes);
    changes := [a, b, c];
    assert changes[..1] == [a];
  }

  lemma IndexIsMarkdown()
    ensures IsMarkdown(IndexPage(0)) && IsStructuralWikiIndex(IndexPage(0)) && !IsArchivePath(IndexPage(0))
  {
    KindsApart(IndexPage(0));
  }

  lemma OneWrite(tree: Tree, text: string)
    ensures RebuiltTree(tree, [Some(text)]) == tree[IndexPage(0) := text]
  {
    assert [Some(text)][..0] == [];
  }

  lemma MoveIsAccepted(page: Path, text: string, maxDiffBytes: nat)
    requires IsMarkdown(page) && !IsArchivePath(page) && ByteLen(text) <= maxDiffBytes
    ensures Acceptable(Some(map[page := text]), Some(map[Archived(page) := text]), OptionsOf(CompileTurn), maxDiffBytes)
  {
    var prod, moved, opt := map[page := text], map[Archived(page) := text], OptionsOf(CompileTurn);
    FormerOfArchived(page);
    KindsApart(Archived(page));
    assert moved.Keys == {Archived(page)};
    TotalWithout(moved.Keys, DiffFunction(prod, moved, opt), Archived(page));
    assert moved.Keys - {Archived(page)} == {};
  }

  lemma OverwriteIsAccepted(page: Path, first: string, second: string, maxDiffBytes: nat)
    requires IsMarkdown(page) && IsStructuralWikiIndex(page)
    ensures Acceptable(
      Some(map[Archived(page) := first, page := second]), Some(map[page := second, Archived(page) := second]),
      OptionsOf(CompileTurn), maxDiffBytes)
  {
    var prod, last := map[Archived(page) := first, page := second], map[page := second, Archived(page) := second];
    var zero := (path: Path) => 0;
    FormerOfArchived(page);
    KindsApart(page);
    KindsApart(Archived(page));
    TotalSame(last.Keys, DiffFunction(prod, last, OptionsOf(CompileTurn)), zero);
    TotalOfZero(last.Keys, zero);
  }

  // ---------------------------------------------------------------- growth over a run

  function Turns(changes: seq<Change>): nat {
    if changes == [] then 0
    else Turns(changes[..|changes| - 1]) + if changes[|changes| - 1].Committed? then 1 else 0
  }

  /** The pages that only turns write. */
  function Content(): Path -> bool {
    (path: Path) => IsActive(path) && !IsStructuralWikiIndex(path)
  }

  lemma ChangeGrowth(before: Option<Tree>, change: Change, maxDiffBytes: nat)
    requires Allowed(before, change, maxDiffBytes)
    ensures BytesOf(Files(After(before, change)), Content())
      <= BytesOf(Files(before), Content()) + if change.Committed? then maxDiffBytes else 0
  {
    match change
    case Committed(kind, staging) =>
      if staging.Some? {
        GrowthBound(before, staging.value, OptionsOf(kind), maxDiffBytes, Content());
      }
    case Rebuilt(texts) =>
      RebuildTouchesIndexes(before, texts);
      SameBytes(Files(before), Files(After(before, change)), Content());
  }

  lemma OneMoreTurn(n: nat, budget: nat)
    ensures (n + 1) * budget == n * budget + budget
  {
  }

  /** n turns grow the content pages by at most n times the budget, however many rebuilds run between. */
  lemma {:induction false} GrowthOverRun(wiki: Option<Tree>, changes: seq<Change>, maxDiffBytes: nat)
    requires AllAllowed(wiki, changes, maxDiffBytes)
    ensures BytesOf(Files(WikiAfter(wiki, changes)), Content())
      <= BytesOf(Files(wiki), Content()) + Turns(changes) * maxDiffBytes
  {
    if changes != [] {
      var before := changes[..|changes| - 1];
      GrowthOverRun(wiki, before, maxDiffBytes);
      ChangeGrowth(WikiAfter(wiki, before), changes[|changes| - 1], maxDiffBytes);
      OneMoreTurn(Turns(before), maxDiffBytes);
    }
  }
}
