/** One compile request (`internal/agent/backend_acp_compile.go`, `internal/api/handler.go`): the receipt is
    judged before the merge, and the cursor is written only after it. */
module CompileTurn {
  import opened Verdicts
  import opened Wiki
  import opened Validator
  import W = WikiRuns
  import opened Commits
  import opened EventLog
  import opened Compile

  const INTERNAL_SERVER_ERROR := 500
  const OK := 200

  /** The turn yields a cursor exactly when it merged. One that breaks before the commit, whose staging the
      gate rejects, or whose receipt is not accepted, leaves every directory as it was; the cursor never
      leaves the window of the turn. */
  method RunCompile(
      store: ProductionStore, broken: bool, staging: Option<Tree>, receipt: seq<ReceiptLine>, turnId: string,
      cursor: nat, eventBound: nat, io: MergeIo)
    returns (newCursor: Option<nat>)
    requires store.Valid()
    modifies store
    ensures store.Valid()
    ensures broken ==> newCursor == None && store.OnDisk() == old(store.OnDisk()) && store.passed == old(store.passed)
    ensures newCursor.Some? ==>
      && Acceptable(old(store.wiki), staging, W.OptionsOf(W.CompileTurn), store.validator.maxDiffBytes)
      && store.wiki == W.Merged(old(store.wiki), staging)
      && Verdict(receipt, turnId, cursor, eventBound) == Accepted(newCursor.value)
      && newCursor.value <= eventBound && (cursor <= eventBound ==> cursor <= newCursor.value)
    ensures
      (|| !Acceptable(old(store.wiki), staging, W.OptionsOf(W.CompileTurn), store.validator.maxDiffBytes)
       || !Verdict(receipt, turnId, cursor, eventBound).Accepted?) ==>
        newCursor == None && store.OnDisk() == old(store.OnDisk()) && store.passed == old(store.passed)
    ensures
      (&& Acceptable(old(store.wiki), staging, W.OptionsOf(W.CompileTurn), store.validator.maxDiffBytes)
       && Verdict(receipt, turnId, cursor, eventBound).Accepted? && Succeeds(io) && !broken) ==>
        newCursor.Some?
  {
    if broken {
      return None;
    }
    var verdict := ValidateCompileReceipt(receipt, turnId, cursor, eventBound);
    var outcome := store.CommitStagingTurn(staging, W.OptionsOf(W.CompileTurn), verdict.Accepted?, false, io);
    newCursor := if outcome == MergedTurn then Some(verdict.newCursor) else None;
  }

  /** The cursor file is written only by a turn that yielded a larger cursor than it held. */
  method HandleCompile(
      events: FS, store: ProductionStore, broken: bool, staging: Option<Tree>, receipt: seq<ReceiptLine>,
      turnId: string, eventBound: nat, io: MergeIo, cursorIo: CursorIo)
    returns (status: nat)
    requires store.Valid()
    modifies events`cursorFile, store
    ensures store.Valid()
    ensures broken ==> status == INTERNAL_SERVER_ERROR
    ensures status == INTERNAL_SERVER_ERROR ==> events.cursorFile == old(events.cursorFile)
    ensures status == OK ==>
      var cursor := old(CursorIn(events.cursorFile));
      var verdict := Verdict(receipt, turnId, cursor, eventBound);
      && verdict.Accepted? && store.wiki == W.Merged(old(store.wiki), staging)
      && events.cursorFile ==
           if verdict.newCursor > cursor then CursorWritten(old(events.cursorFile), verdict.newCursor, cursorIo)
           else old(events.cursorFile)
    ensures status == OK || status == INTERNAL_SERVER_ERROR
  {
    var cursor := events.GetCompileCursor();
    var newCursor := RunCompile(store, broken, staging, receipt, turnId, cursor, eventBound, io);
    if newCursor.None? {
      return INTERNAL_SERVER_ERROR;
    }
    if newCursor.value > cursor {
      var _ := events.SetCompileCursor(newCursor.value, cursorIo);
    }
    return OK;
  }
}
