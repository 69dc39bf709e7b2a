/** The wiki mutex over whole runs (`internal/agent/backend_acp.go`, `internal/agent/coordinator.go`,
    `internal/api/handler.go`): batch turns with their cancellable wait, compile and recall turns, and the
    recovery at start-up, in any interleaving. */
module WikiLock {
  import opened Verdicts
  import opened Wiki

  datatype Kind = Batch | Compile | Recall | Recovery

  /** Where a turn is. A batch turn waits through a helper that takes the mutex for it: `Granted` when the
      helper has it and the turn has not noticed; `Detached` when the turn gave up first and the helper is
      left behind, `DetachedHolding` once that helper has the mutex. `stamp` counts the writes to the
      wiki that the copied tree has seen. */
  datatype Phase =
    | Waiting
    | Granted
    | Detached
    | DetachedHolding
    | Working
    | Copied(base: Option<Tree>, stamp: nat)
    | Landed
    | Finished

  datatype Turn = Turn(kind: Kind, phase: Phase, locks: nat, unlocks: nat)

  /** A write to the production wiki: a merge of what was staged from `base`, or an index rebuild. */
  datatype Write =
    | Merge(turn: nat, base: Option<Tree>, stamp: nat, replaced: Option<Tree>, result: Option<Tree>)
    | Rebuild(turn: nat, replaced: Option<Tree>, result: Option<Tree>)

  /** `fault` is set when an unlocked mutex is unlocked. */
  datatype State = State(turns: seq<Turn>, locked: bool, fault: bool, wiki: Option<Tree>, writes: seq<Write>)

  datatype Move =
    | Arrive(kind: Kind)
    | Lock(i: nat)
    | Wake(i: nat)
    | Cancel(i: nat)
    | Copy(i: nat)
    | Swap(i: nat, result: Option<Tree>)
    | RebuildIndex(i: nat, result: Option<Tree>)
    | Unlock(i: nat)

  predicate Holding(p: Phase) {
    p.Granted? || p.DetachedHolding? || p.Working? || p.Copied? || p.Landed?
  }

  /** The moves of the code, in its order: a turn copies before it merges, only batch and compile turns
      merge, only a batch turn that merged and the recovery rebuild the index. */
  predicate Enabled(s: State, m: Move) {
    m.Arrive? ||
    (m.i < |s.turns| &&
     var turn := s.turns[m.i];
     match m
     case Lock(_) => !s.locked && (turn.phase.Waiting? || turn.phase.Detached?)
     case Wake(_) => turn.phase.Granted?
     case Cancel(_) => turn.kind.Batch? && (turn.phase.Waiting? || turn.phase.Granted?)
     case Copy(_) => turn.phase.Working? && !turn.kind.Recovery?
     case Swap(_, _) => turn.phase.Copied? && (turn.kind.Batch? || turn.kind.Compile?)
     case RebuildIndex(_, _) =>
       (turn.kind.Batch? && turn.phase.Landed?) || (turn.kind.Recovery? && turn.phase.Working?)
     case Unlock(_) => turn.phase.DetachedHolding? || turn.phase.Working? || turn.phase.Copied? || turn.phase.Landed?)
  }

  /** The phase of the moving turn afterwards. */
  function NextPhase(s: State, turn: Turn, m: Move): Phase {
    match m
    case Arrive(_) => turn.phase
    case Lock(_) =>
      if turn.phase.Detached? then DetachedHolding else if turn.kind.Batch? then Granted else Working
    case Wake(_) => Working
    case Cancel(_) => if turn.phase.Waiting? then Detached else DetachedHolding
    case Copy(_) => Copied(s.wiki, |s.writes|)
    case Swap(_, _) => Landed
    case RebuildIndex(_, _) => turn.phase
    case Unlock(_) => Finished
  }

  function Moved(s: State, turn: Turn, m: Move): Turn {
    Turn(turn.kind, NextPhase(s, turn, m),
         turn.locks + if m.Lock? then 1 else 0, turn.unlocks + if m.Unlock? then 1 else 0)
  }

  function After(s: State, m: Move): State
    requires Enabled(s, m)
  {
    if m.Arrive? then s.(turns := s.turns + [Turn(m.kind, Waiting, 0, 0)])
    else
      var turn := s.turns[m.i];
      var next := s.(turns := s.turns[m.i := Moved(s, turn, m)]);
      match m
      case Lock(_) => next.(locked := true)
      case Unlock(_) => next.(locked := false, fault := s.fault || !s.locked)
      case Swap(i, result) =>
        next.(wiki := result, writes := s.writes + [Merge(i, turn.phase.base, turn.phase.stamp, s.wiki, result)])
      case RebuildIndex(i, result) => next.(wiki := result, writes := s.writes + [Rebuild(i, s.wiki, result)])
      case _ => next
  }

  /** The states of a run, first to last: each follows from the one before by a move. */
  ghost predicate IsRun(states: seq<State>, moves: seq<Move>) {
    && |states| == |moves| + 1
    && states[0].turns == [] && states[0].writes == [] && !states[0].locked && !states[0].fault
    && forall k :: 0 <= k < |moves| ==> Enabled(states[k], moves[k]) && states[k + 1] == After(states[k], moves[k])
  }

  // ---------------------------------------------------------------- the invariant

  ghost predicate Balanced(turn: Turn) {
    && turn.locks == turn.unlocks + (if Holding(turn.phase) then 1 else 0)
    && turn.locks == if turn.phase.Waiting? || turn.phase.Detached? then 0 else 1
  }

  /** A turn that has copied the wiki has the tree that is there, and no write came since. */
  ghost predicate UpToDate(s: State, turn: Turn) {
    turn.phase.Copied? ==> turn.phase.base == s.wiki && turn.phase.stamp == |s.writes|
  }

  ghost predicate CleanMerge(writes: seq<Write>, k: nat)
    requires k < |writes|
  {
    writes[k].Merge? ==> writes[k].base == writes[k].replaced && writes[k].stamp == k
  }

  ghost predicate Held(s: State) {
    exists i :: 0 <= i < |s.turns| && Holding(s.turns[i].phase)
  }

  ghost predicate Inv(s: State) {
    && !s.fault
    && (forall i :: 0 <= i < |s.turns| ==> Balanced(s.turns[i]) && UpToDate(s, s.turns[i]))
    && (forall i, j :: 0 <= i < j < |s.turns| ==> !(Holding(s.turns[i].phase) && Holding(s.turns[j].phase)))
    && (s.locked <==> Held(s))
    && (forall k :: 0 <= k < |s.writes| ==> CleanMerge(s.writes, k))
  }

  /** Only the holder writes, so the copies of all other turns are not affected: there are none. */
  lemma WritesAreClean(s: State, m: Move)
    requires Inv(s) && Enabled(s, m) && (m.Swap? || m.RebuildIndex?)
    ensures Inv(After(s, m))
  {
    var next := After(s, m);
    forall i | 0 <= i < |next.turns| ensures Balanced(next.turns[i]) && UpToDate(next, next.turns[i]) {
      assert Balanced(s.turns[i]) && UpToDate(s, s.turns[i]);
      if i != m.i {
        assert !Holding(s.turns[i].phase);
      }
    }
    forall k | 0 <= k < |next.writes| ensures CleanMerge(next.writes, k) {
      if k < |s.writes| {
        assert CleanMerge(s.writes, k);
      } else {
        assert UpToDate(s, s.turns[m.i]);
      }
    }
    assert Holding(next.turns[m.i].phase);
  }

  /** The mutex is locked exactly while some turn holds it. */
  lemma LockIsHeld(s: State, m: Move)
    requires Inv(s) && Enabled(s, m)
    ensures After(s, m).locked <==> Held(After(s, m))
  {
    var next := After(s, m);
    if m.Arrive? {
      assert forall i :: 0 <= i < |s.turns| ==> next.turns[i] == s.turns[i];
      if s.locked {
        var i :| 0 <= i < |s.turns| && Holding(s.turns[i].phase);
        assert Holding(next.turns[i].phase);
      }
    } else if Holding(next.turns[m.i].phase) {
    } else if Holding(s.turns[m.i].phase) {
      assert m.Unlock?;
    } else {
      assert m.Cancel?;
      if s.locked {
        var i :| 0 <= i < |s.turns| && Holding(s.turns[i].phase);
        assert Holding(next.turns[i].phase);
      }
    }
  }

  lemma MoveKeepsInv(s: State, m: Move)
    requires Inv(s) && Enabled(s, m)
    ensures Inv(After(s, m))
  {
    var next := After(s, m);
    LockIsHeld(s, m);
    if m.Swap? || m.RebuildIndex? {
      WritesAreClean(s, m);
    } else if m.Arrive? {
      assert forall i :: 0 <= i < |s.turns| ==> next.turns[i] == s.turns[i];
    } else {
      assert Balanced(s.turns[m.i]) && UpToDate(s, s.turns[m.i]);
    }
  }

  lemma {:induction false} InvAlways(states: seq<State>, moves: seq<Move>, k: nat)
    requires IsRun(states, moves) && k < |states|
    ensures Inv(states[k])
  {
    if k > 0 {
      InvAlways(states, moves, k - 1);
      assert Enabled(states[k - 1], moves[k - 1]) && states[k - 1 + 1] == After(states[k - 1], moves[k - 1]);
      MoveKeepsInv(states[k - 1], moves[k - 1]);
    }
  }

  // ---------------------------------------------------------------- the results

  /** In every run: the mutex is never unlocked while free; at most one turn holds it; a turn that is over
      locked it once and unlocked it once; a batch turn that gave up waiting is over only after its helper
      got the mutex and gave it back; and each merge replaced exactly the tree that its staging was copied
      from, with no write to the wiki between the copy and the merge. */
  lemma SerialisedSwaps(states: seq<State>, moves: seq<Move>)
    requires IsRun(states, moves)
    ensures
      var last := states[|states| - 1];
      && !last.fault
      && (forall i, j :: 0 <= i < j < |last.turns| ==> !(Holding(last.turns[i].phase) && Holding(last.turns[j].phase)))
      && (forall i :: 0 <= i < |last.turns| ==>
           && last.turns[i].unlocks <= last.turns[i].locks <= 1
           && (last.turns[i].phase.Finished? ==> last.turns[i].locks == last.turns[i].unlocks == 1))
      && (forall k :: 0 <= k < |last.writes| && last.writes[k].Merge? ==>
           last.writes[k].base == last.writes[k].replaced && last.writes[k].stamp == k)
  {
    InvAlways(states, moves, |states| - 1);
    var last := states[|states| - 1];
    forall i | 0 <= i < |last.turns|
      ensures last.turns[i].unlocks <= last.turns[i].locks <= 1
      ensures last.turns[i].phase.Finished? ==> last.turns[i].locks == last.turns[i].unlocks == 1
    {
      assert Balanced(last.turns[i]);
    }
    forall k | 0 <= k < |last.writes| && last.writes[k].Merge?
      ensures last.writes[k].base == last.writes[k].replaced && last.writes[k].stamp == k
    {
      assert CleanMerge(last.writes, k);
    }
  }

  /** The result of each write is what the next one replaced: the history of the wiki has no forks. */
  ghost predicate Linked(s: State) {
    && (forall k :: 0 < k < |s.writes| ==> s.writes[k].replaced == s.writes[k - 1].result)
    && (s.writes != [] ==> s.wiki == s.writes[|s.writes| - 1].result)
  }

  lemma {:induction false} LinkedAlways(states: seq<State>, moves: seq<Move>, k: nat)
    requires IsRun(states, moves) && k < |states|
    ensures Linked(states[k])
  {
    if k > 0 {
      LinkedAlways(states, moves, k - 1);
      var before, m := states[k - 1], moves[k - 1];
      assert Enabled(before, m) && states[k - 1 + 1] == After(before, m);
    }
  }

  /** So the tree that a merge builds on is the result of the write before it, whichever turn made it. */
  lemma MergeBuildsOnLastWrite(states: seq<State>, moves: seq<Move>, k: nat)
    requires IsRun(states, moves)
    requires
      var writes := states[|states| - 1].writes;
      0 < k < |writes| && writes[k].Merge?
    ensures
      var writes := states[|states| - 1].writes;
      writes[k].base == writes[k - 1].result
  {
    SerialisedSwaps(states, moves);
    LinkedAlways(states, moves, |states| - 1);
  }

  /** Nothing gets stuck: while some turn is not over, some turn can go on. */
  lemma NoDeadlock(states: seq<State>, moves: seq<Move>, i: nat) returns (m: Move)
    requires IsRun(states, moves)
    requires
      var last := states[|states| - 1];
      i < |last.turns| && !last.turns[i].phase.Finished?
    ensures !m.Arrive? && !m.Cancel? && Enabled(states[|states| - 1], m)
  {
    InvAlways(states, moves, |states| - 1);
    var last := states[|states| - 1];
    if last.locked {
      var h :| 0 <= h < |last.turns| && Holding(last.turns[h].phase);
      m := if last.turns[h].phase.Granted? then Wake(h) else Unlock(h);
    } else {
      assert !Held(last) && !Holding(last.turns[i].phase);
      m := Lock(i);
    }
  }
}
