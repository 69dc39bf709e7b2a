/** How the coordinator splits a failed batch (`internal/agent/coordinator.go`). */
module Splitting {
  import opened Text
  import opened Paths
  import opened Batching
  import opened Verdicts
  import opened Turns

  const MAX_DEPTH := 2
  const SMALLEST_SPLIT := 6

  /** Set membership by content: the cleaned paths that the violations name. */
  function ViolationPaths(violations: seq<Violation>): seq<string> {
    if violations == [] then []
    else
      var last := violations[|violations| - 1];
      ViolationPaths(violations[..|violations| - 1]) + if last.path != "" then [Clean(last.path)] else []
  }

  /** Whether the event's own verdict says it was integrated into a page that a violation names. */
  predicate IsSuspect(event: PendingEvent, ids: seq<string>, summary: string, paths: seq<string>) {
    var verdict := ResultFor(event.id, ids, summary, "");
    verdict.status == Integrated && exists page <- verdict.pages :: Clean(page) in paths
  }

  function SuspectTest(ids: seq<string>, summary: string, paths: seq<string>): PendingEvent -> bool {
    (event: PendingEvent) => IsSuspect(event, ids, summary, paths)
  }

  function Keep<T>(items: seq<T>, test: T -> bool): seq<T> {
    if items == [] then []
    else Keep(items[..|items| - 1], test) + if test(items[|items| - 1]) then [items[|items| - 1]] else []
  }

  function Drop<T>(items: seq<T>, test: T -> bool): seq<T> {
    if items == [] then []
    else Drop(items[..|items| - 1], test) + if test(items[|items| - 1]) then [] else [items[|items| - 1]]
  }

  function Pair(clean: seq<PendingEvent>, suspect: seq<PendingEvent>, depth: nat, digest: Digest): seq<Batch> {
    [BatchOf(clean, depth, digest), BatchOf(suspect, depth, digest)]
  }

  /** The events the violations do not implicate, then those they do, each in batch order. */
  function PathSplit(batch: Batch, violations: seq<Violation>, summary: string, digest: Digest): seq<Batch> {
    var paths := ViolationPaths(violations);
    var test := SuspectTest(Ids(batch.events), summary, paths);
    SplitBy(batch, test, digest)
  }

  function SplitBy(batch: Batch, test: PendingEvent -> bool, digest: Digest): seq<Batch> {
    var clean, suspect := Drop(batch.events, test), Keep(batch.events, test);
    if clean == [] || suspect == [] then [] else Pair(clean, suspect, batch.depth + 1, digest)
  }

  function Bisection(batch: Batch, digest: Digest): seq<Batch> {
    if |batch.events| < 2 then []
    else
      var middle := |batch.events| / 2;
      Pair(batch.events[..middle], batch.events[middle..], batch.depth + 1, digest)
  }

  /** What `classifyAndSplit` retries in place of the batch; nothing when the batch is done with. */
  function Retries(batch: Batch, result: BatchResult, digest: Digest): seq<Batch> {
    if batch.depth >= MAX_DEPTH || |batch.events| < SMALLEST_SPLIT then []
    else if result.violations != [] && PathSplit(batch, result.violations, result.summary, digest) != [] then
      PathSplit(batch, result.violations, result.summary, digest)
    else Bisection(batch, digest)
  }

  // ---------------------------------------------------------------- the code

  method SplitByViolationPaths(batch: Batch, violations: seq<Violation>, summary: string, digest: Digest)
    returns (split: seq<Batch>)
    ensures split == PathSplit(batch, violations, summary, digest)
  {
    var paths: seq<string> := [];
    for index := 0 to |violations|
      invariant paths == ViolationPaths(violations[..index])
    {
      assert violations[..index + 1][..index] == violations[..index];
      if violations[index].path != "" {
        paths := paths + [Clean(violations[index].path)];
      }
    }
    assert violations[..|violations|] == violations;
    if |paths| == 0 {
      NothingKept(batch.events, SuspectTest(Ids(batch.events), summary, paths));
      return [];
    }
    split := PartitionBatch(batch, SuspectTest(Ids(batch.events), summary, paths), digest);
  }

  /** The second half of `splitByViolationPaths`, for any test of what is suspect. */
  method PartitionBatch(batch: Batch, isSuspect: PendingEvent -> bool, digest: Digest) returns (split: seq<Batch>)
    ensures split == SplitBy(batch, isSuspect, digest)
  {
    var clean: seq<PendingEvent>, suspect: seq<PendingEvent> := [], [];
    for index := 0 to |batch.events|
      invariant clean == Drop(batch.events[..index], isSuspect)
      invariant suspect == Keep(batch.events[..index], isSuspect)
    {
      assert batch.events[..index + 1][..index] == batch.events[..index];
      if isSuspect(batch.events[index]) {
        suspect := suspect + [batch.events[index]];
      } else {
        clean := clean + [batch.events[index]];
      }
    }
    assert batch.events[..|batch.events|] == batch.events;
    if |clean| == 0 || |suspect| == 0 {
      return [];
    }
    var first := MakeBatch(clean, batch.depth + 1, digest);
    var second := MakeBatch(suspect, batch.depth + 1, digest);
    split := [first, second];
  }

  lemma {:induction false} NothingKept<T>(items: seq<T>, test: T -> bool)
    requires forall item <- items :: !test(item)
    ensures Keep(items, test) == []
  {
    if items != [] {
      NothingKept(items[..|items| - 1], test);
    }
  }

  method ClassifyAndSplit(batch: Batch, result: BatchResult, digest: Digest) returns (retries: seq<Batch>)
    ensures retries == Retries(batch, result, digest)
  {
    if batch.depth >= 2 || |batch.events| <= 5 {
      return [];
    }
    if |result.violations| > 0 {
      var split := SplitByViolationPaths(batch, result.violations, result.summary, digest);
      if |split| > 0 {
        return split;
      }
    }
    retries := BlindBisect(batch, digest);
  }

  method BlindBisect(batch: Batch, digest: Digest) returns (halves: seq<Batch>)
    ensures halves == Bisection(batch, digest)
  {
    if |batch.events| < 2 {
      return [];
    }
    var middle := |batch.events| / 2;
    var first := MakeBatch(batch.events[..middle], batch.depth + 1, digest);
    var second := MakeBatch(batch.events[middle..], batch.depth + 1, digest);
    halves := [first, second];
  }

  // ---------------------------------------------------------------- what a split keeps

  lemma {:induction false} KeepAndDrop<T>(items: seq<T>, test: T -> bool)
    ensures multiset(Drop(items, test)) + multiset(Keep(items, test)) == multiset(items)
  {
    if items != [] {
      var before, last := items[..|items| - 1], items[|items| - 1];
      KeepAndDrop(before, test);
      assert items == before + [last];
    }
  }

  /** Two batches one level deeper, neither empty, that share out exactly these events. */
  ghost predicate ShareOut(retries: seq<Batch>, events: seq<PendingEvent>, depth: nat) {
    && |retries| == 2
    && retries[0].depth == depth + 1 && retries[1].depth == depth + 1
    && retries[0].events != [] && retries[1].events != []
    && multiset(retries[0].events) + multiset(retries[1].events) == multiset(events)
  }

  lemma SplitByShares(batch: Batch, test: PendingEvent -> bool, digest: Digest)
    requires SplitBy(batch, test, digest) != []
    ensures ShareOut(SplitBy(batch, test, digest), batch.events, batch.depth)
  {
    KeepAndDrop(batch.events, test);
  }

  /** Bisection shares out too, and neither half has more than half the events, rounded up. */
  lemma BisectionHalves(batch: Batch, digest: Digest)
    requires |batch.events| >= 2
    ensures
      var halves := Bisection(batch, digest);
      && ShareOut(halves, batch.events, batch.depth)
      && |halves[0].events| <= (|batch.events| + 1) / 2 && |halves[1].events| <= (|batch.events| + 1) / 2
  {
    var middle := |batch.events| / 2;
    assert batch.events == batch.events[..middle] + batch.events[middle..];
  }

  /** Whichever way a failed batch is split, the retries share out exactly its events, one level deeper. */
  lemma RetriesShareOut(batch: Batch, result: BatchResult, digest: Digest)
    ensures
      var retries := Retries(batch, result, digest);
      retries != [] ==> batch.depth < MAX_DEPTH && ShareOut(retries, batch.events, batch.depth)
  {
    var split := PathSplit(batch, result.violations, result.summary, digest);
    if batch.depth < MAX_DEPTH && |batch.events| >= SMALLEST_SPLIT {
      BisectionHalves(batch, digest);
      var paths := ViolationPaths(result.violations);
      if split != [] {
        SplitByShares(batch, SuspectTest(Ids(batch.events), result.summary, paths), digest);
      }
    }
  }

  /** Either part of what is shared out is strictly smaller than the whole. */
  lemma SharedSizes(retries: seq<Batch>, events: seq<PendingEvent>, depth: nat)
    requires ShareOut(retries, events, depth)
    ensures |retries[0].events| + |retries[1].events| == |events|
    ensures |retries[0].events| < |events| && |retries[1].events| < |events|
  {
    assert |multiset(retries[0].events) + multiset(retries[1].events)| == |multiset(events)|;
  }
}
