/** The batch former of `internal/agent/batch.go`. */
module Batching {
  import opened Text
  import opened Ordering
  import opened Packing

  datatype PendingEvent = PendingEvent(id: string, text: string, context: map<string, string>, createdAt: int)

  datatype BatchLimits = BatchLimits(maxEvents: int, maxTokens: int, maxBytes: int) {
    predicate Positive() {
      maxEvents > 0 && maxTokens > 0 && maxBytes > 0
    }
  }

  datatype Batch = Batch(id: string, events: seq<PendingEvent>, tokenEst: nat, byteSize: nat, depth: nat)

  /** The hexadecimal digest that names a batch: any function of the joined ids. */
  type Digest = string -> string

  // ---------------------------------------------------------------- sizes

  /** The least key, which Go finds by sorting the keys. */
  ghost predicate IsLeastKey(key: string, keys: set<string>) {
    key in keys && forall k :: k in keys ==> StringLe(key, k)
  }

  lemma {:induction false} LeastKeyExists(keys: set<string>) returns (key: string)
    requires keys != {}
    ensures IsLeastKey(key, keys)
  {
    key :| key in keys;
    StringOrder();
    if keys != {key} {
      var other := LeastKeyExists(keys - {key});
      if StringLe(other, key) { key := other; }
    }
  }

  function LeastKey(keys: set<string>): (key: string)
    requires keys != {}
    ensures IsLeastKey(key, keys)
  {
    assert exists k :: k in keys && forall j :: j in keys ==> StringLe(k, j) by {
      var k := LeastKeyExists(keys);
      assert k in keys && forall j :: j in keys ==> StringLe(k, j);
    }
    StringOrder();
    var key :| key in keys && forall k :: k in keys ==> StringLe(key, k);
    key
  }

  function ContextParts(context: map<string, string>): seq<string>
    decreases |context|
  {
    if context.Keys == {} then []
    else
      var key := LeastKey(context.Keys);
      assert (context - {key}).Keys == context.Keys - {key};
      assert |(context - {key}).Keys| < |context.Keys|;
      [key + "=" + context[key]] + ContextParts(context - {key})
  }

  function SerializeContext(context: map<string, string>): string {
    if context.Keys == {} then "none" else Join(ContextParts(context), "; ")
  }

  function EventByteSize(event: PendingEvent): nat {
    ByteLen(event.text) + ByteLen(SerializeContext(event.context))
  }

  function Bytes(events: seq<PendingEvent>): nat {
    if events == [] then 0 else Bytes(events[..|events| - 1]) + EventByteSize(events[|events| - 1])
  }

  function Tokens(events: seq<PendingEvent>): nat {
    if events == [] then 0 else Tokens(events[..|events| - 1]) + EventByteSize(events[|events| - 1]) / 4
  }

  lemma {:induction false} SizesAdd(a: seq<PendingEvent>, b: seq<PendingEvent>)
    ensures Bytes(a + b) == Bytes(a) + Bytes(b)
    ensures Tokens(a + b) == Tokens(a) + Tokens(b)
  {
    if b == [] {
      assert a + b == a;
    } else {
      assert (a + b)[..|a + b| - 1] == a + b[..|b| - 1];
      SizesAdd(a, b[..|b| - 1]);
    }
  }

  lemma SizesOfNext(events: seq<PendingEvent>, index: nat)
    requires index < |events|
    ensures Bytes(events[..index + 1]) == Bytes(events[..index]) + EventByteSize(events[index])
    ensures Tokens(events[..index + 1]) == Tokens(events[..index]) + EventByteSize(events[index]) / 4
    ensures Ids(events[..index + 1]) == Ids(events[..index]) + [events[index].id]
  {
    assert events[..index + 1][..index] == events[..index];
  }

  // ---------------------------------------------------------------- one batch

  function Ids(events: seq<PendingEvent>): seq<string> {
    if events == [] then [] else Ids(events[..|events| - 1]) + [events[|events| - 1].id]
  }

  function BatchId(ids: seq<string>, digest: Digest): string {
    digest(Join(Sort(ids, StringLe), ","))
  }

  /** The batch that holds the given events: sizes recomputed, named by its ids alone. */
  function BatchOf(events: seq<PendingEvent>, depth: nat, digest: Digest): Batch {
    Batch(BatchId(Ids(events), digest), events, Tokens(events), Bytes(events), depth)
  }

  method MakeBatch(events: seq<PendingEvent>, depth: nat, digest: Digest) returns (batch: Batch)
    ensures batch == BatchOf(events, depth, digest)
  {
    var ids: seq<string> := [];
    var byteSize, tokenEstimate := 0, 0;
    for index := 0 to |events|
      invariant ids == Ids(events[..index])
      invariant byteSize == Bytes(events[..index]) && tokenEstimate == Tokens(events[..index])
    {
      SizesOfNext(events, index);
      ids := ids + [events[index].id];
      var eventBytes := EventByteSize(events[index]);
      byteSize := byteSize + eventBytes;
      tokenEstimate := tokenEstimate + eventBytes / 4;
    }
    assert events[..|events|] == events;
    batch := Batch(BatchId(ids, digest), events, tokenEstimate, byteSize, depth);
  }

  /** A batch id depends on which ids are in it, not on their order, depth or sizes. */
  lemma BatchIdOfSet(a: seq<PendingEvent>, b: seq<PendingEvent>, depthA: nat, depthB: nat, digest: Digest)
    requires multiset(Ids(a)) == multiset(Ids(b))
    ensures BatchOf(a, depthA, digest).id == BatchOf(b, depthB, digest).id
  {
    StringOrder();
    SortSorts(Ids(a), StringLe);
    SortSorts(Ids(b), StringLe);
    SortedUnique(Sort(Ids(a), StringLe), Sort(Ids(b), StringLe), StringLe);
  }

  // ---------------------------------------------------------------- forming batches

  /** Older events first, ties by id. */
  predicate EventLe(a: PendingEvent, b: PendingEvent) {
    a.createdAt < b.createdAt || (a.createdAt == b.createdAt && StringLe(a.id, b.id))
  }

  lemma EventOrder()
    ensures TotalPreorder(EventLe)
  {
    StringOrder();
  }

  function SortEvents(events: seq<PendingEvent>): seq<PendingEvent> {
    Sort(events, EventLe)
  }

  predicate Fits(events: seq<PendingEvent>, limits: BatchLimits) {
    |events| <= limits.maxEvents && Bytes(events) <= limits.maxBytes && Tokens(events) <= limits.maxTokens
  }

  function FitTest(limits: BatchLimits): seq<PendingEvent> -> bool {
    (events: seq<PendingEvent>) => Fits(events, limits)
  }

  function BatchesOf(groups: seq<seq<PendingEvent>>, digest: Digest): seq<Batch> {
    if groups == [] then [] else [BatchOf(groups[0], 0, digest)] + BatchesOf(groups[1..], digest)
  }

  lemma BatchesOfFirst(group: seq<PendingEvent>, groups: seq<seq<PendingEvent>>, digest: Digest)
    ensures BatchesOf([group] + groups, digest) == [BatchOf(group, 0, digest)] + BatchesOf(groups, digest)
  {
    assert ([group] + groups)[1..] == groups;
  }

  /** What the loop has still to add when the open batch runs from `start` to `index`. */
  function BatchesFrom(ordered: seq<PendingEvent>, start: nat, index: nat, limits: BatchLimits,
      digest: Digest): seq<Batch>
    requires start <= index <= |ordered|
    decreases |ordered| - index
  {
    if index == |ordered| then [BatchOf(ordered[start..], 0, digest)]
    else if start < index && !FitsBetween(ordered, start, index + 1, limits) then
      [BatchOf(ordered[start..index], 0, digest)] + BatchesFrom(ordered, index, index + 1, limits, digest)
    else BatchesFrom(ordered, start, index + 1, limits, digest)
  }

  predicate FitsBetween(ordered: seq<PendingEvent>, start: nat, end: nat, limits: BatchLimits)
    requires start <= end <= |ordered|
  {
    && end - start <= limits.maxEvents
    && BytesUpTo(ordered, end) - BytesUpTo(ordered, start) <= limits.maxBytes
    && TokensUpTo(ordered, end) - TokensUpTo(ordered, start) <= limits.maxTokens
  }

  function BytesUpTo(events: seq<PendingEvent>, end: nat): nat
    requires end <= |events|
  {
    if end == 0 then 0 else BytesUpTo(events, end - 1) + EventByteSize(events[end - 1])
  }

  function TokensUpTo(events: seq<PendingEvent>, end: nat): nat
    requires end <= |events|
  {
    if end == 0 then 0 else TokensUpTo(events, end - 1) + EventByteSize(events[end - 1]) / 4
  }

  lemma {:induction false} UpToIsTotal(ordered: seq<PendingEvent>, end: nat)
    requires end <= |ordered|
    ensures BytesUpTo(ordered, end) == Bytes(ordered[..end]) && TokensUpTo(ordered, end) == Tokens(ordered[..end])
  {
    if end > 0 {
      UpToIsTotal(ordered, end - 1);
      SizesOfNext(ordered, end - 1);
    }
  }

  lemma FitsBetweenIsFits(ordered: seq<PendingEvent>, start: nat, end: nat, limits: BatchLimits)
    requires start <= end <= |ordered|
    ensures FitsBetween(ordered, start, end, limits) <==> Fits(ordered[start..end], limits)
  {
    var before, between := ordered[..start], ordered[start..end];
    UpToIsTotal(ordered, start);
    UpToIsTotal(ordered, end);
    assert before + between == ordered[..end];
    SizesAdd(before, between);
    assert BytesUpTo(ordered, end) - BytesUpTo(ordered, start) == Bytes(between);
    assert TokensUpTo(ordered, end) - TokensUpTo(ordered, start) == Tokens(between);
  }

  lemma {:induction false} BatchesFromIsGroups(
      ordered: seq<PendingEvent>, start: nat, index: nat, limits: BatchLimits, digest: Digest,
      fitsBetween: (nat, nat) -> bool)
    requires start <= index <= |ordered|
    requires forall i, j :: 0 <= i <= j <= |ordered| ==> fitsBetween(i, j) == FitsBetween(ordered, i, j, limits)
    ensures BatchesFrom(ordered, start, index, limits, digest) ==
      BatchesOf(GroupsFrom(ordered, start, index, fitsBetween), digest)
    decreases |ordered| - index
  {
    if index == |ordered| {
      BatchesOfFirst(ordered[start..], [], digest);
    } else if start < index && !fitsBetween(start, index + 1) {
      BatchesFromIsGroups(ordered, index, index + 1, limits, digest, fitsBetween);
      BatchesOfFirst(ordered[start..index], GroupsFrom(ordered, index, index + 1, fitsBetween), digest);
    } else {
      BatchesFromIsGroups(ordered, start, index + 1, limits, digest, fitsBetween);
    }
  }

  /** The loop, which works by positions and running sums, packs greedily. */
  lemma LoopPacks(ordered: seq<PendingEvent>, limits: BatchLimits, digest: Digest)
    requires ordered != []
    ensures BatchesFrom(ordered, 0, 0, limits, digest) == BatchesOf(Groups(ordered, FitTest(limits)), digest)
  {
    var fitsBetween := (i: nat, j: nat) => i <= j <= |ordered| && Fits(ordered[i..j], limits);
    forall i, j | 0 <= i <= j <= |ordered|
      ensures fitsBetween(i, j) == FitsBetween(ordered, i, j, limits)
    {
      FitsBetweenIsFits(ordered, i, j, limits);
    }
    BatchesFromIsGroups(ordered, 0, 0, limits, digest, fitsBetween);
    GroupsFromIsPack(ordered, 0, 1, FitTest(limits), fitsBetween);
    assert ordered[0..1] == [ordered[0]];
  }

  /** `FormBatches` panics unless every limit is positive. */
  method FormBatches(events: seq<PendingEvent>, limits: BatchLimits, digest: Digest) returns (batches: seq<Batch>)
    requires limits.Positive()
    ensures batches == BatchesOf(Groups(SortEvents(events), FitTest(limits)), digest)
  {
    if events == [] {
      return [];
    }
    var ordered := SortEvents(events);
    batches := CutBatches(ordered, limits, digest);
    if ordered != [] {
      LoopPacks(ordered, limits, digest);
    }
  }

  /** One round of the loop: what is cut off now and what is cut later are the batches of the whole. */
  lemma CutRound(
      ordered: seq<PendingEvent>, start: nat, index: nat, limits: BatchLimits, digest: Digest, batches: seq<Batch>)
    requires start <= index < |ordered|
    ensures
      if start < index && !FitsBetween(ordered, start, index + 1, limits) then
        batches + BatchesFrom(ordered, start, index, limits, digest) ==
          batches + [BatchOf(ordered[start..index], 0, digest)] + BatchesFrom(ordered, index, index + 1, limits, digest)
      else
        batches + BatchesFrom(ordered, start, index, limits, digest) ==
          batches + BatchesFrom(ordered, start, index + 1, limits, digest)
  {
  }

  /** The running sums tell whether the open batch still fits. */
  lemma FitsBySums(ordered: seq<PendingEvent>, start: nat, index: nat, limits: BatchLimits)
    requires start <= index < |ordered|
    ensures FitsBetween(ordered, start, index + 1, limits) <==>
      && index - start + 1 <= limits.maxEvents
      && BytesUpTo(ordered, index) - BytesUpTo(ordered, start) + EventByteSize(ordered[index]) <= limits.maxBytes
      && TokensUpTo(ordered, index) - TokensUpTo(ordered, start) + EventByteSize(ordered[index]) / 4 <= limits.maxTokens
  {
  }

  /** The loop of `FormBatches`, over the sorted events. */
  method CutBatches(ordered: seq<PendingEvent>, limits: BatchLimits, digest: Digest) returns (batches: seq<Batch>)
    ensures batches == BatchesFrom(ordered, 0, 0, limits, digest)
  {
    batches := [];
    var start, byteSize, tokenEstimate := 0, 0, 0;
    for index := 0 to |ordered|
      invariant start <= index && (start == index ==> index == 0)
      invariant byteSize == BytesUpTo(ordered, index) - BytesUpTo(ordered, start)
      invariant tokenEstimate == TokensUpTo(ordered, index) - TokensUpTo(ordered, start)
      invariant BatchesFrom(ordered, 0, 0, limits, digest) ==
        batches + BatchesFrom(ordered, start, index, limits, digest)
    {
      FitsBySums(ordered, start, index, limits);
      CutRound(ordered, start, index, limits, digest, batches);
      var eventBytes := EventByteSize(ordered[index]);
      var eventTokens := eventBytes / 4;
      var currentCount := index - start;
      if currentCount > 0
         && (currentCount + 1 > limits.maxEvents
             || byteSize + eventBytes > limits.maxBytes
             || tokenEstimate + eventTokens > limits.maxTokens) {
        var batch := MakeBatch(ordered[start..index], 0, digest);
        batches := batches + [batch];
        start, byteSize, tokenEstimate := index, 0, 0;
      }
      byteSize := byteSize + eventBytes;
      tokenEstimate := tokenEstimate + eventTokens;
    }
    var batch := MakeBatch(ordered[start..], 0, digest);
    batches := batches + [batch];
  }

  // ---------------------------------------------------------------- what the batches are

  lemma FitsIsSublistClosed(limits: BatchLimits)
    ensures SublistClosed(FitTest(limits))
  {
    forall a, b, c | FitTest(limits)(a + b + c) ensures FitTest(limits)(b) {
      SizesAdd(a + b, c);
      SizesAdd(a, b);
    }
  }

  /** Every event is in one batch, in time order; a batch of two or more events meets all three caps;
      and no way of cutting that order into such batches (or oversize singletons) uses fewer. */
  lemma BatchesAreOptimal(events: seq<PendingEvent>, limits: BatchLimits, parts: seq<seq<PendingEvent>>)
    requires Concat(parts) == SortEvents(events)
    requires forall p <- parts :: |p| <= 1 || Fits(p, limits)
    ensures
      var groups := Groups(SortEvents(events), FitTest(limits));
      && Concat(groups) == SortEvents(events)
      && (forall g <- groups :: |g| == 1 || (|g| > 1 && Fits(g, limits)))
      && |groups| <= |parts|
  {
    FitsIsSublistClosed(limits);
    GroupsPartition(SortEvents(events), FitTest(limits));
    GreedyIsOptimal(SortEvents(events), parts, FitTest(limits));
  }

  /** When id and time tell events apart, the batches do not depend on the order of the input. */
  lemma OrderBlind(a: seq<PendingEvent>, b: seq<PendingEvent>, limits: BatchLimits, digest: Digest)
    requires multiset(a) == multiset(b)
    requires forall x, y :: x in a && y in a && x.id == y.id && x.createdAt == y.createdAt ==> x == y
    ensures BatchesOf(Groups(SortEvents(a), FitTest(limits)), digest) ==
      BatchesOf(Groups(SortEvents(b), FitTest(limits)), digest)
  {
    EventOrder();
    SortSorts(a, EventLe);
    SortSorts(b, EventLe);
    forall x, y | x in SortEvents(a) && y in SortEvents(a) && EventLe(x, y) && EventLe(y, x)
      ensures x == y
    {
      assert x in multiset(SortEvents(a)) && y in multiset(SortEvents(a));
      StringLeTotal(x.id, y.id);
    }
    SortedUnique(SortEvents(a), SortEvents(b), EventLe);
  }
}
