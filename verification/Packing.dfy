/** Greedy packing in order, for any notion of what fits in one group. */
module Packing {
  function Concat<T>(parts: seq<seq<T>>): seq<T> {
    if parts == [] then [] else parts[0] + Concat(parts[1..])
  }

  /** The groups made of `rest` when the items `open` already share the first one. */
  function Pack<T>(open: seq<T>, rest: seq<T>, fits: seq<T> -> bool): seq<seq<T>>
    decreases |rest|
  {
    if rest == [] then [open]
    else if fits(open + [rest[0]]) then Pack(open + [rest[0]], rest[1..], fits)
    else [open] + Pack([rest[0]], rest[1..], fits)
  }

  function Groups<T>(items: seq<T>, fits: seq<T> -> bool): seq<seq<T>> {
    if items == [] then [] else Pack([items[0]], items[1..], fits)
  }

  /** What may be one group: something that fits, or a single item of any size. */
  predicate Admissible<T>(group: seq<T>, fits: seq<T> -> bool) {
    |group| <= 1 || fits(group)
  }

  /** A stretch of something that fits also fits. */
  ghost predicate SublistClosed<T(!new)>(fits: seq<T> -> bool) {
    forall a, b, c :: fits(a + b + c) ==> fits(b)
  }

  lemma {:induction false} PackPartitions<T>(open: seq<T>, rest: seq<T>, fits: seq<T> -> bool)
    requires open != [] && Admissible(open, fits)
    ensures Concat(Pack(open, rest, fits)) == open + rest
    ensures forall g <- Pack(open, rest, fits) :: g != [] && Admissible(g, fits)
    decreases |rest|
  {
    if rest == [] {
      assert Pack(open, rest, fits) == [open];
      assert Concat([open]) == open + [];
    } else {
      var x, more := rest[0], rest[1..];
      assert rest == [x] + more;
      if fits(open + [x]) {
        PackPartitions(open + [x], more, fits);
        assert open + [x] + more == open + rest;
      } else {
        PackPartitions([x], more, fits);
        var tail := Pack([x], more, fits);
        assert ([open] + tail)[1..] == tail;
      }
    }
  }

  /** Nothing is lost, added or reordered, and every group of two or more items fits. */
  lemma GroupsPartition<T>(items: seq<T>, fits: seq<T> -> bool)
    ensures Concat(Groups(items, fits)) == items
    ensures forall g <- Groups(items, fits) :: g != [] && Admissible(g, fits)
  {
    if items != [] {
      PackPartitions([items[0]], items[1..], fits);
    }
  }

  lemma LongPartFits<T(!new)>(p: seq<T>, skipped: seq<T>, open: seq<T>, rest: seq<T>, fits: seq<T> -> bool)
    requires rest != [] && |skipped + open| < |p| && p <= skipped + open + rest && fits(p) && SublistClosed(fits)
    ensures fits(open + [rest[0]])
  {
    var n := |skipped + open| + 1;
    assert p == skipped + (open + [rest[0]]) + p[n..];
  }

  /** Greedy stays ahead: any other cut, even one that began earlier, has at least as many parts left. */
  lemma {:induction false} GreedyStaysAhead<T(!new)>(
      skipped: seq<T>, open: seq<T>, rest: seq<T>, parts: seq<seq<T>>, fits: seq<T> -> bool)
    requires open != [] && Concat(parts) == skipped + open + rest
    requires SublistClosed(fits) && forall p <- parts :: Admissible(p, fits)
    ensures |Pack(open, rest, fits)| <= |parts|
    decreases |rest|
  {
    if rest == [] {
    } else if fits(open + [rest[0]]) {
      GreedyStaysAhead(skipped, open + [rest[0]], rest[1..], parts, fits);
    } else {
      var p, before := parts[0], skipped + open;
      assert p in parts && p <= skipped + open + rest;
      if |p| > |before| {
        LongPartFits(p, skipped, open, rest, fits);
        assert false;
      }
      assert Concat(parts[1..]) == (before + rest)[|p|..] == before[|p|..] + [rest[0]] + rest[1..];
      GreedyStaysAhead(before[|p|..], [rest[0]], rest[1..], parts[1..], fits);
    }
  }

  /** No way of cutting the same items, in order, into admissible groups uses fewer of them. */
  lemma GreedyIsOptimal<T(!new)>(items: seq<T>, parts: seq<seq<T>>, fits: seq<T> -> bool)
    requires Concat(parts) == items
    requires SublistClosed(fits) && forall p <- parts :: Admissible(p, fits)
    ensures |Groups(items, fits)| <= |parts|
  {
    if items != [] {
      assert [] + [items[0]] + items[1..] == items;
      GreedyStaysAhead([], [items[0]], items[1..], parts, fits);
    }
  }

  /** The same packing by positions: the groups still to come when the open one runs from `start` to `index`. */
  function GroupsFrom<T>(items: seq<T>, start: nat, index: nat, fitsBetween: (nat, nat) -> bool): seq<seq<T>>
    requires start <= index <= |items|
    decreases |items| - index
  {
    if index == |items| then [items[start..]]
    else if start < index && !fitsBetween(start, index + 1) then
      [items[start..index]] + GroupsFrom(items, index, index + 1, fitsBetween)
    else GroupsFrom(items, start, index + 1, fitsBetween)
  }

  /** Packing by positions cuts where packing by contents does. */
  lemma {:induction false} GroupsFromIsPack<T>(
      items: seq<T>, start: nat, index: nat, fits: seq<T> -> bool, fitsBetween: (nat, nat) -> bool)
    requires start < index <= |items|
    requires forall i, j :: 0 <= i <= j <= |items| ==> fitsBetween(i, j) == fits(items[i..j])
    ensures GroupsFrom(items, start, index, fitsBetween) == Pack(items[start..index], items[index..], fits)
    decreases |items| - index
  {
    var open, rest := items[start..index], items[index..];
    if index == |items| {
      assert open == items[start..];
    } else {
      assert rest[1..] == items[index + 1..];
      assert open + [rest[0]] == items[start..index + 1];
      if fitsBetween(start, index + 1) {
        GroupsFromIsPack(items, start, index + 1, fits, fitsBetween);
      } else {
        GroupsFromIsPack(items, index, index + 1, fits, fitsBetween);
        assert [rest[0]] == items[index..index + 1];
      }
    }
  }
}
