/** The display order of the fetched zones.

    The widget places, for each name of a fixed priority list in turn, the
    first fetched zone with that name, and then appends every fetched zone it
    has not placed yet, in fetched order. "Not placed yet" is decided by
    object identity, not by name. A fetched list comes from one decoded JSON
    array, so each of its elements is a distinct object: a zone's identity is
    modelled as its position in the fetched list, and an order is a sequence
    of such positions. */
module PriorityMerge {
  import opened Zones

  /** Position i holds the first zone carrying its name. */
  predicate IsFirstOfName(domains: seq<Zone>, i: nat) {
    i < |domains| && forall k :: 0 <= k < i ==> domains[k].name != domains[i].name
  }

  /** The lookup `domains.find(z => z.name === name)`, answered with the
      position of the zone found, or None for JavaScript's undefined. */
  function FindIndex(domains: seq<Zone>, name: string): (r: Option<nat>)
    ensures r.Some? ==> r.value < |domains| && domains[r.value].name == name && IsFirstOfName(domains, r.value)
    ensures r.None? <==> forall k :: 0 <= k < |domains| ==> domains[k].name != name
  {
    if |domains| == 0 then None
    else if domains[0].name == name then Some(0)
    else match FindIndex(domains[1..], name)
      case None => None
      case Some(i) => Some(i + 1)
  }

  /** The priority prefix, `priority.map(find by name).filter(defined)`:
      one position per priority name that some zone carries, in priority
      order. */
  function PriorityIndices(domains: seq<Zone>, priority: seq<string>): seq<nat> {
    if |priority| == 0 then []
    else
      var head := match FindIndex(domains, priority[0]) case None => [] case Some(i) => [i];
      head + PriorityIndices(domains, priority[1..])
  }

  /** Every entry of the prefix is the first zone carrying one of the
      priority names, and there are no more entries than names. */
  lemma {:induction false} PrefixEntriesFirstOfPriorityName(domains: seq<Zone>, priority: seq<string>)
    ensures var r := PriorityIndices(domains, priority);
      && |r| <= |priority|
      && forall k :: 0 <= k < |r| ==> IsFirstOfName(domains, r[k]) && domains[r[k]].name in priority
  {
    if |priority| > 0 {
      PrefixEntriesFirstOfPriorityName(domains, priority[1..]);
    }
  }

  /** The positions from `from` on whose zone is not among `placed`, in
      fetched order: `domains.filter(d => !final.find(z => z === d))`. */
  function Remaining(domains: seq<Zone>, placed: seq<nat>, from: nat): (r: seq<nat>)
    decreases |domains| - from
  {
    if from >= |domains| then []
    else (if from in placed then [] else [from]) + Remaining(domains, placed, from + 1)
  }

  /** The display order as positions in the fetched list: the priority
      prefix followed by the zones it did not place. */
  function MergeOrder(domains: seq<Zone>, priority: seq<string>): seq<nat> {
    var prefix := PriorityIndices(domains, priority);
    prefix + Remaining(domains, prefix, 0)
  }

  /** Every entry of the display order is a position of the fetched list. */
  lemma MergeOrderInRange(domains: seq<Zone>, priority: seq<string>)
    ensures forall k :: 0 <= k < |MergeOrder(domains, priority)| ==> MergeOrder(domains, priority)[k] < |domains|
  {
    var prefix := PriorityIndices(domains, priority);
    PrefixEntriesFirstOfPriorityName(domains, priority);
    RemainingIsUnplacedInOrder(domains, prefix, 0);
  }

  /** The zones at the given positions, in the given order. */
  function Select(domains: seq<Zone>, order: seq<nat>): (r: seq<Zone>)
    requires forall k :: 0 <= k < |order| ==> order[k] < |domains|
  {
    seq(|order|, k requires 0 <= k < |order| => domains[order[k]])
  }

  /** The zones in display order. */
  function Merge(domains: seq<Zone>, priority: seq<string>): seq<Zone> {
    MergeOrderInRange(domains, priority);
    Select(domains, MergeOrder(domains, priority))
  }

  /** The remainder is increasing (fetched order is kept), misses every
      placed position and holds every other position from `from` on. */
  lemma {:induction false} RemainingIsUnplacedInOrder(domains: seq<Zone>, placed: seq<nat>, from: nat)
    ensures var r := Remaining(domains, placed, from);
      && (forall k :: 0 <= k < |r| ==> from <= r[k] < |domains| && r[k] !in placed)
      && (forall k1, k2 :: 0 <= k1 < k2 < |r| ==> r[k1] < r[k2])
      && (forall i :: from <= i < |domains| && i !in placed ==> i in r)
    decreases |domains| - from
  {
    if from < |domains| {
      RemainingIsUnplacedInOrder(domains, placed, from + 1);
    }
  }

  /** The prefix of a concatenated priority list is the concatenation of
      the prefixes: names are looked up one at a time, independently. */
  lemma {:induction false} PrefixAppend(domains: seq<Zone>, a: seq<string>, b: seq<string>)
    ensures PriorityIndices(domains, a + b) == PriorityIndices(domains, a) + PriorityIndices(domains, b)
  {
    if |a| == 0 {
      assert a + b == b;
    } else {
      assert (a + b)[0] == a[0];
      assert (a + b)[1..] == a[1..] + b;
      PrefixAppend(domains, a[1..], b);
    }
  }

  /** The prefix for a single name: the first zone with it, if any. */
  lemma PrefixOfOne(domains: seq<Zone>, name: string)
    ensures PriorityIndices(domains, [name]) == match FindIndex(domains, name) case None => [] case Some(i) => [i]
  {
    assert [name][1..] == [];
  }

  /** Line one of the callback: the names of the priority list are looked
      up in turn and the zones found are collected into `final`. */
  method CollectPriority(domains: seq<Zone>, priority: seq<string>) returns (final: seq<nat>)
    ensures final == PriorityIndices(domains, priority)
  {
    final := [];
    var j := 0;
    while j < |priority|
      invariant j <= |priority|
      invariant final == PriorityIndices(domains, priority[..j])
    {
      var found := FindIndex(domains, priority[j]);
      PrefixAppend(domains, priority[..j], [priority[j]]);
      PrefixOfOne(domains, priority[j]);
      assert priority[..j + 1] == priority[..j] + [priority[j]];
      if found.Some? {
        final := final + [found.value];
      }
      j := j + 1;
    }
    assert priority[..j] == priority;
  }

  /** Line two of the callback: the fetched zones that `final` does not
      hold, kept in fetched order. */
  method FilterUnplaced(domains: seq<Zone>, final: seq<nat>) returns (rest: seq<nat>)
    ensures rest == Remaining(domains, final, 0)
  {
    rest := [];
    var i := 0;
    while i < |domains|
      invariant i <= |domains|
      invariant rest + Remaining(domains, final, i) == Remaining(domains, final, 0)
    {
      if i !in final {
        assert Remaining(domains, final, i) == [i] + Remaining(domains, final, i + 1);
        rest := rest + [i];
      } else {
        assert Remaining(domains, final, i) == Remaining(domains, final, i + 1);
      }
      i := i + 1;
    }
  }

  /** The merge as the callback runs it: the priority prefix is collected
      into `final`, the zones it does not hold are filtered out of the
      fetched list, and `final.push(...)` appends them. */
  method BuildFinal(domains: seq<Zone>, priority: seq<string>) returns (final: seq<nat>)
    ensures final == MergeOrder(domains, priority)
  {
    final := CollectPriority(domains, priority);
    var rest := FilterUnplaced(domains, final);
    final := final + rest;
  }
}
