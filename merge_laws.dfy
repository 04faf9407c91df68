/** What the priority merge promises about the order it produces. */
module MergeLaws {
  import opened Zones
  import opened PriorityMerge

  /** The number of zones placed for the names before position j of the
      priority list: where the zone for name j lands in the display order. */
  function PlacedBefore(domains: seq<Zone>, priority: seq<string>, j: nat): nat
    requires j <= |priority|
  {
    |PriorityIndices(domains, priority[..j])|
  }

  /** The prefix splits around one priority name: the names before it, the
      first zone with it (if any), and the names after it. */
  lemma PrefixAround(domains: seq<Zone>, priority: seq<string>, j: nat)
    requires j < |priority|
    ensures PriorityIndices(domains, priority)
         == PriorityIndices(domains, priority[..j])
          + PriorityIndices(domains, [priority[j]])
          + PriorityIndices(domains, priority[j + 1..])
  {
    assert priority == priority[..j] + ([priority[j]] + priority[j + 1..]);
    PrefixAppend(domains, priority[..j], [priority[j]] + priority[j + 1..]);
    PrefixAppend(domains, [priority[j]], priority[j + 1..]);
  }

  /** A priority name that some zone carries is placed: the first zone with
      that name sits in the display order right after the zones placed for
      the names before it. */
  lemma PriorityPlacement(domains: seq<Zone>, priority: seq<string>, j: nat)
    requires j < |priority| && FindIndex(domains, priority[j]).Some?
    ensures PlacedBefore(domains, priority, j) < |PriorityIndices(domains, priority)|
    ensures MergeOrder(domains, priority)[PlacedBefore(domains, priority, j)] == FindIndex(domains, priority[j]).value
  {
    PrefixAround(domains, priority, j);
    PrefixOfOne(domains, priority[j]);
  }

  /** Of two priority names that zones carry, the one earlier in the
      priority list is displayed first. */
  lemma PriorityOrdering(domains: seq<Zone>, priority: seq<string>, j1: nat, j2: nat)
    requires j1 < j2 < |priority|
    requires FindIndex(domains, priority[j1]).Some? && FindIndex(domains, priority[j2]).Some?
    ensures PlacedBefore(domains, priority, j1) < PlacedBefore(domains, priority, j2) < |PriorityIndices(domains, priority)|
    ensures MergeOrder(domains, priority)[PlacedBefore(domains, priority, j1)] == FindIndex(domains, priority[j1]).value
    ensures MergeOrder(domains, priority)[PlacedBefore(domains, priority, j2)] == FindIndex(domains, priority[j2]).value
  {
    PriorityPlacement(domains, priority, j1);
    PriorityPlacement(domains, priority, j2);
    var upTo := priority[..j2];
    assert upTo[..j1] == priority[..j1] && upTo[j1] == priority[j1];
    PrefixAround(domains, upTo, j1);
    PrefixOfOne(domains, priority[j1]);
  }

  /** The display order depends on the priority list only through the
      prefix it selects. */
  lemma OrderFollowsPrefix(domains: seq<Zone>, p: seq<string>, q: seq<string>)
    requires PriorityIndices(domains, p) == PriorityIndices(domains, q)
    ensures MergeOrder(domains, p) == MergeOrder(domains, q)
  {
  }

  /** A priority name that no zone carries contributes nothing: dropping it
      from the priority list leaves the display order unchanged. */
  lemma AbsentNameSkipped(domains: seq<Zone>, priority: seq<string>, j: nat)
    requires j < |priority| && FindIndex(domains, priority[j]).None?
    ensures MergeOrder(domains, priority) == MergeOrder(domains, priority[..j] + priority[j + 1..])
  {
    PrefixSkipsAbsent(domains, priority, j);
    OrderFollowsPrefix(domains, priority, priority[..j] + priority[j + 1..]);
  }

  /** A priority name no fetched zone carries adds nothing to the prefix. */
  lemma PrefixSkipsAbsent(domains: seq<Zone>, priority: seq<string>, j: nat)
    requires j < |priority| && FindIndex(domains, priority[j]).None?
    ensures PriorityIndices(domains, priority) == PriorityIndices(domains, priority[..j] + priority[j + 1..])
  {
    var before, after := PriorityIndices(domains, priority[..j]), PriorityIndices(domains, priority[j + 1..]);
    assert PriorityIndices(domains, priority) == before + after by {
      PrefixAround(domains, priority, j);
      PrefixOfOne(domains, priority[j]);
    }
    PrefixAppend(domains, priority[..j], priority[j + 1..]);
  }

  /** After the prefix come exactly the zones it did not place, in the
      order they were fetched. */
  lemma RemainderKeepsFetchedOrder(domains: seq<Zone>, priority: seq<string>)
    ensures var order, m := MergeOrder(domains, priority), |PriorityIndices(domains, priority)|;
      && m <= |order|
      && (forall k1, k2 :: m <= k1 < k2 < |order| ==> order[k1] < order[k2])
      && (forall k :: m <= k < |order| ==> order[k] !in PriorityIndices(domains, priority))
      && (forall i :: 0 <= i < |domains| && i !in PriorityIndices(domains, priority) ==> i in order[m..])
  {
    var prefix := PriorityIndices(domains, priority);
    var rest := Remaining(domains, prefix, 0);
    RemainingIsUnplacedInOrder(domains, prefix, 0);
    assert MergeOrder(domains, priority)[|prefix|..] == rest;
  }

  /** Exclusion from the remainder is by identity: a zone that is not the
      first with its name is never placed in the prefix, so it is
      displayed after the prefix even when a zone of the same name is in it. */
  lemma SameNameLaterZoneKept(domains: seq<Zone>, priority: seq<string>, j: nat, i: nat)
    requires j < i < |domains| && domains[j].name == domains[i].name
    ensures i in MergeOrder(domains, priority)[|PriorityIndices(domains, priority)|..]
  {
    PrefixEntriesFirstOfPriorityName(domains, priority);
    assert i !in PriorityIndices(domains, priority);
    RemainderKeepsFetchedOrder(domains, priority);
  }

  /** With distinct priority names, no zone is placed twice in the prefix. */
  lemma {:induction false} PrefixDistinct(domains: seq<Zone>, priority: seq<string>)
    requires Distinct(priority)
    ensures Distinct(PriorityIndices(domains, priority))
  {
    if |priority| > 0 {
      var tail := priority[1..];
      assert Distinct(tail);
      PrefixDistinct(domains, tail);
      PrefixEntriesFirstOfPriorityName(domains, tail);
      assert priority[0] !in tail;
      var r := PriorityIndices(domains, priority);
      var rt := PriorityIndices(domains, tail);
      var found := FindIndex(domains, priority[0]);
      if found.None? {
        assert r == rt;
        forall k1, k2 | 0 <= k1 < k2 < |r| ensures r[k1] != r[k2] {
          assert r[k1] == rt[k1] && r[k2] == rt[k2];
        }
      } else {
        var h := found.value;
        assert r == [h] + rt;
        forall k | 0 <= k < |rt| ensures rt[k] != h {
          assert domains[rt[k]].name in tail;
        }
      }
    }
  }

  /** The members of a sequence of positions. */
  function Elems(s: seq<nat>): set<nat> {
    set x | x in s
  }

  /** A sequence without repetitions has as many members as elements. */
  lemma {:induction false} DistinctSetSize(s: seq<nat>)
    requires Distinct(s)
    ensures |Elems(s)| == |s|
  {
    if |s| > 0 {
      var init, last := s[..|s| - 1], s[|s| - 1];
      assert Distinct(init);
      DistinctSetSize(init);
      assert last !in init;
      assert Elems(s) == Elems(init) + {last} by {
        assert s == init + [last];
      }
    }
  }

  /** Every fetched zone is displayed: it is placed in the prefix or
      appended after it. */
  lemma MergeOrderCoversAll(domains: seq<Zone>, priority: seq<string>)
    ensures forall i :: 0 <= i < |domains| ==> i in MergeOrder(domains, priority)
  {
    var order := MergeOrder(domains, priority);
    var prefix := PriorityIndices(domains, priority);
    var m := |prefix|;
    RemainderKeepsFetchedOrder(domains, priority);
    forall i | 0 <= i < |domains| ensures i in order {
      if i in prefix {
        var k :| 0 <= k < m && prefix[k] == i;
        assert order[k] == i;
      } else {
        assert i in order[m..];
      }
    }
  }

  /** With distinct priority names no zone is displayed twice. */
  lemma MergeOrderNoRepeats(domains: seq<Zone>, priority: seq<string>)
    requires Distinct(priority)
    ensures Distinct(MergeOrder(domains, priority))
  {
    var order := MergeOrder(domains, priority);
    var prefix := PriorityIndices(domains, priority);
    var m := |prefix|;
    PrefixDistinct(domains, priority);
    RemainderKeepsFetchedOrder(domains, priority);
    forall k1, k2 | 0 <= k1 < k2 < |order| ensures order[k1] != order[k2] {
      if k2 < m {
        assert order[k1] == prefix[k1] && order[k2] == prefix[k2];
      } else if k1 < m {
        assert order[k1] in prefix;
      }
    }
  }

  /** With distinct priority names, every fetched zone is displayed exactly
      once: the display order is a permutation of the fetched positions. */
  lemma MergeOrderIsPermutation(domains: seq<Zone>, priority: seq<string>)
    requires Distinct(priority)
    ensures var order := MergeOrder(domains, priority);
      && |order| == |domains|
      && (forall i :: 0 <= i < |domains| ==> i in order)
      && Distinct(order)
  {
    var order := MergeOrder(domains, priority);
    MergeOrderInRange(domains, priority);
    MergeOrderCoversAll(domains, priority);
    MergeOrderNoRepeats(domains, priority);
    var all := Range(0, |domains|);
    DistinctSetSize(order);
    DistinctSetSize(all);
    forall x | x in all ensures x in order {
      var k :| 0 <= k < |all| && all[k] == x;
    }
    forall x | x in order ensures x in all {
      var k :| 0 <= k < |order| && order[k] == x;
      assert all[x] == x;
    }
    assert Elems(order) == Elems(all);
  }

  /** The order lists each of the positions 0 .. n-1 exactly once. */
  predicate IsPermutation(order: seq<nat>, n: nat) {
    && |order| == n && Distinct(order)
    && (forall k :: 0 <= k < |order| ==> order[k] < n)
    && (forall i :: 0 <= i < n ==> i in order)
  }

  /** Taking out the position of the last zone from a permutation of
      0 .. n-1 leaves a permutation of 0 .. n-2. */
  lemma DropLast(order: seq<nat>, q: nat)
    requires IsPermutation(order, |order|) && q < |order| && order[q] == |order| - 1
    ensures IsPermutation(order[..q] + order[q + 1..], |order| - 1)
  {
    var n, shorter := |order|, order[..q] + order[q + 1..];
    forall k | 0 <= k < |shorter| ensures shorter[k] < n - 1 {
      var at := if k < q then k else k + 1;
      assert shorter[k] == order[at] && at != q;
    }
    forall k1, k2 | 0 <= k1 < k2 < |shorter| ensures shorter[k1] != shorter[k2] {
      var at1, at2 := if k1 < q then k1 else k1 + 1, if k2 < q then k2 else k2 + 1;
      assert shorter[k1] == order[at1] && shorter[k2] == order[at2];
    }
    forall i | 0 <= i < n - 1 ensures i in shorter {
      assert i in order;
      var at :| 0 <= at < |order| && order[at] == i;
      assert at != q;
      if at < q {
        assert shorter[at] == i;
      } else {
        assert shorter[at - 1] == i;
      }
    }
  }

  /** Reading at an order splits around any one of its positions. */
  lemma SelectAround(domains: seq<Zone>, order: seq<nat>, q: nat)
    requires q < |order| && forall k :: 0 <= k < |order| ==> order[k] < |domains|
    ensures Select(domains, order)
         == Select(domains, order[..q]) + [domains[order[q]]] + Select(domains, order[q + 1..])
  {
  }

  /** Positions inside a prefix of the zones read the same from the prefix. */
  lemma SelectInPrefix(domains: seq<Zone>, n: nat, order: seq<nat>)
    requires n <= |domains| && forall k :: 0 <= k < |order| ==> order[k] < n
    ensures Select(domains[..n], order) == Select(domains, order)
  {
  }

  /** Putting the last zone of a list anywhere among the others keeps the
      multiset of the list. */
  lemma MultisetInsertLast(whole: seq<Zone>, left: seq<Zone>, right: seq<Zone>, all: seq<Zone>)
    requires |all| > 0 && whole == left + [all[|all| - 1]] + right
    requires multiset(left + right) == multiset(all[..|all| - 1])
    ensures multiset(whole) == multiset(all)
  {
    assert all == all[..|all| - 1] + [all[|all| - 1]];
  }

  /** Reading the zones at a permutation of their positions yields the same
      zones, each as often as before. */
  lemma {:induction false} SelectPermutation(domains: seq<Zone>, order: seq<nat>)
    requires IsPermutation(order, |domains|)
    ensures multiset(Select(domains, order)) == multiset(domains)
    decreases |domains|, 1
  {
    var n := |domains|;
    if n > 0 {
      assert n - 1 in order;
      var q :| 0 <= q < |order| && order[q] == n - 1;
      SelectWithoutLast(domains, order, q);
      var left, right, last := Select(domains, order[..q]), Select(domains, order[q + 1..]), domains[n - 1];
      SelectAround(domains, order, q);
      MultisetInsertLast(Select(domains, order), left, right, domains);
    }
  }

  /** The zones read at a permutation, except the last zone, are the other
      zones. */
  lemma {:induction false} SelectWithoutLast(domains: seq<Zone>, order: seq<nat>, q: nat)
    requires IsPermutation(order, |domains|)
    requires q < |order| && order[q] == |domains| - 1
    ensures multiset(Select(domains, order[..q]) + Select(domains, order[q + 1..])) == multiset(domains[..|domains| - 1])
    decreases |domains|, 0
  {
    var n, left, right := |domains|, order[..q], order[q + 1..];
    assert forall k :: 0 <= k < |left| ==> left[k] < n - 1 by {
      PermutationParts(order, q);
    }
    assert forall k :: 0 <= k < |right| ==> right[k] < n - 1 by {
      PermutationParts(order, q);
    }
    DropLast(order, q);
    SelectPermutation(domains[..n - 1], left + right);
    SelectInPrefix(domains, n - 1, left + right);
    SelectConcat(domains, left, right);
  }

  /** The positions before and after the last zone's are all smaller than
      the last one. */
  lemma PermutationParts(order: seq<nat>, q: nat)
    requires IsPermutation(order, |order|) && q < |order| && order[q] == |order| - 1
    ensures forall k :: 0 <= k < |order| && k != q ==> order[k] < |order| - 1
  {
  }

  /** Reading at two orders one after the other reads at their
      concatenation. */
  lemma SelectConcat(domains: seq<Zone>, a: seq<nat>, b: seq<nat>)
    requires forall k :: 0 <= k < |a| ==> a[k] < |domains|
    requires forall k :: 0 <= k < |b| ==> b[k] < |domains|
    ensures Select(domains, a + b) == Select(domains, a) + Select(domains, b)
  {
  }

  /** With distinct priority names the widget displays the same zones it
      fetched, each exactly as often. */
  lemma MergeSameZones(domains: seq<Zone>, priority: seq<string>)
    requires Distinct(priority)
    ensures |Merge(domains, priority)| == |domains|
    ensures multiset(Merge(domains, priority)) == multiset(domains)
  {
    MergeOrderIsPermutation(domains, priority);
    MergeOrderInRange(domains, priority);
    SelectPermutation(domains, MergeOrder(domains, priority));
  }

  /** Excluding the first m positions, the remainder from `from` on is every
      later position in order. */
  lemma {:induction false} RemainingAfterRange(s: seq<Zone>, m: nat, from: nat)
    requires m <= |s| && from <= |s|
    ensures Remaining(s, Range(0, m), from) == Range(if from < m then m else from, |s|)
    decreases |s| - from
  {
    if from < |s| {
      RemainingAfterRange(s, m, from + 1);
      if from < m {
        assert Range(0, m)[from] == from;
      } else {
        assert from !in Range(0, m);
        assert Range(from, |s|) == [from] + Range(from + 1, |s|);
      }
    }
  }

  /** A name that no fetched zone carries is not found in the merged list
      either: the merge only rearranges fetched zones. */
  lemma AbsentFromMerged(domains: seq<Zone>, priority: seq<string>, name: string)
    requires FindIndex(domains, name).None?
    ensures FindIndex(Merge(domains, priority), name).None?
  {
    var out, order := Merge(domains, priority), MergeOrder(domains, priority);
    MergeOrderInRange(domains, priority);
    forall k | 0 <= k < |out| ensures out[k].name != name {
      assert out[k] == domains[order[k]];
    }
  }

  /** In the merged list, the first zone with priority name h is the one
      the merge placed for it. */
  lemma FoundInMerged(domains: seq<Zone>, priority: seq<string>, h: nat)
    requires Distinct(priority) && h < |priority| && FindIndex(domains, priority[h]).Some?
    ensures FindIndex(Merge(domains, priority), priority[h]) == Some(PlacedBefore(domains, priority, h))
  {
    var out, name := Merge(domains, priority), priority[h];
    var pos := PlacedBefore(domains, priority, h);
    PriorityPlacement(domains, priority, h);
    PrefixAround(domains, priority, h);
    var before := PriorityIndices(domains, priority[..h]);
    PrefixEntriesFirstOfPriorityName(domains, priority[..h]);
    forall k | 0 <= k < pos ensures out[k].name != name {
      assert out[k] == domains[before[k]];
      assert domains[before[k]].name in priority[..h];
    }
    assert out[pos].name == name;
    assert FindIndex(out, name).value == pos;
  }

  /** Looking up the priority names in the merged list finds them at the
      front, one after the other. */
  lemma {:induction false} PrefixOfMerged(domains: seq<Zone>, priority: seq<string>, j: nat)
    requires Distinct(priority) && j <= |priority|
    ensures PriorityIndices(Merge(domains, priority), priority[..j]) == Range(0, PlacedBefore(domains, priority, j))
  {
    if j == 0 {
      assert priority[..0] == [];
    } else {
      PrefixOfMerged(domains, priority, j - 1);
      PrefixOfMergedStep(domains, priority, j - 1);
    }
  }

  /** One step of PrefixOfMerged: the next priority name is found right
      after the ones before it, or not at all. */
  lemma PrefixOfMergedStep(domains: seq<Zone>, priority: seq<string>, h: nat)
    requires Distinct(priority) && h < |priority|
    requires PriorityIndices(Merge(domains, priority), priority[..h]) == Range(0, PlacedBefore(domains, priority, h))
    ensures PriorityIndices(Merge(domains, priority), priority[..h + 1]) == Range(0, PlacedBefore(domains, priority, h + 1))
  {
    var out, pos := Merge(domains, priority), PlacedBefore(domains, priority, h);
    PrefixStep(out, priority, h);
    PrefixStep(domains, priority, h);
    NextInMerged(domains, priority, h);
    RangeSnoc(pos);
  }

  /** Counting up to pos and then pos is counting up to pos + 1. */
  lemma RangeSnoc(pos: nat)
    ensures Range(0, pos) + [pos] == Range(0, pos + 1)
  {
  }

  /** The prefix for one more priority name is the prefix so far followed
      by the prefix for that name alone. */
  lemma PrefixStep(domains: seq<Zone>, priority: seq<string>, h: nat)
    requires h < |priority|
    ensures PriorityIndices(domains, priority[..h + 1]) == PriorityIndices(domains, priority[..h]) + PriorityIndices(domains, [priority[h]])
  {
    assert priority[..h + 1] == priority[..h] + [priority[h]];
    PrefixAppend(domains, priority[..h], [priority[h]]);
  }

  /** Priority name h is found in the merged list exactly where the merge
      placed it, and not at all when no fetched zone carries it. */
  lemma NextInMerged(domains: seq<Zone>, priority: seq<string>, h: nat)
    requires Distinct(priority) && h < |priority|
    ensures var name := priority[h];
      && PriorityIndices(Merge(domains, priority), [name])
         == (if FindIndex(domains, name).None? then [] else [PlacedBefore(domains, priority, h)])
      && |PriorityIndices(domains, [name])| == (if FindIndex(domains, name).None? then 0 else 1)
  {
    var out, name := Merge(domains, priority), priority[h];
    PrefixOfOne(domains, name);
    PrefixOfOne(out, name);
    if FindIndex(domains, name).None? {
      AbsentFromMerged(domains, priority, name);
    } else {
      FoundInMerged(domains, priority, h);
    }
  }

  /** Merging an already merged list with the same distinct priority names
      changes nothing. */
  lemma MergeIdempotent(domains: seq<Zone>, priority: seq<string>)
    requires Distinct(priority)
    ensures Merge(Merge(domains, priority), priority) == Merge(domains, priority)
  {
    var out := Merge(domains, priority);
    var m := |PriorityIndices(domains, priority)|;
    PrefixOfMerged(domains, priority, |priority|);
    assert priority[..|priority|] == priority;
    RemainingAfterRange(out, m, 0);
    assert MergeOrder(out, priority) == Range(0, |out|);
  }

  /** With an empty priority list the fetched order is kept. */
  lemma MergeEmptyPriority(domains: seq<Zone>)
    ensures Merge(domains, []) == domains
  {
    assert Range(0, 0) == [];
    RemainingAfterRange(domains, 0, 0);
  }

  /** With nothing fetched no priority name is found. */
  lemma {:induction false} PrefixOfNothing(priority: seq<string>)
    ensures PriorityIndices([], priority) == []
  {
    if |priority| > 0 {
      PrefixOfNothing(priority[1..]);
    }
  }

  /** With nothing fetched nothing is displayed. */
  lemma MergeEmptyDomains(priority: seq<string>)
    ensures Merge([], priority) == []
  {
    PrefixOfNothing(priority);
  }

  /** A fetched list in API order, reordered by a two-name priority list. */
  lemma MergeExample()
    ensures Merge([Zone("b.com", "active"), Zone("a.com", "invalid"), Zone("c.com", "error")], ["a.com", "c.com"])
         == [Zone("a.com", "invalid"), Zone("c.com", "error"), Zone("b.com", "active")]
  {
    var fetched := [Zone("b.com", "active"), Zone("a.com", "invalid"), Zone("c.com", "error")];
    assert FindIndex(fetched, "a.com") == Some(1);
    assert FindIndex(fetched, "c.com") == Some(2);
    assert PriorityIndices(fetched, ["a.com", "c.com"]) == [1, 2] by {
      assert ["a.com", "c.com"][1..] == ["c.com"];
      PrefixOfOne(fetched, "c.com");
    }
    assert Remaining(fetched, [1, 2], 0) == [0];
    assert MergeOrder(fetched, ["a.com", "c.com"]) == [1, 2, 0];
  }

  /** A name listed twice in the priority list places its zone twice, so
      the merge is a permutation only for distinct priority names. */
  lemma RepeatedPriorityNameRepeatsZone()
    ensures Merge([Zone("a.com", "active")], ["a.com", "a.com"])
         == [Zone("a.com", "active"), Zone("a.com", "active")]
  {
  }
}
