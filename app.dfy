/** The App component: the same widget with a six-name priority list that
    leaves out antony.wiki. */
module App {
  import opened Zones
  import opened PriorityMerge
  import opened MergeLaws
  import opened Board

  /** The zones shown first, in this order, when they exist. */
  const Priority: seq<string> :=
    ["antony.red", "antony.cloud", "antony.contact", "antony.domains", "antony.cash", "fuckcors.app"]

  /** No name is listed twice. */
  lemma PriorityDistinct()
    ensures Distinct(Priority)
  {
  }

  /** The component's state when it first renders. */
  method Mount() returns (board: DomainBoard)
    ensures fresh(board) && board.priority == Priority
    ensures board.domains == [] && board.lastUpdated == ""
  {
    board := new DomainBoard(Priority);
  }

  /** Every fetched zone is displayed exactly once, and merging the
      displayed list again changes nothing. */
  lemma DisplaysEachZoneOnce(fetched: seq<Zone>)
    ensures |Merge(fetched, Priority)| == |fetched|
    ensures multiset(Merge(fetched, Priority)) == multiset(fetched)
    ensures Merge(Merge(fetched, Priority), Priority) == Merge(fetched, Priority)
  {
    PriorityDistinct();
    MergeSameZones(fetched, Priority);
    MergeIdempotent(fetched, Priority);
  }

  /** antony.red and fuckcors.app, the first and last listed names, are
      displayed in that order when both exist. */
  lemma RedBeforeFuckcors(fetched: seq<Zone>)
    requires FindIndex(fetched, "antony.red").Some? && FindIndex(fetched, "fuckcors.app").Some?
    ensures var out, k1, k2 := Merge(fetched, Priority), PlacedBefore(fetched, Priority, 0), PlacedBefore(fetched, Priority, 5);
      k1 == 0 && k1 < k2 < |out| && out[k1].name == "antony.red" && out[k2].name == "fuckcors.app"
  {
    assert Priority[0] == "antony.red" && Priority[5] == "fuckcors.app";
    assert Priority[..0] == [];
    PriorityOrdering(fetched, Priority, 0, 5);
  }

  /** antony.wiki is not listed here: no antony.wiki zone is placed in the
      priority prefix, so every one of them is displayed after it in
      fetched order. */
  lemma WikiNotPrioritized(fetched: seq<Zone>, i: nat)
    requires i < |fetched| && fetched[i].name == "antony.wiki"
    ensures i in MergeOrder(fetched, Priority)[|PriorityIndices(fetched, Priority)|..]
  {
    assert "antony.wiki" !in Priority;
    PrefixEntriesFirstOfPriorityName(fetched, Priority);
    RemainderKeepsFetchedOrder(fetched, Priority);
  }
}
