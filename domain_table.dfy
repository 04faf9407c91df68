/** The DomainTable component: the widget with a seven-name priority list
    that includes antony.wiki. */
module DomainTable {
  import opened Zones
  import opened PriorityMerge
  import opened MergeLaws
  import opened Board

  /** The zones shown first, in this order, when they exist. */
  const Priority: seq<string> :=
    ["antony.red", "antony.cloud", "antony.contact", "antony.wiki", "antony.domains", "antony.cash", "fuckcors.app"]

  /** No name is listed twice. */
  lemma PriorityDistinct()
    ensures Distinct(Priority)
  {
  }

  /** The component's state when it first renders. */
  method Mount() returns (board: DomainBoard)
    ensures fresh(board) && board.priority == Priority
    ensures board.domains == [] && board.lastUpdated == ""
  {
    board := new DomainBoard(Priority);
  }

  /** Every fetched zone is displayed exactly once, and merging the
      displayed list again changes nothing. */
  lemma DisplaysEachZoneOnce(fetched: seq<Zone>)
    ensures |Merge(fetched, Priority)| == |fetched|
    ensures multiset(Merge(fetched, Priority)) == multiset(fetched)
    ensures Merge(Merge(fetched, Priority), Priority) == Merge(fetched, Priority)
  {
    PriorityDistinct();
    MergeSameZones(fetched, Priority);
    MergeIdempotent(fetched, Priority);
  }

  /** When both exist, the first fetched antony.wiki zone is displayed
      before the first fetched antony.domains zone, whatever the fetched
      order, and each is the first zone with its name on screen. */
  lemma WikiBeforeDomains(fetched: seq<Zone>)
    requires FindIndex(fetched, "antony.wiki").Some? && FindIndex(fetched, "antony.domains").Some?
    ensures var out, k1, k2 := Merge(fetched, Priority), PlacedBefore(fetched, Priority, 3), PlacedBefore(fetched, Priority, 4);
      && k1 < k2 < |out|
      && out[k1] == fetched[FindIndex(fetched, "antony.wiki").value]
      && out[k2] == fetched[FindIndex(fetched, "antony.domains").value]
      && FindIndex(out, "antony.wiki") == Some(k1)
      && FindIndex(out, "antony.domains") == Some(k2)
  {
    assert Priority[3] == "antony.wiki" && Priority[4] == "antony.domains";
    PriorityDistinct();
    PriorityOrdering(fetched, Priority, 3, 4);
    MergeOrderInRange(fetched, Priority);
    FoundInMerged(fetched, Priority, 3);
    FoundInMerged(fetched, Priority, 4);
  }
}
