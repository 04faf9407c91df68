/** The state one domain widget keeps: the zones it displays and the
    "last updated" text. Both start empty and are set once, when the fetch
    resolves. */
module Board {
  import opened Zones
  import opened PriorityMerge
  import opened MergeLaws
  import opened StatusBar

  class DomainBoard {
    /** The widget's fixed priority list. */
    const priority: seq<string>
    /** The zones in display order; empty until the fetch resolves. */
    var domains: seq<Zone>
    /** The formatted time of the API's last update; empty until then. */
    var lastUpdated: string

    constructor (priority: seq<string>)
      ensures this.priority == priority
      ensures domains == [] && lastUpdated == ""
    {
      this.priority := priority;
      domains := [];
      lastUpdated := "";
    }

    /** The fetch callback: merge the fetched zones by priority, then store
        the result and the last-updated text. With distinct priority names
        the widget then holds every fetched zone exactly once. */
    method OnFetched(lastUpdatedFormat: string, fetched: seq<Zone>)
      modifies this
      ensures domains == Merge(fetched, priority)
      ensures lastUpdated == lastUpdatedFormat
      ensures Distinct(priority) ==> multiset(domains) == multiset(fetched)
    {
      var final := BuildFinal(fetched, priority);
      MergeOrderInRange(fetched, priority);
      domains := Select(fetched, final);
      lastUpdated := lastUpdatedFormat;
      if Distinct(priority) {
        MergeSameZones(fetched, priority);
      }
    }

    /** What the widget shows: the loading placeholder until some zone is
        held, then one tile per held zone. */
    function View(): (s: Screen)
      reads this
      ensures s == Render(domains)
      ensures s.Loading? <==> domains == []
    {
      Render(domains)
    }
  }
}
