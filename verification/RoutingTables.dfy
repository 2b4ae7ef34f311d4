/** The routing table: next hops per destination router (src/route/routing-table.cpp). */
module RoutingTables {
  import opened Names
  import opened Hops
  import opened Listings

  datatype RoutingTableEntry = RoutingTableEntry(destination: Name, hops: seq<NextHop>)

  /** What a table says: for each destination, the cost of each face. */
  type View = map<Name, map<string, nat>>

  function Destination(e: RoutingTableEntry): Name { e.destination }

  ghost predicate WellFormed(entries: seq<RoutingTableEntry>) {
    DistinctKeys(entries, Destination) && forall i :: 0 <= i < |entries| ==> UniqueFaces(entries[i].hops)
  }

  ghost function ViewOf(entries: seq<RoutingTableEntry>): View {
    map d | d in Index(entries, Destination) :: Costs(Index(entries, Destination)[d].hops)
  }

  /** The costs a view offers towards a destination, none if it is not listed. */
  ghost function Towards(view: View, dest: Name): map<string, nat> {
    if dest in view then view[dest] else map[]
  }

  ghost function Offer(view: View, dest: Name, nh: NextHop): View {
    view[dest := MinCost(Towards(view, dest), nh)]
  }

  /** Whether a calculation is scheduled, and how many calculation events the scheduler holds. */
  class CalculationSchedule {
    var isRouteCalculationScheduled: bool
    var pendingCalculations: nat

    ghost predicate Valid()
      reads this
    {
      pendingCalculations == if isRouteCalculationScheduled then 1 else 0
    }

    constructor ()
      ensures Valid() && !isRouteCalculationScheduled
    {
      isRouteCalculationScheduled := false;
      pendingCalculations := 0;
    }

    method ScheduleRoutingTableCalculation()
      modifies this
      ensures isRouteCalculationScheduled && (old(Valid()) ==> Valid())
    {
      if !isRouteCalculationScheduled {
        pendingCalculations := pendingCalculations + 1;
        isRouteCalculationScheduled := true;
      }
    }

    /** The event fires, and the flag is cleared when the calculation is over. */
    method Finish()
      requires pendingCalculations > 0
      modifies this
      ensures !isRouteCalculationScheduled && (old(Valid()) ==> Valid())
    {
      pendingCalculations := pendingCalculations - 1;
      isRouteCalculationScheduled := false;
    }
  }

  class RoutingTable {
    var entries: seq<RoutingTableEntry>

    ghost predicate Valid()
      reads this
    {
      WellFormed(entries)
    }

    constructor ()
      ensures Valid() && ViewOf(entries) == map[]
    {
      entries := [];
    }

    method ClearRoutingTable()
      modifies this
      ensures Valid() && ViewOf(entries) == map[]
    {
      if |entries| > 0 {
        entries := [];
      }
    }

    method FindRoutingTableEntry(dest: Name) returns (at: int)
      requires Valid()
      ensures at == -1 <==> dest !in ViewOf(entries)
      ensures at != -1 ==> 0 <= at < |entries| && entries[at].destination == dest
                           && Costs(entries[at].hops) == ViewOf(entries)[dest]
    {
      var i := 0;
      IndexKeys(entries, Destination, dest);
      while i < |entries| && entries[i].destination != dest
        invariant 0 <= i <= |entries|
        invariant forall j :: 0 <= j < i ==> entries[j].destination != dest
      {
        i := i + 1;
      }
      if i == |entries| {
        at := -1;
      } else {
        at := i;
        IndexAt(entries, Destination, i);
      }
    }

    /** Records the hop under its destination: one hop per face, at the least cost offered. */
    method AddNextHop(dest: Name, nh: NextHop)
      requires Valid()
      modifies this
      ensures Valid()
      ensures ViewOf(entries) == Offer(old(ViewOf(entries)), dest, nh)
    {
      var at := FindRoutingTableEntry(dest);
      if at == -1 {
        var hops := MergeHop([], nh);
        AppendedView(entries, RoutingTableEntry(dest, hops));
        entries := entries + [RoutingTableEntry(dest, hops)];
      } else {
        var hops := MergeHop(entries[at].hops, nh);
        ReplacedView(entries, at, hops);
        entries := entries[at := entries[at].(hops := hops)];
      }
    }

    static method MergeHop(hops: seq<NextHop>, nh: NextHop) returns (merged: seq<NextHop>)
      requires UniqueFaces(hops)
      ensures UniqueFaces(merged) && Costs(merged) == MinCost(Costs(hops), nh)
    {
      var list := new NexthopList(hops);
      list.AddNextHop(nh);
      merged := list.hops;
    }
  }

  lemma AppendedView(entries: seq<RoutingTableEntry>, e: RoutingTableEntry)
    requires WellFormed(entries) && UniqueFaces(e.hops) && e.destination !in ViewOf(entries)
    ensures WellFormed(entries + [e])
    ensures ViewOf(entries + [e]) == ViewOf(entries)[e.destination := Costs(e.hops)]
  {
    IndexAppended(entries, Destination, e);
  }

  lemma ReplacedView(entries: seq<RoutingTableEntry>, at: nat, hops: seq<NextHop>)
    requires WellFormed(entries) && at < |entries| && UniqueFaces(hops)
    ensures var after := entries[at := entries[at].(hops := hops)];
            WellFormed(after) && ViewOf(after) == ViewOf(entries)[entries[at].destination := Costs(hops)]
  {
    IndexReplaced(entries, Destination, at, entries[at].(hops := hops));
  }

  lemma DroppedView(entries: seq<RoutingTableEntry>, at: nat)
    requires WellFormed(entries) && at < |entries|
    ensures WellFormed(Dropped(entries, at)) && ViewOf(Dropped(entries, at)) == ViewOf(entries) - {entries[at].destination}
  {
    IndexDropped(entries, Destination, at);
  }
}
