/** The name prefix table: which routers originate each prefix, and the next hops that follow from the
    routing table (src/route/name-prefix-table.cpp, src/route/name-prefix-table-entry.cpp). */
module NamePrefixes {
  import opened Names
  import opened Hops
  import opened Listings
  import opened RoutingTables
  import opened Fibs

  datatype NptEntry = NptEntry(prefix: Name, rteList: seq<RoutingTableEntry>, hops: seq<NextHop>)

  /** For each prefix its origin routers, and for each of those the costs of its next hops. */
  type Prefixes = map<Name, View>

  function Prefix(e: NptEntry): Name { e.prefix }

  ghost function PrefixesOf(index: map<Name, NptEntry>): Prefixes {
    map n | n in index :: ViewOf(index[n].rteList)
  }

  // ----- the hops of an entry -----

  /** All hops of all origins, one after the other. */
  ghost function AllHops(rteList: seq<RoutingTableEntry>): seq<NextHop> {
    if rteList == [] then [] else AllHops(rteList[..|rteList| - 1]) + rteList[|rteList| - 1].hops
  }

  lemma {:induction false} MinCostsOfConcat(costs: map<string, nat>, a: seq<NextHop>, b: seq<NextHop>)
    ensures MinCosts(costs, a + b) == MinCosts(MinCosts(costs, a), b)
  {
    if b == [] {
      assert a + b == a;
    } else {
      MinCostsOfConcat(costs, a, b[..|b| - 1]);
      assert (a + b)[..|a + b| - 1] == a + b[..|b| - 1];
    }
  }

  /** costs holds, per face, the least cost over all routers in the view that are reached by it. */
  ghost predicate IsBest(costs: map<string, nat>, view: View) {
    && (forall d, f :: d in view && f in view[d] ==> f in costs && costs[f] <= view[d][f])
    && forall f :: f in costs ==> exists d :: d in view && f in view[d] && view[d][f] == costs[f]
  }

  lemma {:induction false} AllHopsMembers(rteList: seq<RoutingTableEntry>, h: NextHop)
    ensures h in AllHops(rteList) <==> exists i :: 0 <= i < |rteList| && h in rteList[i].hops
  {
    if rteList != [] {
      var init := rteList[..|rteList| - 1];
      AllHopsMembers(init, h);
      if h in AllHops(init) {
        var i :| 0 <= i < |init| && h in init[i].hops;
        assert h in rteList[i].hops;
      }
      if i :| 0 <= i < |rteList| && h in rteList[i].hops {
        assert i < |init| ==> h in init[i].hops;
      }
    }
  }

  lemma HopInView(rteList: seq<RoutingTableEntry>, d: Name, h: NextHop)
    requires WellFormed(rteList) && d in ViewOf(rteList) && h.face in ViewOf(rteList)[d] && ViewOf(rteList)[d][h.face] == h.cost
    ensures h in AllHops(rteList)
  {
    IndexKeys(rteList, Destination, d);
    var i :| 0 <= i < |rteList| && rteList[i].destination == d;
    IndexAt(rteList, Destination, i);
    CostsOfUnique(rteList[i].hops);
    AllHopsMembers(rteList, h);
  }

  lemma HopFromView(rteList: seq<RoutingTableEntry>, h: NextHop) returns (d: Name)
    requires WellFormed(rteList) && h in AllHops(rteList)
    ensures d in ViewOf(rteList) && h.face in ViewOf(rteList)[d] && ViewOf(rteList)[d][h.face] == h.cost
  {
    AllHopsMembers(rteList, h);
    var i :| 0 <= i < |rteList| && h in rteList[i].hops;
    IndexAt(rteList, Destination, i);
    CostsOfUnique(rteList[i].hops);
    d := rteList[i].destination;
  }

  /** The collected hops are, per face, the least cost over the origins. */
  lemma CollectedIsBest(rteList: seq<RoutingTableEntry>)
    requires WellFormed(rteList)
    ensures IsBest(MinCosts(map[], AllHops(rteList)), ViewOf(rteList))
  {
    var hops, view := AllHops(rteList), ViewOf(rteList);
    var costs := MinCosts(map[], hops);
    MinCostsAreLeast(map[], hops);
    forall d, f | d in view && f in view[d]
      ensures f in costs && costs[f] <= view[d][f]
    {
      HopInView(rteList, d, NextHop(f, view[d][f]));
    }
    forall f | f in costs
      ensures exists d :: d in view && f in view[d] && view[d][f] == costs[f]
    {
      var d := HopFromView(rteList, NextHop(f, costs[f]));
    }
  }

  /** An entry has an origin, each origin once, and the best hops over all of them. */
  ghost predicate EntryValid(e: NptEntry) {
    && WellFormed(e.rteList) && e.rteList != []
    && UniqueFaces(e.hops) && Costs(e.hops) == MinCosts(map[], AllHops(e.rteList))
  }

  /** The forwarding table has an entry for exactly the prefixes with hops, holding the best of them. */
  ghost predicate FibFollows(installed: map<Name, seq<NextHop>>, index: map<Name, NptEntry>, limit: nat) {
    && installed.Keys <= index.Keys
    && forall n :: n in index ==> EntryFollowed(installed, n, index[n].hops, limit)
  }

  ghost predicate EntryFollowed(installed: map<Name, seq<NextHop>>, name: Name, hops: seq<NextHop>, limit: nat) {
    if hops == [] then name !in installed else name in installed && installed[name] == Chosen(hops, limit)
  }

  ghost predicate IndexValid(index: map<Name, NptEntry>) {
    forall n :: n in index ==> index[n].prefix == n && EntryValid(index[n])
  }

  lemma PutValid(index: map<Name, NptEntry>, e: NptEntry)
    requires IndexValid(index) && EntryValid(e)
    ensures IndexValid(index[e.prefix := e])
  {
  }

  lemma PutListed(index: map<Name, NptEntry>, e: NptEntry)
    ensures PrefixesOf(index[e.prefix := e]) == PrefixesOf(index)[e.prefix := ViewOf(e.rteList)]
  {
  }

  lemma DropListed(index: map<Name, NptEntry>, name: Name)
    ensures PrefixesOf(index - {name}) == PrefixesOf(index) - {name}
  {
  }

  /** Entering or changing one prefix, and telling the forwarding table, keeps the two in line. */
  lemma PutFollows(index: map<Name, NptEntry>, installed: map<Name, seq<NextHop>>, limit: nat, e: NptEntry)
    requires FibFollows(installed, index, limit)
    ensures e.hops == [] ==> FibFollows(installed - {e.prefix}, index[e.prefix := e], limit)
    ensures e.hops != [] ==> FibFollows(installed[e.prefix := Chosen(e.hops, limit)], index[e.prefix := e], limit)
  {
    var after := index[e.prefix := e];
    var installed' := if e.hops == [] then installed - {e.prefix} else installed[e.prefix := Chosen(e.hops, limit)];
    forall n | n in after
      ensures EntryFollowed(installed', n, after[n].hops, limit)
    {
      if n != e.prefix { assert EntryFollowed(installed, n, index[n].hops, limit); }
    }
    assert FibFollows(installed', after, limit);
  }

  lemma AbsentNotInstalled(index: map<Name, NptEntry>, installed: map<Name, seq<NextHop>>, limit: nat, name: Name)
    requires FibFollows(installed, index, limit) && name !in index
    ensures installed - {name} == installed
  {
  }

  lemma NewEntryPut(index: map<Name, NptEntry>, installed: map<Name, seq<NextHop>>, limit: nat, e: NptEntry)
    requires FibFollows(installed, index, limit) && IndexValid(index) && EntryValid(e) && e.prefix !in index
    ensures IndexValid(index[e.prefix := e])
    ensures FibFollows(if e.hops == [] then installed else installed[e.prefix := Chosen(e.hops, limit)], index[e.prefix := e], limit)
  {
    PutValid(index, e);
    PutFollows(index, installed, limit, e);
    AbsentNotInstalled(index, installed, limit, e.prefix);
  }

  lemma DropFollows(index: map<Name, NptEntry>, installed: map<Name, seq<NextHop>>, limit: nat, name: Name)
    requires FibFollows(installed, index, limit)
    ensures FibFollows(installed - {name}, index - {name}, limit)
  {
    forall n | n in index && n != name
      ensures EntryFollowed(installed - {name}, n, index[n].hops, limit)
    {
      assert EntryFollowed(installed, n, index[n].hops, limit);
    }
  }

  class NamePrefixTable {
    const rt: RoutingTable
    const fib: Fib
    var table: seq<NptEntry>

    ghost function Entries(): map<Name, NptEntry>
      reads this
    {
      Index(table, Prefix)
    }

    ghost function Listed(): Prefixes
      reads this
    {
      PrefixesOf(Entries())
    }

    ghost predicate Valid()
      reads this, rt, fib
    {
      && rt.Valid() && fib.Valid()
      && DistinctKeys(table, Prefix)
      && IndexValid(Entries())
      && FibFollows(fib.installed, Entries(), fib.maxFacesPerPrefix)
    }

    constructor (rt: RoutingTable, fib: Fib)
      requires rt.Valid() && fib.Valid() && fib.installed == map[]
      ensures Valid() && this.rt == rt && this.fib == fib && Listed() == map[]
    {
      this.rt := rt;
      this.fib := fib;
      table := [];
    }

    method FindEntry(name: Name) returns (at: int)
      requires DistinctKeys(table, Prefix)
      ensures -1 <= at < |table| && (at == -1 <==> name !in Entries())
      ensures at != -1 ==> table[at].prefix == name && Entries()[name] == table[at]
    {
      IndexKeys(table, Prefix, name);
      at := 0;
      while at < |table| && table[at].prefix != name
        invariant 0 <= at <= |table|
        invariant forall i :: 0 <= i < at ==> table[i].prefix != name
      {
        at := at + 1;
      }
      if at == |table| {
        at := -1;
      } else {
        IndexAt(table, Prefix, at);
      }
    }

    /** Collects the hops of all origins: per face, the least cost. */
    static method GenerateNhlFromRteList(rteList: seq<RoutingTableEntry>) returns (list: NexthopList)
      requires WellFormed(rteList)
      ensures fresh(list) && UniqueFaces(list.hops) && Costs(list.hops) == MinCosts(map[], AllHops(rteList))
    {
      list := new NexthopList([]);
      for i := 0 to |rteList|
        invariant fresh(list) && UniqueFaces(list.hops) && Costs(list.hops) == MinCosts(map[], AllHops(rteList[..i]))
      {
        AddNextHops(list, rteList[i].hops);
        MinCostsOfConcat(map[], AllHops(rteList[..i]), rteList[i].hops);
        assert rteList[..i + 1][..i] == rteList[..i];
      }
      assert rteList[..|rteList|] == rteList;
    }

    static method AddNextHops(list: NexthopList, hops: seq<NextHop>)
      requires UniqueFaces(list.hops)
      modifies list
      ensures UniqueFaces(list.hops) && Costs(list.hops) == MinCosts(old(Costs(list.hops)), hops)
    {
      for j := 0 to |hops|
        invariant UniqueFaces(list.hops) && Costs(list.hops) == MinCosts(old(Costs(list.hops)), hops[..j])
      {
        assert hops[..j + 1][..j] == hops[..j];
        list.AddNextHop(hops[j]);
      }
      assert hops[..|hops|] == hops;
    }

    /** Adds an origin, or gives a known one its new next hops. */
    static method AddRoutingTableEntry(rteList: seq<RoutingTableEntry>, rte: RoutingTableEntry) returns (r: seq<RoutingTableEntry>)
      requires WellFormed(rteList) && UniqueFaces(rte.hops)
      ensures WellFormed(r) && r != [] && ViewOf(r) == ViewOf(rteList)[rte.destination := Costs(rte.hops)]
      ensures rte.destination in ViewOf(rteList) ==> OnlyChanged(rteList, r, rte)
    {
      var at := FindOrigin(rteList, rte.destination);
      if at == -1 {
        AppendedView(rteList, rte);
        r := rteList + [rte];
      } else {
        var list := new NexthopList([]);
        for i := 0 to |rte.hops|
          invariant UniqueFaces(list.hops) && list.hops == rte.hops[..i]
        {
          NotYetListed(rte.hops, i);
          list.AddNextHop(rte.hops[i]);
        }
        assert rte.hops[..|rte.hops|] == rte.hops;
        ReplacedView(rteList, at, list.hops);
        r := rteList[at := rteList[at].(hops := list.hops)];
      }
    }

    static method FindOrigin(rteList: seq<RoutingTableEntry>, dest: Name) returns (at: int)
      requires WellFormed(rteList)
      ensures -1 <= at < |rteList| && (at == -1 <==> dest !in ViewOf(rteList))
      ensures at != -1 ==> rteList[at].destination == dest
    {
      IndexKeys(rteList, Destination, dest);
      at := 0;
      while at < |rteList| && rteList[at].destination != dest
        invariant 0 <= at <= |rteList|
        invariant forall i :: 0 <= i < at ==> rteList[i].destination != dest
      {
        at := at + 1;
      }
      if at == |rteList| {
        at := -1;
      }
    }

    static method RemoveRoutingTableEntry(rteList: seq<RoutingTableEntry>, dest: Name) returns (r: seq<RoutingTableEntry>)
      requires WellFormed(rteList)
      ensures WellFormed(r) && ViewOf(r) == ViewOf(rteList) - {dest}
    {
      var at := FindOrigin(rteList, dest);
      if at == -1 {
        assert ViewOf(rteList) - {dest} == ViewOf(rteList);
        r := rteList;
      } else {
        DroppedView(rteList, at);
        r := Dropped(rteList, at);
      }
    }

    /** Lists the router as an origin of the prefix, with its current next hops, and brings the forwarding
        table into line. */
    method AddEntry(name: Name, rte: RoutingTableEntry)
      requires Valid() && UniqueFaces(rte.hops)
      modifies this, fib
      ensures Valid() && Listed() == Relisted(old(Listed()), name, rte.destination, Costs(rte.hops))
      ensures name in old(Listed()) && rte.destination in old(Listed())[name] ==> OnlyRefreshed(old(table), table, name, rte)
    {
      var at := FindEntry(name);
      if at == -1 {
        assert name !in Listed();
        AddNewEntry(name, rte);
      } else {
        ChangeEntry(at, rte);
      }
    }

    method ChangeEntry(at: nat, rte: RoutingTableEntry)
      requires Valid() && UniqueFaces(rte.hops) && at < |table| && table[at].prefix in Entries() && Entries()[table[at].prefix] == table[at]
      modifies this, fib
      ensures Valid()
      ensures var name := old(table[at].prefix);
              && Listed() == Relisted(old(Listed()), name, rte.destination, Costs(rte.hops))
              && (name in old(Listed()) && rte.destination in old(Listed())[name] ==> OnlyRefreshed(old(table), table, name, rte))
    {
      ghost var was := table;
      var rteList := AddRoutingTableEntry(table[at].rteList, rte);
      PutEntry(at, rteList);
      if rte.destination in ViewOf(was[at].rteList) { OneChangedIsRefreshed(was, table, at, rte); }
    }

    method AddNewEntry(name: Name, rte: RoutingTableEntry)
      requires Valid() && UniqueFaces(rte.hops) && name !in Entries()
      modifies this, fib
      ensures Valid() && Listed() == Relisted(old(Listed()), name, rte.destination, Costs(rte.hops))
    {
      var entry, list := FirstOrigin(name, rte);
      PutListed(Entries(), entry);
      PushEntry(entry, list, |rte.hops| > 0);
    }

    method PushEntry(entry: NptEntry, list: NexthopList, reachable: bool)
      requires Valid() && EntryValid(entry) && entry.prefix !in Entries()
      requires entry.hops == list.hops && reachable == (entry.hops != [])
      modifies this, fib, list
      ensures Valid() && Entries() == old(Entries())[entry.prefix := entry]
    {
      ghost var after := Entries()[entry.prefix := entry];
      IndexAppended(table, Prefix, entry);
      NewEntryPut(Entries(), fib.installed, fib.maxFacesPerPrefix, entry);
      table := table + [entry];
      assert Entries() == after;
      EnterInFib(entry.prefix, list, reachable);
    }

    method EnterInFib(name: Name, list: NexthopList, reachable: bool)
      requires fib.Valid() && UniqueFaces(list.hops) && reachable == (list.hops != [])
      modifies fib, list
      ensures fib.Valid()
      ensures fib.installed == if old(list.hops) == [] then old(fib.installed)
                               else old(fib.installed)[name := Chosen(old(list.hops), fib.maxFacesPerPrefix)]
    {
      if reachable {
        fib.Update(name, list);
      }
    }

    static method FirstOrigin(name: Name, rte: RoutingTableEntry) returns (entry: NptEntry, list: NexthopList)
      requires UniqueFaces(rte.hops)
      ensures fresh(list) && entry.prefix == name && entry.hops == list.hops && EntryValid(entry)
      ensures ViewOf(entry.rteList) == map[rte.destination := Costs(rte.hops)]
      ensures entry.hops == [] <==> rte.hops == []
    {
      var rteList := AddRoutingTableEntry([], rte);
      assert ViewOf([]) == map[];
      list := GenerateNhlFromRteList(rteList);
      list.Sort();
      entry := NptEntry(name, rteList, list.hops);
      SingleOrigin(rteList, rte, list.hops);
    }

    /** Gives an existing entry these origins, at least one, with the next hops that follow. */
    method PutEntry(at: nat, rteList: seq<RoutingTableEntry>)
      requires Valid() && at < |table| && WellFormed(rteList) && rteList != []
      modifies this, fib
      ensures Valid() && Listed() == old(Listed())[old(table[at].prefix) := ViewOf(rteList)]
      ensures |table| == |old(table)| && table == old(table)[at := table[at]]
      ensures table[at].rteList == rteList && table[at].prefix == old(table[at].prefix)
    {
      var name := table[at].prefix;
      var list := GenerateNhlFromRteList(rteList);
      list.Sort();
      var entry := NptEntry(name, rteList, list.hops);
      assert EntryValid(entry);
      ReplaceEntry(at, entry, list);
    }

    method ReplaceEntry(at: nat, entry: NptEntry, list: NexthopList)
      requires Valid() && at < |table| && entry.prefix == table[at].prefix && EntryValid(entry) && entry.hops == list.hops
      modifies this, fib, list
      ensures Valid() && Listed() == old(Listed())[entry.prefix := ViewOf(entry.rteList)]
      ensures table == old(table)[at := entry]
    {
      IndexReplaced(table, Prefix, at, entry);
      PutValid(Entries(), entry);
      PutListed(Entries(), entry);
      PutFollows(Entries(), fib.installed, fib.maxFacesPerPrefix, entry);
      table := table[at := entry];
      UpdateFib(entry.prefix, list);
    }

    method UpdateFib(name: Name, list: NexthopList)
      requires fib.Valid() && UniqueFaces(list.hops)
      modifies fib, list
      ensures fib.Valid()
      ensures fib.installed == if old(list.hops) == [] then old(fib.installed) - {name}
                               else old(fib.installed)[name := Chosen(old(list.hops), fib.maxFacesPerPrefix)]
    {
      if list.hops != [] {
        fib.Update(name, list);
      } else {
        fib.Remove(name);
      }
    }

    /** Takes the router off the prefix's origins. With no origin left the prefix leaves both tables. */
    method RemoveEntry(name: Name, dest: Name)
      requires Valid()
      modifies this, fib
      ensures Valid() && Listed() == Delisted(old(Listed()), name, dest)
    {
      var at := FindEntry(name);
      if at != -1 {
        var rteList := RemoveRoutingTableEntry(table[at].rteList, dest);
        NoOrigins(rteList);
        if |rteList| == 0 {
          DropEntry(at);
        } else {
          PutEntry(at, rteList);
        }
      }
    }

    method DropEntry(at: nat)
      requires Valid() && at < |table|
      modifies this, fib
      ensures Valid() && Listed() == old(Listed()) - {old(table[at].prefix)}
    {
      var name := table[at].prefix;
      IndexDropped(table, Prefix, at);
      DropListed(Entries(), name);
      DropFollows(Entries(), fib.installed, fib.maxFacesPerPrefix, name);
      table := Dropped(table, at);
      fib.Remove(name);
    }

    method AddOrigin(name: Name, destRouter: Name)
      requires Valid()
      modifies this, fib
      ensures Valid() && Listed() == Relisted(old(Listed()), name, destRouter, Towards(ViewOf(rt.entries), destRouter))
      ensures name in old(Listed()) && destRouter in old(Listed())[name] ==>
                exists rte: RoutingTableEntry :: rte.destination == destRouter && Costs(rte.hops) == Towards(ViewOf(rt.entries), destRouter)
                              && OnlyRefreshed(old(table), table, name, rte)
    {
      var found := rt.FindRoutingTableEntry(destRouter);
      var rte := if found == -1 then RoutingTableEntry(destRouter, []) else rt.entries[found];
      AddEntry(name, rte);
    }

    method RemoveOrigin(name: Name, destRouter: Name)
      requires Valid()
      modifies this, fib
      ensures Valid() && Listed() == Delisted(old(Listed()), name, destRouter)
    {
      RemoveEntry(name, destRouter);
    }

    /** Gives every origin of every prefix the next hops the routing table now has for it. */
    method UpdateWithNewRoute()
      requires Valid()
      modifies this, fib
      ensures Valid() && SameOrigins(Listed(), old(Listed())) && IsCurrent(Listed(), ViewOf(rt.entries))
    {
      ghost var view := ViewOf(rt.entries);
      for i := 0 to |table|
        invariant Valid() && ViewOf(rt.entries) == view && |table| == |old(table)|
        invariant SameShape(table, old(table)) && RefreshedUpTo(table, view, i, 0)
      {
        UpdateOrigins(i);
        ShapesChain(table, old(table));
      }
      ShapeKeepsOrigins(table, old(table));
      RefreshedIsCurrent(table, view);
    }

    method UpdateOrigins(i: nat)
      requires Valid() && i < |table| && RefreshedUpTo(table, ViewOf(rt.entries), i, 0)
      modifies this, fib
      ensures Valid() && SameShape(table, old(table)) && RefreshedUpTo(table, ViewOf(rt.entries), i + 1, 0)
    {
      var prefix, count := table[i].prefix, |table[i].rteList|;
      for j := 0 to count
        invariant Valid() && SameShape(table, old(table)) && RefreshedUpTo(table, ViewOf(rt.entries), i, j)
        invariant table[i].prefix == prefix && |table[i].rteList| == count
      {
        UpdateOrigin(i, j);
      }
    }

    method UpdateOrigin(i: nat, j: nat)
      requires Valid() && i < |table| && j < |table[i].rteList| && RefreshedUpTo(table, ViewOf(rt.entries), i, j)
      modifies this, fib
      ensures Valid() && SameShape(table, old(table)) && RefreshedUpTo(table, ViewOf(rt.entries), i, j + 1)
    {
      var prefix, dest := table[i].prefix, table[i].rteList[j].destination;
      IndexAt(table, Prefix, i);
      IndexAt(table[i].rteList, Destination, j);
      ghost var before := table;
      AddOrigin(prefix, dest);
      ghost var rte: RoutingTableEntry :| rte.destination == dest && Costs(rte.hops) == Towards(ViewOf(rt.entries), dest)
                                          && OnlyRefreshed(before, table, prefix, rte);
      RefreshStep(before, table, rte, ViewOf(rt.entries), i, j);
    }
  }

  /** Every listed origin has the next hops the routing table now gives it. */
  ghost predicate IsCurrent(listed: Prefixes, view: View) {
    forall n, d :: n in listed && d in listed[n] ==> listed[n][d] == Towards(view, d)
  }

  ghost predicate SameOrigins(a: Prefixes, b: Prefixes) {
    a.Keys == b.Keys && forall n :: n in a ==> a[n].Keys == b[n].Keys
  }

  ghost predicate SameDestinations(a: seq<RoutingTableEntry>, b: seq<RoutingTableEntry>) {
    |a| == |b| && forall i :: 0 <= i < |a| ==> a[i].destination == b[i].destination
  }

  ghost predicate SameShape(a: seq<NptEntry>, b: seq<NptEntry>) {
    && |a| == |b|
    && forall i :: 0 <= i < |a| ==> a[i].prefix == b[i].prefix && SameDestinations(a[i].rteList, b[i].rteList)
  }

  ghost predicate FreshUpTo(rteList: seq<RoutingTableEntry>, view: View, j: nat) {
    forall x :: 0 <= x < j && x < |rteList| ==> Costs(rteList[x].hops) == Towards(view, rteList[x].destination)
  }

  /** The first i entries, and the first j origins of the next one, are up to date. */
  ghost predicate RefreshedUpTo(table: seq<NptEntry>, view: View, i: nat, j: nat) {
    && (forall x :: 0 <= x < i && x < |table| ==> FreshUpTo(table[x].rteList, view, |table[x].rteList|))
    && (i < |table| ==> FreshUpTo(table[i].rteList, view, j))
  }

  lemma RefreshStep(before: seq<NptEntry>, after: seq<NptEntry>, rte: RoutingTableEntry, view: View, i: nat, j: nat)
    requires DistinctKeys(before, Prefix) && i < |before| && j < |before[i].rteList|
    requires before[i].rteList[j].destination == rte.destination && Costs(rte.hops) == Towards(view, rte.destination)
    requires OnlyRefreshed(before, after, before[i].prefix, rte) && RefreshedUpTo(before, view, i, j)
    ensures SameShape(after, before) && RefreshedUpTo(after, view, i, j + 1)
  {
    forall x | 0 <= x < |before|
      ensures after[x].prefix == before[x].prefix && SameDestinations(after[x].rteList, before[x].rteList)
      ensures x != i ==> after[x] == before[x]
    {
      if x != i { assert Prefix(before[x]) != Prefix(before[i]); }
    }
    assert OnlyChanged(before[i].rteList, after[i].rteList, rte);
  }

  lemma ShapesChain(a: seq<NptEntry>, b: seq<NptEntry>)
    requires SameShape(a, b)
    ensures SameShape(b, a)
  {
  }

  lemma {:induction false} SameDestinationsSameKeys(a: seq<RoutingTableEntry>, b: seq<RoutingTableEntry>)
    requires SameDestinations(a, b)
    ensures ViewOf(a).Keys == ViewOf(b).Keys
  {
    forall d
      ensures d in ViewOf(a) <==> d in ViewOf(b)
    {
      IndexKeys(a, Destination, d);
      IndexKeys(b, Destination, d);
      if d in ViewOf(a) {
        var i :| 0 <= i < |a| && Destination(a[i]) == d;
        assert Destination(b[i]) == d;
      }
      if d in ViewOf(b) {
        var i :| 0 <= i < |b| && Destination(b[i]) == d;
        assert Destination(a[i]) == d;
      }
    }
  }

  lemma ShapeKeepsOrigins(a: seq<NptEntry>, b: seq<NptEntry>)
    requires SameShape(a, b) && DistinctKeys(a, Prefix) && DistinctKeys(b, Prefix)
    ensures SameOrigins(PrefixesOf(Index(a, Prefix)), PrefixesOf(Index(b, Prefix)))
  {
    var ia, ib := Index(a, Prefix), Index(b, Prefix);
    assert forall i :: 0 <= i < |a| ==> Prefix(a[i]) == Prefix(b[i]);
    forall n
      ensures n in ia <==> n in ib
      ensures n in ia ==> ViewOf(ia[n].rteList).Keys == ViewOf(ib[n].rteList).Keys
    {
      IndexKeys(a, Prefix, n);
      IndexKeys(b, Prefix, n);
      if i :| 0 <= i < |a| && Prefix(a[i]) == n {
        IndexAt(a, Prefix, i);
        IndexAt(b, Prefix, i);
        SameDestinationsSameKeys(a[i].rteList, b[i].rteList);
      }
    }
  }

  lemma RefreshedIsCurrent(table: seq<NptEntry>, view: View)
    requires DistinctKeys(table, Prefix) && IndexValid(Index(table, Prefix)) && RefreshedUpTo(table, view, |table|, 0)
    ensures IsCurrent(PrefixesOf(Index(table, Prefix)), view)
  {
    var index := Index(table, Prefix);
    forall n, d | n in index && d in ViewOf(index[n].rteList)
      ensures ViewOf(index[n].rteList)[d] == Towards(view, d)
    {
      IndexKeys(table, Prefix, n);
      var i :| 0 <= i < |table| && Prefix(table[i]) == n;
      IndexAt(table, Prefix, i);
      FreshOrigin(table[i].rteList, view, d);
    }
  }

  lemma FreshOrigin(rteList: seq<RoutingTableEntry>, view: View, d: Name)
    requires WellFormed(rteList) && FreshUpTo(rteList, view, |rteList|) && d in ViewOf(rteList)
    ensures ViewOf(rteList)[d] == Towards(view, d)
  {
    IndexKeys(rteList, Destination, d);
    var j :| 0 <= j < |rteList| && Destination(rteList[j]) == d;
    IndexAt(rteList, Destination, j);
  }

  /** What the routing table says about some routers. */
  ghost function Routes(view: View, origins: set<Name>): View {
    map d | d in origins :: Towards(view, d)
  }

  /** Between calculations: every entry's hops are, per face, the least cost over its origins of the routing
      table's next hops, and the forwarding table holds the best few of them, or no entry if there are none. */
  lemma TablesAgree(index: map<Name, NptEntry>, installed: map<Name, seq<NextHop>>, limit: nat, view: View, n: Name)
    requires IndexValid(index) && FibFollows(installed, index, limit) && IsCurrent(PrefixesOf(index), view)
    ensures n !in index ==> n !in installed
    ensures n in index ==>
              var origins := ViewOf(index[n].rteList).Keys;
              && origins != {} && IsBest(Costs(index[n].hops), Routes(view, origins))
              && if index[n].hops == [] then n !in installed else n in installed && installed[n] == Chosen(index[n].hops, limit)
  {
    if n in index {
      assert EntryFollowed(installed, n, index[n].hops, limit);
      assert EntryValid(index[n]);
      CollectedIsBest(index[n].rteList);
      NoOrigins(index[n].rteList);
      OriginsCurrent(PrefixesOf(index), view, n);
    }
  }

  lemma OriginsCurrent(listed: Prefixes, view: View, n: Name)
    requires IsCurrent(listed, view) && n in listed
    ensures listed[n] == Routes(view, listed[n].Keys)
  {
  }

  /** r is rteList with only the one origin's hops replaced. */
  ghost predicate OnlyChanged(rteList: seq<RoutingTableEntry>, r: seq<RoutingTableEntry>, rte: RoutingTableEntry) {
    && |r| == |rteList|
    && forall i :: 0 <= i < |r| ==> r[i] == if rteList[i].destination == rte.destination then rte else rteList[i]
  }

  ghost predicate OnlyRefreshed(before: seq<NptEntry>, after: seq<NptEntry>, name: Name, rte: RoutingTableEntry) {
    && |after| == |before|
    && forall i :: 0 <= i < |after| ==>
         && after[i].prefix == before[i].prefix
         && if before[i].prefix == name then OnlyChanged(before[i].rteList, after[i].rteList, rte) else after[i] == before[i]
  }

  lemma OneChangedIsRefreshed(before: seq<NptEntry>, after: seq<NptEntry>, at: nat, rte: RoutingTableEntry)
    requires DistinctKeys(before, Prefix) && at < |before| == |after| && after == before[at := after[at]]
    requires after[at].prefix == before[at].prefix && OnlyChanged(before[at].rteList, after[at].rteList, rte)
    ensures OnlyRefreshed(before, after, before[at].prefix, rte)
  {
    forall i | 0 <= i < |after| && i != at
      ensures after[i] == before[i] && before[i].prefix != before[at].prefix
    {
      assert Prefix(before[i]) != Prefix(before[at]);
    }
  }

  ghost function OriginsOf(listed: Prefixes, name: Name): View {
    if name in listed then listed[name] else map[]
  }

  ghost function Relisted(listed: Prefixes, name: Name, dest: Name, costs: map<string, nat>): Prefixes {
    listed[name := OriginsOf(listed, name)[dest := costs]]
  }

  ghost function Delisted(listed: Prefixes, name: Name, dest: Name): Prefixes {
    if name !in listed then listed
    else if listed[name] - {dest} == map[] then listed - {name}
    else listed[name := listed[name] - {dest}]
  }

  lemma SingleOrigin(rteList: seq<RoutingTableEntry>, rte: RoutingTableEntry, hops: seq<NextHop>)
    requires WellFormed(rteList) && ViewOf(rteList) == map[rte.destination := Costs(rte.hops)] && UniqueFaces(rte.hops)
    requires UniqueFaces(hops) && Costs(hops) == MinCosts(map[], AllHops(rteList))
    ensures hops == [] <==> rte.hops == []
  {
    CollectedIsBest(rteList);
    CostsOfUnique(hops);
    CostsOfUnique(rte.hops);
    var view := ViewOf(rteList);
    if rte.hops != [] {
      assert rte.hops[0] in rte.hops;
      assert rte.destination in view && rte.hops[0].face in view[rte.destination];
      assert rte.hops[0].face in Costs(hops);
    }
    if hops != [] {
      assert hops[0] in hops;
      var d :| d in view && hops[0].face in view[d];
      assert hops[0].face in Costs(rte.hops);
    }
  }

  lemma NoOrigins(rteList: seq<RoutingTableEntry>)
    requires WellFormed(rteList)
    ensures rteList == [] <==> ViewOf(rteList) == map[]
  {
    if rteList != [] {
      IndexAt(rteList, Destination, 0);
      assert rteList[0].destination in ViewOf(rteList);
    }
  }
}
