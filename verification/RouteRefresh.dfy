/** Recalculation of the routing table and what follows from it for the forwarder (RoutingTable::calculate
    in src/route/routing-table.cpp, link-state routing only). */
module RouteRefresh {
  import opened Names
  import opened Graphs
  import opened ShortestTrees
  import opened RouteOffers
  import opened Hops
  import opened Listings
  import opened RouterMaps
  import opened AdjacencyLists
  import opened RoutingTables
  import opened RouteCalculation
  import opened NamePrefixes
  import opened Fibs
  import opened LsaLists
  import opened Lsdbs
  import opened AdjacencyCosts
  import opened Convergence

  /** The adjacency LSAs as the calculation reads them. */
  function AdjLsas(lsas: seq<Stored<seq<Adjacent>>>): (r: seq<AdjLsa>)
    ensures |r| == |lsas| && forall i :: 0 <= i < |r| ==> r[i] == AdjLsa(lsas[i].origin, ReadAll(lsas[i].content))
  {
    seq(|lsas|, i requires 0 <= i < |lsas| => AdjLsa(lsas[i].origin, ReadAll(lsas[i].content)))
  }

  /** The scheduled calculation runs. Without an own adjacency LSA the table is emptied; while a build of one
      is scheduled nothing happens, and the request is dropped; otherwise the table is recalculated. In the
      first and the last case every listed origin gets its new next hops. */
  method Calculate(lsdb: Lsdb, isBuildAdjLsaScheduled: bool, faceUris: map<Name, string>) returns (ghost made: Option<Outcome>)
    requires lsdb.Valid() && lsdb.due.pendingCalculations > 0
    modifies lsdb.npt, lsdb.npt.rt, lsdb.npt.fib, lsdb.due
    ensures lsdb.Valid() && SameOrigins(lsdb.npt.Listed(), old(lsdb.npt.Listed()))
    ensures !lsdb.due.isRouteCalculationScheduled && (old(lsdb.due.Valid()) ==> lsdb.due.Valid())
    ensures made.Some? <==> lsdb.thisRouter in lsdb.Adjs().index && !isBuildAdjLsaScheduled
    ensures made.Some? ==>
              IsOutcome(made.value, ViewOf(lsdb.npt.rt.entries), AdjLsas(lsdb.adjLsas.lsas), faceUris, lsdb.thisRouter,
                        lsdb.npt.fib.maxFacesPerPrefix)
    ensures made.Some? ==> forall p :: Routed(lsdb, made.value, p)
    ensures lsdb.thisRouter !in lsdb.Adjs().index ==> ViewOf(lsdb.npt.rt.entries) == map[]
    ensures made.None? && lsdb.thisRouter in lsdb.Adjs().index ==>
              lsdb.npt.rt.entries == old(lsdb.npt.rt.entries) && lsdb.npt.table == old(lsdb.npt.table)
  {
    made := None;
    lsdb.due.Finish();
    var at := lsdb.adjLsas.Find(lsdb.thisRouter);
    if at == -1 {
      EmptyTable(lsdb);
    } else if !isBuildAdjLsaScheduled {
      ghost var o := RefreshTable(lsdb, at, faceUris);
      made := Some(o);
      forall p
        ensures Routed(lsdb, o, p)
      {
        DatabaseRoutes(lsdb, o, faceUris, p);
      }
    }
  }

  method EmptyTable(lsdb: Lsdb)
    requires lsdb.Valid()
    modifies lsdb.npt, lsdb.npt.rt, lsdb.npt.fib
    ensures lsdb.Valid() && SameOrigins(lsdb.npt.Listed(), old(lsdb.npt.Listed()))
    ensures ViewOf(lsdb.npt.rt.entries) == map[]
  {
    ghost var listed, advertised, stored := lsdb.npt.Listed(), AdvertisedBy(lsdb.Names().index), lsdb.StoredOrigins();
    lsdb.npt.rt.ClearRoutingTable();
    lsdb.npt.UpdateWithNewRoute();
    SameOriginsListing(listed, lsdb.npt.Listed(), advertised, stored, lsdb.thisRouter);
  }

  method RefreshTable(lsdb: Lsdb, ownAt: nat, faceUris: map<Name, string>) returns (ghost o: Outcome)
    requires lsdb.Valid() && ownAt < |lsdb.adjLsas.lsas| && lsdb.adjLsas.lsas[ownAt].origin == lsdb.thisRouter
    modifies lsdb.npt, lsdb.npt.rt, lsdb.npt.fib
    ensures lsdb.Valid() && SameOrigins(lsdb.npt.Listed(), old(lsdb.npt.Listed()))
    ensures IsOutcome(o, ViewOf(lsdb.npt.rt.entries), AdjLsas(lsdb.adjLsas.lsas), faceUris, lsdb.thisRouter,
                      lsdb.npt.fib.maxFacesPerPrefix)
  {
    ghost var listed, advertised, stored := lsdb.npt.Listed(), AdvertisedBy(lsdb.Names().index), lsdb.StoredOrigins();
    var lsas := AdjLsas(lsdb.adjLsas.lsas);
    MentionedMembers(lsas, ownAt);
    o := ReplaceRoutes(lsdb.npt, lsas, faceUris, lsdb.thisRouter);
    SameOriginsListing(listed, lsdb.npt.Listed(), advertised, stored, lsdb.thisRouter);
  }

  method ReplaceRoutes(npt: NamePrefixTable, lsas: seq<AdjLsa>, faceUris: map<Name, string>, thisRouter: Name) returns (ghost o: Outcome)
    requires npt.Valid() && thisRouter in Mentioned(lsas)
    modifies npt, npt.rt, npt.fib
    ensures npt.Valid() && SameOrigins(npt.Listed(), old(npt.Listed())) && IsCurrent(npt.Listed(), ViewOf(npt.rt.entries))
    ensures IsOutcome(o, ViewOf(npt.rt.entries), lsas, faceUris, thisRouter, npt.fib.maxFacesPerPrefix)
  {
    npt.rt.ClearRoutingTable();
    o := CalculateLsRoutingTable(lsas, faceUris, thisRouter, npt.fib.maxFacesPerPrefix, npt.rt);
    npt.UpdateWithNewRoute();
  }

  lemma SameOriginsListing(listed: Prefixes, after: Prefixes, advertised: map<Name, set<Name>>, stored: Keepers, own: Name)
    requires ListingOk(listed, advertised, stored, own) && SameOrigins(after, listed)
    ensures ListingOk(after, advertised, stored, own)
  {
    assert forall p, r :: Lists(after, p, r) <==> Lists(listed, p, r);
  }

  // ----- from the adjacency LSAs to the forwarder -----

  lemma DistanceExists(g: Matrix, s: int, t: int) returns (d: nat)
    ensures IsCappedDistance(g, s, t, d)
  {
    d := 0;
    while d < INF_DISTANCE && !exists p :: IsPath(g, p, s, t) && Cost(g, p) == d
      invariant d <= INF_DISTANCE && forall p :: IsPath(g, p, s, t) ==> d <= Cost(g, p)
    {
      d := d + 1;
    }
  }

  /** The router is within reach at least cost d. */
  ghost predicate WithinReach(o: Outcome, r: Name, d: nat) {
    exists i :: 0 <= i < |o.names| && i != o.source && o.names[i] == r && d < INF_DISTANCE && IsCappedDistance(o.g, o.source, i, d)
  }

  /** costs are empty exactly if the router is out of reach; otherwise the least of them is its distance. */
  ghost predicate MinimumIsDistance(o: Outcome, r: Name, costs: map<string, nat>) {
    && (costs != map[] ==> exists d: nat :: WithinReach(o, r, d))
    && (forall d: nat, f :: WithinReach(o, r, d) && f in costs ==> d <= costs[f])
    && forall d: nat :: WithinReach(o, r, d) ==> exists f :: f in costs && costs[f] == d
  }

  lemma RouterCosts(o: Outcome, view: View, lsas: seq<AdjLsa>, faceUris: map<Name, string>, thisRouter: Name, maxFaces: nat, r: Name)
    requires IsOutcome(o, view, lsas, faceUris, thisRouter, maxFaces)
    ensures MinimumIsDistance(o, r, Towards(view, r))
  {
    if i :| 0 <= i < |o.names| && i != o.source && o.names[i] == r {
      var d := DistanceExists(o.g, o.source, i);
      LeastCostIsDistance(o, view, lsas, faceUris, thisRouter, maxFaces, i, d);
      ReachIsDistance(o, i, d);
      assert d < INF_DISTANCE ==> WithinReach(o, r, d);
    } else {
      assert r !in view;
    }
  }

  lemma LeastCostIsDistance(o: Outcome, view: View, lsas: seq<AdjLsa>, faceUris: map<Name, string>, thisRouter: Name, maxFaces: nat,
                            i: nat, d: nat)
    requires IsOutcome(o, view, lsas, faceUris, thisRouter, maxFaces)
    requires i < |o.names| && i != o.source && IsCappedDistance(o.g, o.source, i, d)
    ensures var costs := Towards(view, o.names[i]);
            && (forall f :: f in costs ==> d <= costs[f] && d < INF_DISTANCE)
            && (d < INF_DISTANCE ==> exists f :: f in costs && costs[f] == d)
  {
    if maxFaces == 1 {
      SinglePathTable(o, view, lsas, faceUris, thisRouter, i, d);
      if d < INF_DISTANCE {
        var h :| IsFirstHop(o.g, o.source, i, h, d) && view[o.names[i]] == map[FaceOf(faceUris, o.names[h]) := d];
        assert FaceOf(faceUris, o.names[h]) in Towards(view, o.names[i]);
      }
    } else {
      MultiPathMinimumIsDistance(o, view, lsas, faceUris, thisRouter, maxFaces, i, d);
    }
  }

  lemma ReachIsDistance(o: Outcome, i: nat, d: nat)
    requires NoDuplicates(o.names) && i < |o.names| && i != o.source && IsCappedDistance(o.g, o.source, i, d)
    ensures forall e :: WithinReach(o, o.names[i], e) ==> e == d
  {
    forall e | WithinReach(o, o.names[i], e)
      ensures e == d
    {
      var j :| 0 <= j < |o.names| && j != o.source && o.names[j] == o.names[i] && IsCappedDistance(o.g, o.source, j, e);
      assert i == j;
      CappedDistanceUnique(o.g, o.source, i, d, e);
    }
  }

  ghost predicate SomeWithinReach(o: Outcome, origins: set<Name>, d: nat) {
    exists r :: r in origins && WithinReach(o, r, d)
  }

  /** The installed hops lead to the origins: none if no origin is within reach, and otherwise the cheapest
      costs what the nearest origin's distance is. */
  ghost predicate LeadTo(chosen: seq<NextHop>, o: Outcome, origins: set<Name>) {
    && (forall h :: h in chosen ==> exists d: nat :: SomeWithinReach(o, origins, d) && d <= h.cost)
    && forall d: nat :: SomeWithinReach(o, origins, d) ==> exists h :: h in chosen && h.cost <= d
  }

  lemma BestLeadTo(hops: seq<NextHop>, limit: nat, view: View, origins: set<Name>, o: Outcome)
    requires UniqueFaces(hops) && IsBest(Costs(hops), Routes(view, origins))
    requires forall r :: r in origins ==> MinimumIsDistance(o, r, Towards(view, r))
    ensures LeadTo(Chosen(hops, limit), o, origins)
  {
    ChosenIsUnique(hops, limit);
    forall d: nat | SomeWithinReach(o, origins, d)
      ensures exists h :: h in Chosen(hops, limit) && h.cost <= d
    {
      var r :| r in origins && WithinReach(o, r, d);
      var h := HopTowards(hops, view, origins, r, d);
      var c := CheapestChosen(hops, limit, h);
    }
    forall h | h in Chosen(hops, limit)
      ensures exists d: nat :: SomeWithinReach(o, origins, d) && d <= h.cost
    {
      var r := OriginOf(hops, view, origins, h);
      assert h.face in Towards(view, r) && Towards(view, r) != map[];
      var d: nat :| WithinReach(o, r, d);
      assert SomeWithinReach(o, origins, d);
    }
  }

  /** After a calculation, the forwarder has a route for a prefix exactly if one of the routers listed under
      it is within reach, and the cheapest of its hops then costs the least of their distances. */
  lemma PrefixRoutes(index: map<Name, NptEntry>, installed: map<Name, seq<NextHop>>, limit: nat,
                     o: Outcome, view: View, lsas: seq<AdjLsa>, faceUris: map<Name, string>, thisRouter: Name, p: Name)
    requires IndexValid(index) && FibFollows(installed, index, limit) && IsCurrent(PrefixesOf(index), view)
    requires IsOutcome(o, view, lsas, faceUris, thisRouter, limit)
    ensures p in installed ==> p in index && installed[p] != []
    ensures p in index ==>
              LeadTo(if p in installed then installed[p] else [], o, PrefixesOf(index)[p].Keys)
  {
    TablesAgree(index, installed, limit, view, p);
    if p in index {
      var hops, origins := index[p].hops, PrefixesOf(index)[p].Keys;
      assert EntryValid(index[p]);
      ChosenIsUnique(hops, limit);
      forall r | r in origins
        ensures MinimumIsDistance(o, r, Towards(view, r))
      {
        RouterCosts(o, view, lsas, faceUris, thisRouter, limit, r);
      }
      BestLeadTo(hops, limit, view, origins, o);
    }
  }

  /** The routers whose stored Name LSA has the prefix. */
  ghost function Advertisers(advertised: map<Name, set<Name>>, own: Name, p: Name): set<Name> {
    set r | r in advertised && r != own && p in advertised[r]
  }

  /** Where packets for a prefix are to go: to the routers advertising it and, if it is a router's name, to that
      router while it is listed under it. For this router's own name there are no routes. */
  ghost function Destinations(listed: Prefixes, advertised: map<Name, set<Name>>, own: Name, p: Name): set<Name> {
    if p == own then {} else (Advertisers(advertised, own, p) - {p}) + if Lists(listed, p, p) then {p} else {}
  }

  /** For a prefix that is no router's name these are the advertisers; and while each router is listed under its
      name as long as an LSA of it is stored, a router's name leads to that router if one is. */
  lemma OriginsAreAdvertisers(listed: Prefixes, advertised: map<Name, set<Name>>, stored: Keepers, own: Name, p: Name)
    requires ListingOk(listed, advertised, stored, own)
    ensures OriginsOf(listed, p).Keys == Destinations(listed, advertised, own, p)
    ensures p != own && !Stores(stored, p) && advertised.Keys <= stored.names ==>
              Destinations(listed, advertised, own, p) == Advertisers(advertised, own, p)
    ensures p != own && SelfListed(listed, stored, own) ==>
              (p in Destinations(listed, advertised, own, p) <==> Stores(stored, p))
  {
    forall r
      ensures r in OriginsOf(listed, p).Keys <==> r in Destinations(listed, advertised, own, p)
    {
      assert Lists(listed, p, r) <==> r in OriginsOf(listed, p).Keys;
    }
  }

  /** From the database to the forwarder: a prefix has a route exactly if a router it leads to is within reach,
      and the cheapest of its hops costs the distance of the nearest one. */
  lemma AdvertisedPrefixRoutes(index: map<Name, NptEntry>, installed: map<Name, seq<NextHop>>, limit: nat,
                               o: Outcome, view: View, lsas: seq<AdjLsa>, faceUris: map<Name, string>,
                               advertised: map<Name, set<Name>>, stored: Keepers, own: Name, p: Name)
    requires IndexValid(index) && FibFollows(installed, index, limit) && IsCurrent(PrefixesOf(index), view)
    requires IsOutcome(o, view, lsas, faceUris, own, limit)
    requires ListingOk(PrefixesOf(index), advertised, stored, own)
    ensures IsRouted(installed, p, o, Destinations(PrefixesOf(index), advertised, own, p))
  {
    PrefixRoutes(index, installed, limit, o, view, lsas, faceUris, own, p);
    OriginsAreAdvertisers(PrefixesOf(index), advertised, stored, own, p);
    var origins := Destinations(PrefixesOf(index), advertised, own, p);
    assert if p in index then PrefixesOf(index)[p].Keys == origins else origins == {};
    LeadingIsRouted(installed, p, o, origins);
  }

  lemma LeadingIsRouted(installed: map<Name, seq<NextHop>>, p: Name, o: Outcome, destinations: set<Name>)
    requires p in installed ==> installed[p] != []
    requires LeadTo(if p in installed then installed[p] else [], o, destinations)
    ensures IsRouted(installed, p, o, destinations)
  {
    if p in installed {
      assert installed[p][0] in installed[p];
    }
  }

  /** The prefix has a route exactly if a destination is within reach, the cheapest at the distance of the
      nearest. */
  ghost predicate IsRouted(installed: map<Name, seq<NextHop>>, p: Name, o: Outcome, destinations: set<Name>) {
    && (p in installed <==> exists d: nat :: SomeWithinReach(o, destinations, d))
    && (p in installed ==> LeadTo(installed[p], o, destinations))
  }

  /** The forwarder's routes for a prefix are right. */
  ghost predicate Routed(lsdb: Lsdb, o: Outcome, p: Name)
    reads lsdb.nameLsas, lsdb.npt, lsdb.npt.fib
  {
    IsRouted(lsdb.npt.fib.installed, p, o, Destinations(lsdb.npt.Listed(), AdvertisedBy(lsdb.Names().index), lsdb.thisRouter, p))
  }

  /** So it is for a valid database whose routing table holds a calculation on its own LSAs. */
  lemma DatabaseRoutes(lsdb: Lsdb, o: Outcome, faceUris: map<Name, string>, p: Name)
    requires lsdb.Valid()
    requires IsOutcome(o, ViewOf(lsdb.npt.rt.entries), AdjLsas(lsdb.adjLsas.lsas), faceUris, lsdb.thisRouter,
                       lsdb.npt.fib.maxFacesPerPrefix)
    ensures Routed(lsdb, o, p)
  {
    var npt := lsdb.npt;
    AdvertisedPrefixRoutes(npt.Entries(), npt.fib.installed, npt.fib.maxFacesPerPrefix, o, ViewOf(npt.rt.entries),
                           AdjLsas(lsdb.adjLsas.lsas), faceUris, AdvertisedBy(lsdb.Names().index), lsdb.StoredOrigins(),
                           lsdb.thisRouter, p);
  }

  // ----- databases of different routers -----

  /** Databases that agree on what they hold give the calculation the same LSAs, in whatever order. */
  lemma HeldAlike(a: seq<Stored<seq<Adjacent>>>, b: seq<Stored<seq<Adjacent>>>)
    requires DistinctKeys(a, Origin) && DistinctKeys(b, Origin)
    requires LinksClean(Index(a, Origin)) && LinksClean(Index(b, Origin))
    requires HeldLinks(Index(a, Origin)) == HeldLinks(Index(b, Origin))
    ensures SameHeld(AdjLsas(a), AdjLsas(b))
  {
    StoredKept(a);
    StoredKept(b);
    HoldingsWithin(a, b);
    HoldingsWithin(b, a);
  }

  lemma StoredKept(a: seq<Stored<seq<Adjacent>>>)
    requires DistinctKeys(a, Origin) && LinksClean(Index(a, Origin))
    ensures Kept(AdjLsas(a))
  {
    var lsas := AdjLsas(a);
    forall x, y | 0 <= x < y < |lsas|
      ensures lsas[x].origin != lsas[y].origin
    {
      assert Origin(a[x]) != Origin(a[y]);
    }
    forall i | 0 <= i < |lsas|
      ensures OnePerNeighbour(lsas[i].adjacents)
    {
      IndexAt(a, Origin, i);
    }
  }

  lemma HoldingsWithin(a: seq<Stored<seq<Adjacent>>>, b: seq<Stored<seq<Adjacent>>>)
    requires DistinctKeys(a, Origin) && DistinctKeys(b, Origin) && HeldLinks(Index(a, Origin)) == HeldLinks(Index(b, Origin))
    ensures Holdings(AdjLsas(a)) <= Holdings(AdjLsas(b))
  {
    forall h | h in Holdings(AdjLsas(a))
      ensures h in Holdings(AdjLsas(b))
    {
      var lsa :| lsa in AdjLsas(a) && h == (lsa.origin, LinksIn(lsa.adjacents));
      var i :| 0 <= i < |a| && AdjLsas(a)[i] == lsa;
      LinksOfAll(a[i].content);
      var j := HeldTwin(a, b, i);
      LinksOfAll(b[j].content);
      assert AdjLsas(b)[j] in AdjLsas(b);
    }
  }

  lemma HeldTwin(a: seq<Stored<seq<Adjacent>>>, b: seq<Stored<seq<Adjacent>>>, i: nat) returns (j: nat)
    requires DistinctKeys(a, Origin) && DistinctKeys(b, Origin) && HeldLinks(Index(a, Origin)) == HeldLinks(Index(b, Origin))
    requires i < |a|
    ensures j < |b| && b[j].origin == a[i].origin && LinksRead(b[j].content) == LinksRead(a[i].content)
  {
    IndexAt(a, Origin, i);
    assert a[i].origin in HeldLinks(Index(b, Origin));
    assert HeldLinks(Index(a, Origin))[a[i].origin] == HeldLinks(Index(b, Origin))[a[i].origin];
    IndexKeys(b, Origin, a[i].origin);
    j :| 0 <= j < |b| && Origin(b[j]) == a[i].origin;
    IndexAt(b, Origin, j);
  }

  /** Two routers that got the same adjacency LSAs, each in any order and any number of times, give their
      calculations the same LSAs, if no origin has used its highest number twice. */
  lemma DeliveredAlike(a: seq<Stored<seq<Adjacent>>>, ds: seq<Delivery<set<Adjacency>>>,
                       b: seq<Stored<seq<Adjacent>>>, es: seq<Delivery<set<Adjacency>>>)
    requires DistinctKeys(a, Origin) && DistinctKeys(b, Origin)
    requires LinksClean(Index(a, Origin)) && LinksClean(Index(b, Origin))
    requires HeldLinks(Index(a, Origin)) == InstallAll(ds) && HeldLinks(Index(b, Origin)) == InstallAll(es)
    requires TopUnique(ds) && SameDeliveries(ds, es)
    ensures SameHeld(AdjLsas(a), AdjLsas(b))
  {
    DatabasesConverge(ds, es);
    HeldAlike(a, b);
  }

  lemma HopTowards(hops: seq<NextHop>, view: View, origins: set<Name>, r: Name, d: nat) returns (h: NextHop)
    requires UniqueFaces(hops) && IsBest(Costs(hops), Routes(view, origins)) && r in origins
    requires exists f :: f in Towards(view, r) && Towards(view, r)[f] == d
    ensures h in hops && h.cost <= d
  {
    CostsOfUnique(hops);
    var f :| f in Towards(view, r) && Towards(view, r)[f] == d;
    assert f in Routes(view, origins)[r];
    h := NextHop(f, Costs(hops)[f]);
  }

  lemma OriginOf(hops: seq<NextHop>, view: View, origins: set<Name>, h: NextHop) returns (r: Name)
    requires UniqueFaces(hops) && IsBest(Costs(hops), Routes(view, origins)) && h in hops
    ensures r in origins && h.face in Towards(view, r) && Towards(view, r)[h.face] == h.cost
  {
    CostsOfUnique(hops);
    r :| r in Routes(view, origins) && h.face in Routes(view, origins)[r] && Routes(view, origins)[r][h.face] == Costs(hops)[h.face];
  }

  lemma CheapestChosen(hops: seq<NextHop>, limit: nat, h: NextHop) returns (c: NextHop)
    requires UniqueFaces(hops) && h in hops
    ensures c in Chosen(hops, limit) && c.cost <= h.cost
  {
    ChosenIsUnique(hops, limit);
    if h in Chosen(hops, limit) {
      c := h;
    } else {
      c := Chosen(hops, limit)[0];
      ChosenAreBest(hops, limit, c, h);
    }
  }
}
