/** Packets for name prefixes: each router forwards them over the one hop that single-path mode has installed,
    until they reach a router advertising the prefix. */
module PrefixDelivery {
  import opened Names
  import opened Listings
  import opened Graphs
  import opened ShortestTrees
  import opened Hops
  import opened RouterMaps
  import opened RoutingTables
  import opened AdjacencyCosts
  import opened RouteOffers
  import opened RouteCalculation
  import opened Forwarding
  import opened NamePrefixes
  import opened Fibs
  import opened Lsdbs
  import opened RouteRefresh

  // ----- the hop one router installs -----

  /** The hop goes to the first router of a least-cost path to x, at the distance recorded for x. */
  ghost predicate LeadsTo(o: Outcome, faceUris: map<Name, string>, x: Name, hop: NextHop) {
    && Ready(o, x) && |o.g| == |o.names| && hop.cost == DistanceTo(o, x) < INF_DISTANCE
    && exists k :: 0 <= k < |o.names| && hop.face == FaceOf(faceUris, o.names[k])
                   && IsFirstHop(o.g, o.source, Position(o.names, x), k, hop.cost)
  }

  /** No hop is installed exactly if no destination is within reach; otherwise one hop is, towards a nearest. */
  ghost predicate IsSoleHop(o: Outcome, faceUris: map<Name, string>, dests: set<Name>, chosen: seq<NextHop>) {
    if chosen == [] then forall x :: x in dests && Ready(o, x) ==> DistanceTo(o, x) >= INF_DISTANCE
    else
      && |chosen| == 1
      && (exists x :: x in dests && LeadsTo(o, faceUris, x, chosen[0]))
      && forall x :: x in dests && Ready(o, x) ==> chosen[0].cost <= DistanceTo(o, x)
  }

  /** Towards another router the single-path table holds the one hop that leads to it, if it is within reach. */
  lemma TowardsOne(o: Outcome, view: View, lsas: seq<AdjLsa>, faceUris: map<Name, string>, own: Name, x: Name)
    requires IsOutcome(o, view, lsas, faceUris, own, 1) && x != own
    ensures Ready(o, x) && DistanceTo(o, x) < INF_DISTANCE ==> Towards(view, x) != map[]
    ensures forall f :: f in Towards(view, x) ==> LeadsTo(o, faceUris, x, NextHop(f, Towards(view, x)[f]))
  {
    if x in o.names {
      var i, d := Position(o.names, x), DistanceTo(o, x);
      SinglePathTable(o, view, lsas, faceUris, own, i, d);
      if d < INF_DISTANCE {
        var k :| IsFirstHop(o.g, o.source, i, k, d) && view[x] == map[FaceOf(faceUris, o.names[k]) := d];
        var f := FaceOf(faceUris, o.names[k]);
        assert Towards(view, x) == map[f := d] && f in Towards(view, x);
        assert LeadsTo(o, faceUris, x, NextHop(f, d));
      } else {
        assert Towards(view, x) == map[];
      }
    } else {
      assert x !in view;
    }
  }

  ghost function HopsFor(installed: map<Name, seq<NextHop>>, p: Name): seq<NextHop> {
    if p in installed then installed[p] else []
  }

  lemma NearestIsChosen(hops: seq<NextHop>, o: Outcome, view: View, lsas: seq<AdjLsa>, faceUris: map<Name, string>, own: Name,
                        dests: set<Name>, x: Name)
    requires UniqueFaces(hops) && IsBest(Costs(hops), Routes(view, dests)) && own !in dests
    requires IsOutcome(o, view, lsas, faceUris, own, 1) && x in dests && Ready(o, x) && DistanceTo(o, x) < INF_DISTANCE
    ensures exists c :: c in Chosen(hops, 1) && c.cost <= DistanceTo(o, x)
  {
    TowardsOne(o, view, lsas, faceUris, own, x);
    var f :| f in Towards(view, x);
    assert LeadsTo(o, faceUris, x, NextHop(f, Towards(view, x)[f]));
    var h := HopTowards(hops, view, dests, x, Towards(view, x)[f]);
    var c := CheapestChosen(hops, 1, h);
  }

  lemma ChosenLeads(hops: seq<NextHop>, o: Outcome, view: View, lsas: seq<AdjLsa>, faceUris: map<Name, string>, own: Name,
                    dests: set<Name>, h: NextHop)
    requires UniqueFaces(hops) && IsBest(Costs(hops), Routes(view, dests)) && own !in dests
    requires IsOutcome(o, view, lsas, faceUris, own, 1) && h in Chosen(hops, 1)
    ensures exists x :: x in dests && LeadsTo(o, faceUris, x, h)
  {
    ChosenIsUnique(hops, 1);
    var x := OriginOf(hops, view, dests, h);
    TowardsOne(o, view, lsas, faceUris, own, x);
    assert LeadsTo(o, faceUris, x, h);
  }

  lemma BestIsSoleHop(hops: seq<NextHop>, o: Outcome, view: View, lsas: seq<AdjLsa>, faceUris: map<Name, string>, own: Name, dests: set<Name>)
    requires UniqueFaces(hops) && IsBest(Costs(hops), Routes(view, dests)) && own !in dests
    requires IsOutcome(o, view, lsas, faceUris, own, 1)
    ensures IsSoleHop(o, faceUris, dests, Chosen(hops, 1))
  {
    var chosen := Chosen(hops, 1);
    forall x | x in dests && Ready(o, x) && DistanceTo(o, x) < INF_DISTANCE
      ensures chosen != [] && chosen[0].cost <= DistanceTo(o, x)
    {
      NearestIsChosen(hops, o, view, lsas, faceUris, own, dests, x);
    }
    if chosen != [] { ChosenLeads(hops, o, view, lsas, faceUris, own, dests, chosen[0]); }
  }

  lemma InstalledIsSoleHop(index: map<Name, NptEntry>, installed: map<Name, seq<NextHop>>, o: Outcome, view: View, lsas: seq<AdjLsa>,
                           faceUris: map<Name, string>, own: Name, p: Name)
    requires IndexValid(index) && FibFollows(installed, index, 1) && IsCurrent(PrefixesOf(index), view)
    requires IsOutcome(o, view, lsas, faceUris, own, 1) && own !in OriginsOf(PrefixesOf(index), p)
    ensures IsSoleHop(o, faceUris, OriginsOf(PrefixesOf(index), p).Keys, HopsFor(installed, p))
  {
    TablesAgree(index, installed, 1, view, p);
    if p in index {
      assert EntryValid(index[p]);
      ChosenIsUnique(index[p].hops, 1);
      BestIsSoleHop(index[p].hops, o, view, lsas, faceUris, own, OriginsOf(PrefixesOf(index), p).Keys);
    }
  }

  /** A valid database in single-path mode, after a calculation on its own LSAs. */
  lemma DatabaseInstallsSoleHop(lsdb: Lsdb, o: Outcome, faceUris: map<Name, string>, p: Name)
    requires lsdb.Valid() && lsdb.npt.fib.maxFacesPerPrefix == 1
    requires IsOutcome(o, ViewOf(lsdb.npt.rt.entries), AdjLsas(lsdb.adjLsas.lsas), faceUris, lsdb.thisRouter, 1)
    ensures IsSoleHop(o, faceUris, Destinations(lsdb.npt.Listed(), AdvertisedBy(lsdb.Names().index), lsdb.thisRouter, p),
                      HopsFor(lsdb.npt.fib.installed, p))
  {
    var npt := lsdb.npt;
    OriginsAreAdvertisers(npt.Listed(), AdvertisedBy(lsdb.Names().index), lsdb.StoredOrigins(), lsdb.thisRouter, p);
    assert !Lists(npt.Listed(), p, lsdb.thisRouter);
    InstalledIsSoleHop(npt.Entries(), npt.fib.installed, o, ViewOf(npt.rt.entries), AdjLsas(lsdb.adjLsas.lsas), faceUris,
                       lsdb.thisRouter, p);
  }

  // ----- from hop to hop -----

  /** A router's neighbours have different faces, and it knows the face of each it has a link to. */
  ghost predicate FacesApart(faceUris: map<Name, string>, lsdb: seq<AdjLsa>, r: Name) {
    && (forall a, b :: a in faceUris && b in faceUris && faceUris[a] == faceUris[b] ==> a == b)
    && forall n :: LinkCost(lsdb, r, n) > 0 ==> n in faceUris
  }

  /** Who is on the other side of the face. */
  ghost predicate IsOn(faceUris: map<Name, string>, face: string, n: Name) {
    n in faceUris && faceUris[n] == face
  }

  ghost function NeighbourOn(faceUris: map<Name, string>, face: string): (n: Option<Name>)
    ensures n.Some? ==> IsOn(faceUris, face, n.value)
    ensures n.None? ==> forall x :: !IsOn(faceUris, face, x)
  {
    if x :| IsOn(faceUris, face, x) then Some(x) else None
  }

  /** What each router has calculated, its faces, and the hops it has installed for the prefix. */
  datatype Sites = Sites(net: Network, faces: map<Name, map<Name, string>>, fibs: map<Name, seq<NextHop>>)

  ghost predicate SiteOk(o: Outcome, lsdb: seq<AdjLsa>, faceUris: map<Name, string>, chosen: seq<NextHop>, dests: set<Name>, r: Name) {
    && IsCalculation(o, lsdb, r, true) && FacesApart(faceUris, lsdb, r)
    && (r !in dests ==> IsSoleHop(o, faceUris, dests, chosen))
  }

  ghost predicate SitesOk(s: Sites, dbs: Databases, dests: set<Name>) {
    && InStep(dbs) && dbs.Keys == s.net.Keys && s.faces.Keys == s.net.Keys == s.fibs.Keys
    && forall r :: r in s.net ==> SiteOk(s.net[r], dbs[r], s.faces[r], s.fibs[r], dests, r)
  }

  lemma SitesCalculated(s: Sites, dbs: Databases, dests: set<Name>)
    requires SitesOk(s, dbs, dests)
    ensures AllCalculated(s.net, dbs)
  {
    forall r | r in s.net
      ensures IsCalculation(s.net[r], dbs[r], r, true)
    {
      assert SiteOk(s.net[r], dbs[r], s.faces[r], s.fibs[r], dests, r);
    }
  }

  /** The distance to the nearest destination, by the router's own reckoning. */
  ghost function Nearest(s: Sites, dests: set<Name>, r: Name): nat
    requires r in s.fibs
  {
    if r in dests then 0 else if s.fibs[r] == [] then INF_DISTANCE else s.fibs[r][0].cost
  }

  ghost function Onward(s: Sites, r: Name): Option<Name>
    requires r in s.fibs && r in s.faces
  {
    if s.fibs[r] == [] then None else NeighbourOn(s.faces[r], s.fibs[r][0].face)
  }

  ghost function PrefixWay(s: Sites, dests: set<Name>): Way
    requires s.faces.Keys == s.net.Keys == s.fibs.Keys
  {
    Way(dests, map r | r in s.net :: Nearest(s, dests, r), map r | r in s.net && Onward(s, r).Some? :: Onward(s, r).value)
  }

  /** A link and what its far end reckons cannot beat what a router reckons itself. */
  lemma NoShortcut(o: Outcome, lsdb: seq<AdjLsa>, r: Name, e: Outcome, lsdb': seq<AdjLsa>, k: nat, y: Name)
    requires IsCalculation(o, lsdb, r, true) && k < |o.names| && IsCalculation(e, lsdb', o.names[k], true) && SameHeld(lsdb, lsdb')
    requires Edge(o.g, o.source, k) && Ready(o, y) && Ready(e, y) && DistanceTo(e, y) < INF_DISTANCE
    ensures DistanceTo(o, y) <= o.g[o.source][k] + DistanceTo(e, y)
  {
    MentionedIgnoresOrder(lsdb, lsdb');
    var t, t', rest := Position(o.names, y), Position(e.names, y), DistanceTo(e, y);
    OwnOrExact(e.g, e.source, e.rounds[0], t');
    RenumberedDistance(lsdb', e.g, e.names, lsdb, o.g, o.names, e.source, t', k, t, rest);
    OwnOrExact(o.g, o.source, o.rounds[0], t);
    LinkBounds(o.g, o.source, k, t, DistanceTo(o, y), rest);
  }

  lemma LinkBounds(g: Matrix, s: int, h: int, t: int, d: nat, e: nat)
    requires Edge(g, s, h) && IsCappedDistance(g, s, t, d) && IsCappedDistance(g, h, t, e) && e < INF_DISTANCE
    ensures d <= g[s][h] + e
  {
    var p :| IsPath(g, p, h, t) && Cost(g, p) == e;
    PrependEdge(g, s, h, p, t);
  }

  /** The first router of a least-cost path is a live neighbour with an LSA, on the face it was found by. */
  lemma HopIsNeighbour(o: Outcome, lsdb: seq<AdjLsa>, faceUris: map<Name, string>, r: Name, x: Name, hop: NextHop) returns (k: nat)
    requires IsCalculation(o, lsdb, r, true) && FacesApart(faceUris, lsdb, r) && LeadsTo(o, faceUris, x, hop)
    ensures k < |o.names| && IsFirstHop(o.g, o.source, Position(o.names, x), k, DistanceTo(o, x))
    ensures o.names[k] in Origins(lsdb) && o.g[o.source][k] == LinkCost(lsdb, r, o.names[k]) > 0
    ensures NeighbourOn(faceUris, hop.face) == Some(o.names[k])
  {
    k :| 0 <= k < |o.names| && hop.face == FaceOf(faceUris, o.names[k])
         && IsFirstHop(o.g, o.source, Position(o.names, x), k, hop.cost);
    LinkIsLive(o, lsdb, r, k);
    assert IsOn(faceUris, hop.face, o.names[k]);
  }

  lemma LinkIsLive(o: Outcome, lsdb: seq<AdjLsa>, r: Name, k: nat)
    requires IsCalculation(o, lsdb, r, true) && k < |o.names| && Edge(o.g, o.source, k)
    ensures o.g[o.source][k] == LinkCost(lsdb, r, o.names[k]) > 0 && o.names[k] in Origins(lsdb)
  {
    PositiveCostHasOrigin(lsdb, o.names[k], r);
  }

  /** What is left after the hop towards x is the next router's distance to x. */
  lemma HopLeavesRest(o: Outcome, lsdb: seq<AdjLsa>, r: Name, e: Outcome, lsdb': seq<AdjLsa>, k: nat, x: Name)
    requires IsCalculation(o, lsdb, r, true) && k < |o.names| && IsCalculation(e, lsdb', o.names[k], true) && SameHeld(lsdb, lsdb')
    requires Ready(o, x) && Ready(e, x) && DistanceTo(o, x) < INF_DISTANCE
    requires IsFirstHop(o.g, o.source, Position(o.names, x), k, DistanceTo(o, x))
    ensures DistanceTo(o, x) == o.g[o.source][k] + DistanceTo(e, x)
  {
    OwnOrExact(o.g, o.source, o.rounds[0], Position(o.names, x));
    OnwardFrom(o, lsdb, e, lsdb', k, x);
  }

  /** No destination is nearer by way of a link than the nearest one is. */
  ghost predicate NoneNearerBy(o: Outcome, e: Outcome, w: nat, dests: set<Name>) {
    forall y :: y in dests && Ready(e, y) && DistanceTo(e, y) < INF_DISTANCE ==> Ready(o, y) && DistanceTo(o, y) <= w + DistanceTo(e, y)
  }

  lemma NoneIsNearerBy(net: Network, dbs: Databases, r: Name, k: nat, dests: set<Name>)
    requires AllCalculated(net, dbs) && r in net && k < |net[r].names| && net[r].names[k] in net
    requires Edge(net[r].g, net[r].source, k)
    ensures NoneNearerBy(net[r], net[net[r].names[k]], net[r].g[net[r].source][k], dests)
  {
    var o, h := net[r], net[r].names[k];
    assert IsCalculation(o, dbs[r], r, true) && IsCalculation(net[h], dbs[h], h, true) && SameHeld(dbs[r], dbs[h]);
    forall y | y in dests && Ready(net[h], y) && DistanceTo(net[h], y) < INF_DISTANCE
      ensures Ready(o, y) && DistanceTo(o, y) <= o.g[o.source][k] + DistanceTo(net[h], y)
    {
      AllReady(net, dbs, h, y);
      NoShortcut(o, dbs[r], r, net[h], dbs[h], k, y);
    }
  }

  /** If x is nearest from here and the way to x goes on to e, then x is nearest from there. */
  lemma StaysNearest(o: Outcome, e: Outcome, w: nat, dests: set<Name>, x: Name, faceUris: map<Name, string>, chosen: seq<NextHop>)
    requires x in dests && Ready(o, x) && Ready(e, x) && DistanceTo(o, x) == w + DistanceTo(e, x) < INF_DISTANCE
    requires (forall y :: y in dests && Ready(o, y) ==> DistanceTo(o, x) <= DistanceTo(o, y)) && NoneNearerBy(o, e, w, dests)
    requires IsSoleHop(e, faceUris, dests, chosen)
    ensures chosen != [] && chosen[0].cost == DistanceTo(e, x)
  {
    var y :| y in dests && LeadsTo(e, faceUris, y, chosen[0]);
  }

  /** So what is left towards x is what the next router reckons itself. */
  lemma RestIsNearest(o: Outcome, lsdb: seq<AdjLsa>, r: Name, e: Outcome, lsdb': seq<AdjLsa>, k: nat, x: Name,
                      dests: set<Name>, faceUris: map<Name, string>, chosen: seq<NextHop>)
    requires IsCalculation(o, lsdb, r, true) && k < |o.names| && IsCalculation(e, lsdb', o.names[k], true) && SameHeld(lsdb, lsdb')
    requires x in dests && Ready(o, x) && Ready(e, x) && DistanceTo(o, x) < INF_DISTANCE
    requires IsFirstHop(o.g, o.source, Position(o.names, x), k, DistanceTo(o, x))
    requires forall y :: y in dests && Ready(o, y) ==> DistanceTo(o, x) <= DistanceTo(o, y)
    requires NoneNearerBy(o, e, o.g[o.source][k], dests)
    requires o.names[k] !in dests ==> IsSoleHop(e, faceUris, dests, chosen)
    ensures DistanceTo(o, x) == o.g[o.source][k] + if o.names[k] in dests then 0 else if chosen == [] then INF_DISTANCE else chosen[0].cost
  {
    HopLeavesRest(o, lsdb, r, e, lsdb', k, x);
    if o.names[k] in dests {
      OwnDistanceIsZero(e, lsdb', o.names[k]);
    } else {
      StaysNearest(o, e, o.g[o.source][k], dests, x, faceUris, chosen);
    }
  }

  lemma AtSite(s: Sites, dbs: Databases, dests: set<Name>, r: Name)
    requires SitesOk(s, dbs, dests) && r in s.net
    ensures IsCalculation(s.net[r], dbs[r], r, true) && FacesApart(s.faces[r], dbs[r], r)
    ensures r !in dests ==> IsSoleHop(s.net[r], s.faces[r], dests, s.fibs[r])
    ensures forall h :: h in s.net ==> SameHeld(dbs[r], dbs[h])
    ensures forall h :: h in Origins(dbs[r]) ==> h in s.net
  {
    assert SiteOk(s.net[r], dbs[r], s.faces[r], s.fibs[r], dests, r);
  }

  /** The next router's nearest destination is nearer by exactly the link's cost. */
  lemma NearestFalls(s: Sites, dbs: Databases, dests: set<Name>, r: Name)
    requires SitesOk(s, dbs, dests) && r in s.net && r !in dests && s.fibs[r] != []
    ensures Onward(s, r).Some?
    ensures var h := Onward(s, r).value;
            h in s.net && LinkCost(dbs[r], r, h) > 0 && Nearest(s, dests, r) == LinkCost(dbs[r], r, h) + Nearest(s, dests, h)
  {
    AtSite(s, dbs, dests, r);
    var x :| x in dests && LeadsTo(s.net[r], s.faces[r], x, s.fibs[r][0]);
    var k := HopIsNeighbour(s.net[r], dbs[r], s.faces[r], r, x, s.fibs[r][0]);
    NearestFallsTo(s, dbs, dests, r, x, k);
  }

  lemma NearestFallsTo(s: Sites, dbs: Databases, dests: set<Name>, r: Name, x: Name, k: nat)
    requires SitesOk(s, dbs, dests) && r in s.net && r !in dests && s.fibs[r] != []
    requires x in dests && LeadsTo(s.net[r], s.faces[r], x, s.fibs[r][0])
    requires k < |s.net[r].names| && s.net[r].names[k] in s.net && Edge(s.net[r].g, s.net[r].source, k)
    requires IsFirstHop(s.net[r].g, s.net[r].source, Position(s.net[r].names, x), k, DistanceTo(s.net[r], x))
    ensures Nearest(s, dests, r) == s.net[r].g[s.net[r].source][k] + Nearest(s, dests, s.net[r].names[k])
  {
    var o, h := s.net[r], s.net[r].names[k];
    AtSite(s, dbs, dests, r);
    AtSite(s, dbs, dests, h);
    SitesCalculated(s, dbs, dests);
    AllReady(s.net, dbs, r, x);
    NoneIsNearerBy(s.net, dbs, r, k, dests);
    RestIsNearest(o, dbs[r], r, s.net[h], dbs[h], k, x, dests, s.faces[h], s.fibs[h]);
  }

  lemma PrefixStepsDown(s: Sites, dbs: Databases, dests: set<Name>, at: Name, r: Name)
    requires SitesOk(s, dbs, dests) && at in dbs && r in s.net && r !in dests && Nearest(s, dests, r) < INF_DISTANCE
    ensures StepsDown(PrefixWay(s, dests), dbs[at], r)
  {
    NearestFalls(s, dbs, dests, r);
    assert SameHeld(dbs[at], dbs[r]);
    CostsIgnoreOrder(dbs[at], dbs[r], r, Onward(s, r).value);
  }

  lemma PrefixWayIsDownhill(s: Sites, dbs: Databases, dests: set<Name>, at: Name)
    requires SitesOk(s, dbs, dests) && at in dbs
    ensures Downhill(PrefixWay(s, dests), dbs[at])
  {
    var way := PrefixWay(s, dests);
    forall r | r in way.distance && r !in way.dests && way.distance[r] < INF_DISTANCE
      ensures StepsDown(way, dbs[at], r)
    {
      PrefixStepsDown(s, dbs, dests, at, r);
    }
  }

  /** The route ends at a destination, over live links, at this cost, no router twice; and each router on it but
      the last sends the packet over the face of the one hop it has installed. */
  ghost predicate IsPrefixDelivery(s: Sites, lsdb: seq<AdjLsa>, dests: set<Name>, route: seq<Name>, r: Name, cost: nat) {
    && IsLive(lsdb, route, r, dests) && RouteCost(lsdb, route) == cost
    && NoDuplicates(route) && |route| - 1 <= |s.net| - 1
    && forall i :: 0 <= i < |route| - 1 ==> SendsOn(s, route[i], route[i + 1])
  }

  ghost predicate SendsOn(s: Sites, r: Name, h: Name) {
    r in s.fibs && r in s.faces && s.fibs[r] != [] && IsOn(s.faces[r], s.fibs[r][0].face, h)
  }

  /** The router has the destinations at the distance of the nearest, and a packet it forwards arrives at one of
      them at that cost, if any is within reach. */
  ghost predicate IsServed(s: Sites, lsdb: seq<AdjLsa>, dests: set<Name>, r: Name)
    requires r in s.net && r in s.fibs
  {
    var d := Nearest(s, dests, r);
    && (forall x :: x in dests && Ready(s.net[r], x) ==> d <= DistanceTo(s.net[r], x))
    && (d < INF_DISTANCE ==> exists x :: x in dests && Ready(s.net[r], x) && DistanceTo(s.net[r], x) == d)
    && (d < INF_DISTANCE ==> exists route :: IsPrefixDelivery(s, lsdb, dests, route, r, d))
  }

  /** In a network whose routers hold the same adjacency LSAs and have installed hops for the same destinations,
      every router is served, every router on the way using its one installed hop. */
  lemma PrefixDelivers(s: Sites, dbs: Databases, dests: set<Name>, r: Name)
    requires SitesOk(s, dbs, dests) && r in s.net
    ensures IsServed(s, dbs[r], dests, r)
  {
    NearestIsDistance(s, dbs, dests, r);
    if Nearest(s, dests, r) < INF_DISTANCE {
      PrefixWayIsDownhill(s, dbs, dests, r);
      DownhillIsDelivery(s, dbs[r], dests, r);
    }
  }

  lemma DownhillIsDelivery(s: Sites, lsdb: seq<AdjLsa>, dests: set<Name>, r: Name)
    requires s.faces.Keys == s.net.Keys == s.fibs.Keys && r in s.net
    requires Downhill(PrefixWay(s, dests), lsdb) && Nearest(s, dests, r) < INF_DISTANCE
    ensures exists route :: IsPrefixDelivery(s, lsdb, dests, route, r, Nearest(s, dests, r))
  {
    var way := PrefixWay(s, dests);
    var route := Route(way, lsdb, r);
    RouteDelivers(way, lsdb, r);
    RouteIsLoopFree(way, lsdb, r);
    RouteFollows(way, lsdb, r);
    WaySize(s, dests);
    forall i | 0 <= i < |route| - 1
      ensures SendsOn(s, route[i], route[i + 1])
    {
      assert Sends(way, route[i], route[i + 1]);
    }
    assert IsPrefixDelivery(s, lsdb, dests, route, r, Nearest(s, dests, r));
  }

  lemma WaySize(s: Sites, dests: set<Name>)
    requires s.faces.Keys == s.net.Keys == s.fibs.Keys
    ensures |PrefixWay(s, dests).distance| == |s.net|
  {
    var d := PrefixWay(s, dests).distance;
    assert d.Keys == s.net.Keys;
    assert |d| == |d.Keys| && |s.net| == |s.net.Keys|;
  }

  lemma NearestIsDistance(s: Sites, dbs: Databases, dests: set<Name>, r: Name)
    requires SitesOk(s, dbs, dests) && r in s.net
    ensures forall x :: x in dests && Ready(s.net[r], x) ==> Nearest(s, dests, r) <= DistanceTo(s.net[r], x)
    ensures Nearest(s, dests, r) < INF_DISTANCE ==>
              exists x :: x in dests && Ready(s.net[r], x) && DistanceTo(s.net[r], x) == Nearest(s, dests, r)
  {
    AtSite(s, dbs, dests, r);
    if r in dests {
      OwnDistanceIsZero(s.net[r], dbs[r], r);
    } else if s.fibs[r] != [] {
      var x :| x in dests && LeadsTo(s.net[r], s.faces[r], x, s.fibs[r][0]);
    }
  }

  // ----- the network's databases -----

  /** The routers whose stored Name LSA has the prefix, whoever asks. */
  ghost function Advertising(advertised: map<Name, set<Name>>, p: Name): set<Name> {
    set r | r in advertised && p in advertised[r]
  }

  /** A router in single-path mode that has calculated on its own adjacency LSAs, holds these Name LSAs and has
      installed these hops for the prefix, which is not the name of a router it knows. */
  ghost predicate IsSite(lsdb: Lsdb, r: Name, o: Outcome, faceUris: map<Name, string>, lsas: seq<AdjLsa>, chosen: seq<NextHop>,
                         advertised: map<Name, set<Name>>, p: Name)
    reads lsdb.npt, lsdb.npt.rt, lsdb.npt.fib, lsdb.nameLsas, lsdb.adjLsas, lsdb.corLsas
  {
    && lsdb.thisRouter == r && lsdb.Valid() && lsdb.npt.fib.maxFacesPerPrefix == 1
    && AdjLsas(lsdb.adjLsas.lsas) == lsas && AdvertisedBy(lsdb.Names().index) == advertised
    && HopsFor(lsdb.npt.fib.installed, p) == chosen
    && IsOutcome(o, ViewOf(lsdb.npt.rt.entries), lsas, faceUris, r, 1) && FacesApart(faceUris, lsas, r)
    && p != r && !Stores(lsdb.StoredOrigins(), p)
  }

  lemma SameDestinations(listed: Prefixes, advertised: map<Name, set<Name>>, stored: Keepers, own: Name, p: Name)
    requires ListingOk(listed, advertised, stored, own) && advertised.Keys <= stored.names
    requires p != own && !Stores(stored, p) && own !in Advertising(advertised, p)
    ensures Destinations(listed, advertised, own, p) == Advertising(advertised, p)
  {
    OriginsAreAdvertisers(listed, advertised, stored, own, p);
  }

  lemma SiteInstallsSoleHop(lsdb: Lsdb, r: Name, o: Outcome, faceUris: map<Name, string>, lsas: seq<AdjLsa>, chosen: seq<NextHop>,
                            advertised: map<Name, set<Name>>, p: Name)
    requires IsSite(lsdb, r, o, faceUris, lsas, chosen, advertised, p)
    ensures SiteOk(o, lsas, faceUris, chosen, Advertising(advertised, p), r)
  {
    if r !in Advertising(advertised, p) {
      DatabaseInstallsSoleHop(lsdb, o, faceUris, p);
      SameDestinations(lsdb.npt.Listed(), advertised, lsdb.StoredOrigins(), r, p);
    }
  }

  /** A network's databases, what their routers have calculated, and the hops they have installed. */
  ghost predicate AreSites(lsdbs: map<Name, Lsdb>, s: Sites, dbs: Databases, advertised: map<Name, set<Name>>, p: Name)
    reads set x | x in lsdbs :: lsdbs[x].npt, set x | x in lsdbs :: lsdbs[x].npt.rt, set x | x in lsdbs :: lsdbs[x].npt.fib
    reads set x | x in lsdbs :: lsdbs[x].nameLsas, set x | x in lsdbs :: lsdbs[x].adjLsas, set x | x in lsdbs :: lsdbs[x].corLsas
  {
    && lsdbs.Keys == dbs.Keys == s.net.Keys == s.faces.Keys == s.fibs.Keys
    && forall x :: x in lsdbs ==> IsSite(lsdbs[x], x, s.net[x], s.faces[x], dbs[x], s.fibs[x], advertised, p)
  }

  lemma SitesAreOk(lsdbs: map<Name, Lsdb>, s: Sites, dbs: Databases, advertised: map<Name, set<Name>>, p: Name)
    requires AreSites(lsdbs, s, dbs, advertised, p) && InStep(dbs)
    ensures lsdbs.Keys == s.net.Keys && SitesOk(s, dbs, Advertising(advertised, p))
  {
    forall x | x in s.net
      ensures SiteOk(s.net[x], dbs[x], s.faces[x], s.fibs[x], Advertising(advertised, p), x)
    {
      SiteInstallsSoleHop(lsdbs[x], x, s.net[x], s.faces[x], dbs[x], s.fibs[x], advertised, p);
    }
  }

  /** From Name LSAs to packets: when the routers of a network hold the same Name and adjacency LSAs, in any
      order, and have calculated in single-path mode, a packet for a prefix, sent by any router from which one
      advertising it is within reach, arrives at such a router at the nearest one's distance. */
  lemma AdvertisedPrefixesDelivered(lsdbs: map<Name, Lsdb>, s: Sites, dbs: Databases, advertised: map<Name, set<Name>>, p: Name, r: Name)
    requires AreSites(lsdbs, s, dbs, advertised, p) && InStep(dbs) && r in lsdbs
    ensures r in s.net && r in s.fibs && IsServed(s, dbs[r], Advertising(advertised, p), r)
  {
    SitesAreOk(lsdbs, s, dbs, advertised, p);
    PrefixDelivers(s, dbs, Advertising(advertised, p), r);
  }
}
