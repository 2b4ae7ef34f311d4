/** Hop-by-hop forwarding when every router has run the single-path calculation on the same
    adjacency LSAs, each with its own numbering of the routers. */
module Forwarding {
  import opened Names
  import opened Graphs
  import opened ShortestTrees
  import opened Listings
  import opened RoutingTables
  import opened RouterMaps
  import opened AdjacencyCosts
  import opened RouteOffers
  import opened RouteCalculation

  ghost function Origins(lsdb: seq<AdjLsa>): set<Name> {
    set lsa | lsa in lsdb :: lsa.origin
  }

  /** What the single-path calculation of each router ended with. */
  type Network = map<Name, Outcome>

  /** Each router's own list of adjacency LSAs: the same LSAs everywhere, each in its own order, and one for
      each of these routers. */
  type Databases = map<Name, seq<AdjLsa>>

  ghost predicate InStep(dbs: Databases) {
    && (forall r :: r in dbs ==> Origins(dbs[r]) == dbs.Keys)
    && forall r, s :: r in dbs && s in dbs ==> SameHeld(dbs[r], dbs[s])
  }

  /** Every router with an LSA has calculated on its own database. */
  ghost predicate AllCalculated(net: Network, dbs: Databases) {
    InStep(dbs) && net.Keys == dbs.Keys && forall r :: r in net ==> IsCalculation(net[r], dbs[r], r, true)
  }

  /** Each router runs the calculation of single-path mode on its own list, with its own faces. */
  method CalculateEverywhere(dbs: Databases, faceUris: map<Name, map<Name, string>>) returns (ghost net: Network)
    requires InStep(dbs) && dbs.Keys <= faceUris.Keys
    ensures AllCalculated(net, dbs)
  {
    net := CalculateAll(dbs, faceUris);
  }

  method CalculateAll(dbs: Databases, faceUris: map<Name, map<Name, string>>) returns (ghost net: Network)
    requires dbs.Keys <= faceUris.Keys && forall r :: r in dbs ==> r in Origins(dbs[r])
    ensures net.Keys == dbs.Keys && forall r :: r in net ==> IsCalculation(net[r], dbs[r], r, true)
  {
    net := map[];
    var todo := dbs.Keys;
    while todo != {}
      invariant todo <= dbs.Keys && net.Keys == dbs.Keys - todo
      invariant forall r :: r in net ==> IsCalculation(net[r], dbs[r], r, true)
    {
      var r :| r in todo;
      ghost var o := CalculateAt(dbs[r], r, faceUris[r]);
      net := net[r := o];
      todo := todo - {r};
    }
  }

  method CalculateAt(lsdb: seq<AdjLsa>, r: Name, faceUris: map<Name, string>) returns (ghost o: Outcome)
    requires r in Origins(lsdb)
    ensures IsCalculation(o, lsdb, r, true)
  {
    ghost var lsa :| lsa in lsdb && lsa.origin == r;
    ghost var k :| 0 <= k < |lsdb| && lsdb[k] == lsa;
    MentionedMembers(lsdb, k);
    var rt := new RoutingTable();
    o := CalculateLsRoutingTable(lsdb, faceUris, r, 1, rt);
  }

  lemma NetworkIgnoresOrder(g: Matrix, a: seq<AdjLsa>, b: seq<AdjLsa>, names: seq<Name>)
    requires IsNetwork(g, a, names) && SameHeld(a, b)
    ensures IsNetwork(g, b, names)
  {
    forall i, j | 0 <= i < |names| && 0 <= j < |names|
      ensures g[i][j] == LinkCost(b, names[i], names[j])
    {
      CostsIgnoreOrder(a, b, names[i], names[j]);
    }
  }

  /** The same routers under another numbering. */
  ghost function Renumber(p: seq<int>, from: seq<Name>, to: seq<Name>): (q: seq<int>)
    requires forall i :: 0 <= i < |p| ==> 0 <= p[i] < |from|
    requires forall r :: r in from ==> r in to
    ensures |q| == |p| && forall i :: 0 <= i < |p| ==> 0 <= q[i] < |to| && to[q[i]] == from[p[i]]
  {
    seq(|p|, i requires 0 <= i < |p| => Position(to, from[p[i]]))
  }

  lemma RenumberedLink(lsdb: seq<AdjLsa>, g: Matrix, names: seq<Name>, h: Matrix, names': seq<Name>, u: int, v: int, u': int, v': int)
    requires IsNetwork(g, lsdb, names) && IsNetwork(h, lsdb, names')
    requires 0 <= u < |names| && 0 <= v < |names| && 0 <= u' < |names'| && 0 <= v' < |names'|
    requires names'[u'] == names[u] && names'[v'] == names[v]
    ensures g[u][v] == h[u'][v']
  {
  }

  /** Both sequences take the same links, step by step. */
  ghost predicate SameLinks(g: Matrix, p: seq<int>, h: Matrix, q: seq<int>) {
    |p| == |q| && forall i {:trigger p[i]} {:trigger q[i]} :: 0 <= i < |p| - 1 ==> SameLink(g, p[i], p[i + 1], h, q[i], q[i + 1])
  }

  ghost predicate SameLink(g: Matrix, u: int, v: int, h: Matrix, u': int, v': int) {
    Edge(g, u, v) && Edge(h, u', v') && g[u][v] == h[u'][v']
  }

  lemma {:induction false} SameLinksCost(g: Matrix, p: seq<int>, h: Matrix, q: seq<int>)
    requires SameLinks(g, p, h, q)
    ensures Cost(h, q) == Cost(g, p)
    decreases |p|
  {
    if |p| > 1 {
      var k := |p| - 1;
      assert SameLink(g, p[k - 1], p[k - 1 + 1], h, q[k - 1], q[k - 1 + 1]);
      SameLinksCost(g, p[..k], h, q[..k]);
    }
  }

  /** Paths and their costs do not depend on the numbering. */
  lemma RenumberedPath(lsdb: seq<AdjLsa>, g: Matrix, names: seq<Name>, h: Matrix, names': seq<Name>,
                       p: seq<int>, q: seq<int>, s: int, t: int)
    requires IsNetwork(g, lsdb, names) && IsNetwork(h, lsdb, names')
    requires IsPath(g, p, s, t) && |q| == |p|
    requires forall i :: 0 <= i < |p| ==> 0 <= p[i] < |names| && 0 <= q[i] < |names'| && names'[q[i]] == names[p[i]]
    ensures IsPath(h, q, q[0], q[|q| - 1]) && Cost(h, q) == Cost(g, p)
  {
    forall i | 0 <= i < |p| - 1
      ensures SameLink(g, p[i], p[i + 1], h, q[i], q[i + 1])
    {
      assert Edge(g, p[i], p[i + 1]);
      RenumberedLink(lsdb, g, names, h, names', p[i], p[i + 1], q[i], q[i + 1]);
    }
    assert forall i :: 0 <= i < |q| - 1 ==> SameLink(g, p[i], p[i + 1], h, q[i], q[i + 1]);
    SameLinksCost(g, p, h, q);
  }

  lemma PathInRange(g: Matrix, p: seq<int>, s: int, t: int)
    requires IsPath(g, p, s, t) && Square(g, |g|)
    ensures forall i :: 0 <= i < |p| ==> 0 <= p[i] < |g|
  {
    forall i | 0 <= i < |p|
      ensures 0 <= p[i] < |g|
    {
      if i < |p| - 1 { assert Edge(g, p[i], p[i + 1]); }
    }
  }

  lemma RenumberedOnOneList(lsdb: seq<AdjLsa>, g: Matrix, names: seq<Name>, h: Matrix, names': seq<Name>,
                            s: nat, t: nat, s': nat, t': nat, d: nat)
    requires IsNetwork(g, lsdb, names) && IsNetwork(h, lsdb, names')
    requires NoDuplicates(names) && NoDuplicates(names') && forall r :: r in names <==> r in names'
    requires s < |names| && t < |names| && s' < |names'| && t' < |names'|
    requires names'[s'] == names[s] && names'[t'] == names[t]
    requires IsCappedDistance(g, s, t, d)
    ensures IsCappedDistance(h, s', t', d)
  {
    forall q | IsPath(h, q, s', t')
      ensures d <= Cost(h, q)
    {
      PathInRange(h, q, s', t');
      var p := Renumber(q, names', names);
      RenumberedPath(lsdb, h, names', g, names, q, p, s', t');
      assert p[0] == s && p[|p| - 1] == t;
    }
    if d < INF_DISTANCE {
      var p :| IsPath(g, p, s, t) && Cost(g, p) == d;
      PathInRange(g, p, s, t);
      var q := Renumber(p, names, names');
      RenumberedPath(lsdb, g, names, h, names', p, q, s, t);
      assert q[0] == s' && q[|q| - 1] == t';
    }
  }

  /** Least costs depend neither on the numbering nor on the order the LSAs are kept in: two routers that
      hold the same LSAs agree on the distance between any two routers they name. */
  lemma RenumberedDistance(lsdb: seq<AdjLsa>, g: Matrix, names: seq<Name>, lsdb': seq<AdjLsa>, h: Matrix, names': seq<Name>,
                           s: nat, t: nat, s': nat, t': nat, d: nat)
    requires IsNetwork(g, lsdb, names) && IsNetwork(h, lsdb', names') && SameHeld(lsdb, lsdb')
    requires NoDuplicates(names) && NoDuplicates(names') && forall r :: r in names <==> r in names'
    requires s < |names| && t < |names| && s' < |names'| && t' < |names'|
    requires names'[s'] == names[s] && names'[t'] == names[t]
    requires IsCappedDistance(g, s, t, d)
    ensures IsCappedDistance(h, s', t', d)
  {
    NetworkIgnoresOrder(h, lsdb', lsdb, names');
    RenumberedOnOneList(lsdb, g, names, h, names', s, t, s', t', d);
  }

  // ----- forwarding, by name -----

  ghost predicate Ready(o: Outcome, dest: Name) {
    o.rounds != [] && RoundFits(o.rounds[0], |o.names|) && dest in o.names
  }

  /** The distance recorded for dest. */
  ghost function DistanceTo(o: Outcome, dest: Name): nat
    requires Ready(o, dest)
  {
    o.rounds[0].distance[Position(o.names, dest)]
  }

  /** The router packets for dest are forwarded to; none if there is no next hop. */
  ghost function HopTo(o: Outcome, dest: Name): Option<Name>
    requires Ready(o, dest)
  {
    var h := o.rounds[0].hop[Position(o.names, dest)];
    if 0 <= h < |o.names| then Some(o.names[h]) else None
  }

  /** Whatever one database mentions, every router has calculated. */
  lemma AllReady(net: Network, dbs: Databases, at: Name, dest: Name)
    requires AllCalculated(net, dbs) && at in dbs && dest in Mentioned(dbs[at])
    ensures forall r :: r in net ==> Ready(net[r], dest)
  {
    forall r | r in net
      ensures Ready(net[r], dest)
    {
      MentionedIgnoresOrder(dbs[at], dbs[r]);
      assert IsCalculation(net[r], dbs[r], r, true);
    }
  }

  /** A router's next hop is a live link to a router that has calculated too and is nearer the
      destination by exactly that link's cost, by its own reckoning. */
  lemma HopGetsNearer(net: Network, dbs: Databases, r: Name, dest: Name)
    requires AllCalculated(net, dbs) && r in net && dest in Mentioned(dbs[r]) && r != dest
    requires Ready(net[r], dest) && DistanceTo(net[r], dest) < INF_DISTANCE
    ensures HopTo(net[r], dest).Some?
    ensures var h := HopTo(net[r], dest).value;
            && h in net && Ready(net[h], dest) && LinkCost(dbs[r], r, h) > 0
            && DistanceTo(net[r], dest) == LinkCost(dbs[r], r, h) + DistanceTo(net[h], dest)
  {
    AllReady(net, dbs, r, dest);
    var k := HopIsFirst(net[r], dbs[r], r, dest);
    OnwardFrom(net[r], dbs[r], net[net[r].names[k]], dbs[net[r].names[k]], k, dest);
  }

  /** The hop is the first router of a least-cost path, over a live link, and has an LSA. */
  lemma HopIsFirst(o: Outcome, lsdb: seq<AdjLsa>, r: Name, dest: Name) returns (k: nat)
    requires IsCalculation(o, lsdb, r, true) && Ready(o, dest) && dest != r && DistanceTo(o, dest) < INF_DISTANCE
    ensures k < |o.names| && HopTo(o, dest) == Some(o.names[k]) && o.names[k] in Origins(lsdb)
    ensures o.g[o.source][k] == LinkCost(lsdb, r, o.names[k]) > 0
    ensures IsFirstHop(o.g, o.source, Position(o.names, dest), k, DistanceTo(o, dest))
    ensures IsCappedDistance(o.g, o.source, Position(o.names, dest), DistanceTo(o, dest))
  {
    var t := Position(o.names, dest);
    k := o.rounds[0].hop[t];
    assert IsFirstHop(o.g, o.source, t, k, o.rounds[0].distance[t]);
    PositiveCostHasOrigin(lsdb, o.names[k], r);
  }

  /** The next hop's own distance is what is left. */
  lemma OnwardFrom(o: Outcome, lsdb: seq<AdjLsa>, e: Outcome, lsdb': seq<AdjLsa>, k: nat, dest: Name)
    requires k < |o.names| && dest in o.names && dest in e.names && SameHeld(lsdb, lsdb')
    requires 0 <= o.source < |o.names| && IsCalculation(o, lsdb, o.names[o.source], true) && IsCalculation(e, lsdb', o.names[k], true)
    requires IsFirstHop(o.g, o.source, Position(o.names, dest), k, DistanceTo(o, dest)) && DistanceTo(o, dest) < INF_DISTANCE
    requires IsCappedDistance(o.g, o.source, Position(o.names, dest), DistanceTo(o, dest))
    ensures DistanceTo(o, dest) == o.g[o.source][k] + DistanceTo(e, dest)
  {
    MentionedIgnoresOrder(lsdb, lsdb');
    var t, t', rest := Position(o.names, dest), Position(e.names, dest), DistanceTo(e, dest);
    OwnOrExact(e.g, e.source, e.rounds[0], t');
    RenumberedDistance(lsdb', e.g, e.names, lsdb, o.g, o.names, e.source, t', k, t, rest);
    OnwardDistance(o.g, o.source, k, t, DistanceTo(o, dest), rest);
  }

  lemma OwnOrExact(g: Matrix, s: int, round: Round, t: int)
    requires RoundExact(g, s, round) && 0 <= t < |g|
    ensures IsCappedDistance(g, s, t, round.distance[t])
  {
    if t == s {
      assert IsPath(g, [s], s, s) && Cost(g, [s]) == 0;
    }
  }

  /** After the first hop of a least-cost path, what is left is a least-cost path. */
  lemma OnwardDistance(g: Matrix, s: int, h: int, t: int, d: nat, e: nat)
    requires IsFirstHop(g, s, t, h, d) && d < INF_DISTANCE
    requires IsCappedDistance(g, s, t, d) && IsCappedDistance(g, h, t, e)
    ensures d == g[s][h] + e
  {
    var p :| IsPath(g, p, h, t) && g[s][h] + Cost(g, p) == d;
    var q :| IsPath(g, q, h, t) && Cost(g, q) == e;
    PrependEdge(g, s, h, q, t);
  }

  lemma OwnDistanceIsZero(o: Outcome, lsdb: seq<AdjLsa>, r: Name)
    requires IsCalculation(o, lsdb, r, true)
    ensures Ready(o, r) && DistanceTo(o, r) == 0
  {
    assert o.names[o.source] in o.names;
    assert Position(o.names, r) == o.source;
  }

  // ----- the way to one destination, or to the nearest of several -----

  /** What the routers' tables say about where a packet is to go. */
  datatype Way = Way(dests: set<Name>, distance: map<Name, nat>, hop: map<Name, Name>)

  ghost function WayTo(net: Network, dest: Name): Way
    requires forall r :: r in net ==> Ready(net[r], dest)
  {
    Way({dest},
        map r | r in net :: DistanceTo(net[r], dest),
        map r | r in net && HopTo(net[r], dest).Some? :: HopTo(net[r], dest).value)
  }

  ghost predicate Downhill(way: Way, lsdb: seq<AdjLsa>) {
    && (forall r :: r in way.distance && r in way.dests ==> way.distance[r] == 0)
    && forall r :: r in way.distance && r !in way.dests && way.distance[r] < INF_DISTANCE ==> StepsDown(way, lsdb, r)
  }

  ghost predicate StepsDown(way: Way, lsdb: seq<AdjLsa>, r: Name)
    requires r in way.distance
  {
    && r in way.hop && way.hop[r] in way.distance
    && LinkCost(lsdb, r, way.hop[r]) > 0
    && way.distance[r] == LinkCost(lsdb, r, way.hop[r]) + way.distance[way.hop[r]]
  }

  /** In a network that has calculated, every hop lowers the remaining distance by its cost, which any of
      the databases tells. */
  lemma WayIsDownhill(net: Network, dbs: Databases, at: Name, dest: Name)
    requires AllCalculated(net, dbs) && at in dbs && dest in Mentioned(dbs[at])
    ensures forall r :: r in net ==> Ready(net[r], dest)
    ensures Downhill(WayTo(net, dest), dbs[at])
  {
    AllReady(net, dbs, at, dest);
    AllStepDown(net, dbs, at, dest);
    if dest in net { OwnDistanceIsZero(net[dest], dbs[dest], dest); }
    StepsMakeDownhill(net, dbs[at], dest);
  }

  lemma AllStepDown(net: Network, dbs: Databases, at: Name, dest: Name)
    requires AllCalculated(net, dbs) && at in dbs && dest in Mentioned(dbs[at])
    requires forall r :: r in net ==> Ready(net[r], dest)
    ensures forall r :: r in net && r != dest && DistanceTo(net[r], dest) < INF_DISTANCE ==> StepsDown(WayTo(net, dest), dbs[at], r)
  {
    forall r | r in net && r != dest && DistanceTo(net[r], dest) < INF_DISTANCE
      ensures StepsDown(WayTo(net, dest), dbs[at], r)
    {
      WayStepsDown(net, dbs, at, dest, r);
    }
  }

  lemma StepsMakeDownhill(net: Network, lsdb: seq<AdjLsa>, dest: Name)
    requires forall r :: r in net ==> Ready(net[r], dest)
    requires dest in net ==> DistanceTo(net[dest], dest) == 0
    requires forall r :: r in net && r != dest && DistanceTo(net[r], dest) < INF_DISTANCE ==> StepsDown(WayTo(net, dest), lsdb, r)
    ensures Downhill(WayTo(net, dest), lsdb)
  {
  }

  lemma WayStepsDown(net: Network, dbs: Databases, at: Name, dest: Name, r: Name)
    requires AllCalculated(net, dbs) && at in dbs && dest in Mentioned(dbs[at])
    requires (forall x :: x in net ==> Ready(net[x], dest)) && r in net && r != dest && DistanceTo(net[r], dest) < INF_DISTANCE
    ensures StepsDown(WayTo(net, dest), dbs[at], r)
  {
    assert SameHeld(dbs[at], dbs[r]);
    MentionedIgnoresOrder(dbs[at], dbs[r]);
    HopGetsNearer(net, dbs, r, dest);
    CostsIgnoreOrder(dbs[at], dbs[r], r, HopTo(net[r], dest).value);
  }

  /** The routers a packet passes when each forwards it to its own next hop. */
  ghost function Route(way: Way, lsdb: seq<AdjLsa>, r: Name): (route: seq<Name>)
    requires Downhill(way, lsdb) && r in way.distance && way.distance[r] < INF_DISTANCE
    ensures |route| > 0 && route[0] == r
    decreases way.distance[r]
  {
    if r in way.dests then [r]
    else
      assert StepsDown(way, lsdb, r);
      [r] + Route(way, lsdb, way.hop[r])
  }

  ghost function RouteCost(lsdb: seq<AdjLsa>, route: seq<Name>): nat {
    if |route| < 2 then 0 else LinkCost(lsdb, route[0], route[1]) + RouteCost(lsdb, route[1..])
  }

  /** From r to one of the destinations over links that are up. */
  ghost predicate IsLive(lsdb: seq<AdjLsa>, route: seq<Name>, r: Name, dests: set<Name>) {
    && |route| > 0 && route[0] == r && route[|route| - 1] in dests
    && forall i :: 0 <= i < |route| - 1 ==> LinkCost(lsdb, route[i], route[i + 1]) > 0
  }

  lemma PrependLive(lsdb: seq<AdjLsa>, rest: seq<Name>, r: Name, h: Name, dests: set<Name>)
    requires IsLive(lsdb, rest, h, dests) && LinkCost(lsdb, r, h) > 0
    ensures IsLive(lsdb, [r] + rest, r, dests)
    ensures RouteCost(lsdb, [r] + rest) == LinkCost(lsdb, r, h) + RouteCost(lsdb, rest)
  {
    var route := [r] + rest;
    assert route[1..] == rest;
    forall i | 0 <= i < |route| - 1
      ensures LinkCost(lsdb, route[i], route[i + 1]) > 0
    {
      assert i > 0 ==> route[i] == rest[i - 1] && route[i + 1] == rest[i];
    }
  }

  /** Forwarding delivers: the route ends at a destination over live links, and costs exactly what
      the first router computed, which is the least cost there is. */
  lemma {:induction false} RouteDelivers(way: Way, lsdb: seq<AdjLsa>, r: Name)
    requires Downhill(way, lsdb) && r in way.distance && way.distance[r] < INF_DISTANCE
    ensures IsLive(lsdb, Route(way, lsdb, r), r, way.dests)
    ensures RouteCost(lsdb, Route(way, lsdb, r)) == way.distance[r]
    decreases way.distance[r]
  {
    if r !in way.dests {
      assert StepsDown(way, lsdb, r);
      RouteDelivers(way, lsdb, way.hop[r]);
      PrependLive(lsdb, Route(way, lsdb, way.hop[r]), r, way.hop[r], way.dests);
    }
  }

  /** The remaining distance falls strictly along the route. */
  lemma {:induction false} RouteGetsNearer(way: Way, lsdb: seq<AdjLsa>, r: Name, i: nat)
    requires Downhill(way, lsdb) && r in way.distance && way.distance[r] < INF_DISTANCE
    requires i < |Route(way, lsdb, r)|
    ensures var x := Route(way, lsdb, r)[i];
            x in way.distance && (if i == 0 then x == r else way.distance[x] < way.distance[r])
    decreases i
  {
    if i > 0 && r !in way.dests {
      assert StepsDown(way, lsdb, r);
      RouteGetsNearer(way, lsdb, way.hop[r], i - 1);
      var rest := Route(way, lsdb, way.hop[r]);
      assert way.distance[way.hop[r]] < way.distance[r];
      assert Route(way, lsdb, r)[i] == rest[i - 1];
    }
  }

  /** No forwarding loop: no router sees the packet twice, so among n routers it takes at most n - 1
      hops. */
  lemma {:induction false} RouteIsLoopFree(way: Way, lsdb: seq<AdjLsa>, r: Name)
    requires Downhill(way, lsdb) && r in way.distance && way.distance[r] < INF_DISTANCE
    ensures NoDuplicates(Route(way, lsdb, r))
    ensures |Route(way, lsdb, r)| - 1 <= |way.distance| - 1
    decreases way.distance[r]
  {
    var route := Route(way, lsdb, r);
    if r !in way.dests {
      assert StepsDown(way, lsdb, r);
      RouteIsLoopFree(way, lsdb, way.hop[r]);
      var rest := Route(way, lsdb, way.hop[r]);
      forall i, j | 0 <= i < j < |route|
        ensures route[i] != route[j]
      {
        assert route[j] == rest[j - 1];
        assert i > 0 ==> route[i] == rest[i - 1];
        if i == 0 { RouteGetsNearer(way, lsdb, r, j); }
      }
    }
    forall i | 0 <= i < |route|
      ensures route[i] in way.distance
    {
      RouteGetsNearer(way, lsdb, r, i);
    }
    DistinctBounded(route, way.distance.Keys);
    assert |way.distance.Keys| == |way.distance|;
  }

  lemma {:induction false} DistinctBounded(s: seq<Name>, within: set<Name>)
    requires NoDuplicates(s) && forall i :: 0 <= i < |s| ==> s[i] in within
    ensures |s| <= |within|
  {
    if |s| > 0 {
      var k := |s| - 1;
      DistinctBounded(s[..k], within - {s[k]});
    }
  }

  /** Hop-by-hop forwarding in a network whose routers hold the same LSAs, each in its own order: a packet
      for a destination within reach arrives over live links, at the least cost there is, passing no router
      twice, and so after at most n - 1 hops. */
  lemma NetworkDelivers(net: Network, dbs: Databases, r: Name, dest: Name)
    requires AllCalculated(net, dbs) && r in net && dest in Mentioned(dbs[r])
    ensures Ready(net[r], dest)
    ensures IsCappedDistance(net[r].g, net[r].source, Position(net[r].names, dest), DistanceTo(net[r], dest))
    ensures DistanceTo(net[r], dest) < INF_DISTANCE ==> exists route :: IsDelivery(net, dbs[r], route, r, dest)
  {
    WayIsDownhill(net, dbs, r, dest);
    OwnOrExact(net[r].g, net[r].source, net[r].rounds[0], Position(net[r].names, dest));
    if DistanceTo(net[r], dest) < INF_DISTANCE {
      DownhillDelivers(net, dbs[r], r, dest);
    }
  }

  /** The route taken: over live links, at the recorded distance, no router twice. */
  ghost predicate IsDelivery(net: Network, lsdb: seq<AdjLsa>, route: seq<Name>, r: Name, dest: Name)
    requires r in net && Ready(net[r], dest)
  {
    && Passes(net, route, dest) && IsLive(lsdb, route, r, {dest})
    && RouteCost(lsdb, route) == DistanceTo(net[r], dest)
    && NoDuplicates(route) && |route| - 1 <= |net| - 1
  }

  lemma WayCovers(net: Network, dest: Name)
    requires forall r :: r in net ==> Ready(net[r], dest)
    ensures |WayTo(net, dest).distance| == |net|
  {
    var d := WayTo(net, dest).distance;
    assert d.Keys == net.Keys;
    assert |d| == |d.Keys| && |net| == |net.Keys|;
  }

  lemma DownhillDelivers(net: Network, lsdb: seq<AdjLsa>, r: Name, dest: Name)
    requires (forall x :: x in net ==> Ready(net[x], dest)) && Downhill(WayTo(net, dest), lsdb)
    requires r in net && DistanceTo(net[r], dest) < INF_DISTANCE
    ensures exists route :: IsDelivery(net, lsdb, route, r, dest)
  {
    var way := WayTo(net, dest);
    var route := Route(way, lsdb, r);
    RouteDelivers(way, lsdb, r);
    RouteIsLoopFree(way, lsdb, r);
    RouteFollows(way, lsdb, r);
    WayCovers(net, dest);
    forall i | 0 <= i < |route| - 1
      ensures Forwards(net, route[i], route[i + 1], dest)
    {
      assert Sends(way, route[i], route[i + 1]);
    }
    assert IsDelivery(net, lsdb, route, r, dest);
  }

  /** Each router on the route but the last forwards to the next one. */
  ghost predicate Passes(net: Network, route: seq<Name>, dest: Name) {
    forall i :: 0 <= i < |route| - 1 ==> Forwards(net, route[i], route[i + 1], dest)
  }

  ghost predicate Forwards(net: Network, r: Name, h: Name, dest: Name) {
    r in net && Ready(net[r], dest) && HopTo(net[r], dest) == Some(h)
  }

  /** Each router on the route but the last sends the packet to the next one. */
  ghost predicate IsFollowed(way: Way, route: seq<Name>) {
    forall i :: 0 <= i < |route| - 1 ==> Sends(way, route[i], route[i + 1])
  }

  ghost predicate Sends(way: Way, r: Name, h: Name) {
    r in way.hop && way.hop[r] == h
  }

  lemma {:induction false} RouteFollows(way: Way, lsdb: seq<AdjLsa>, r: Name)
    requires Downhill(way, lsdb) && r in way.distance && way.distance[r] < INF_DISTANCE
    ensures IsFollowed(way, Route(way, lsdb, r))
    decreases way.distance[r]
  {
    if r !in way.dests {
      assert StepsDown(way, lsdb, r);
      RouteFollows(way, lsdb, way.hop[r]);
      var rest, route := Route(way, lsdb, way.hop[r]), Route(way, lsdb, r);
      assert route == [r] + rest;
      forall i | 0 <= i < |route| - 1
        ensures Sends(way, route[i], route[i + 1])
      {
        if i > 0 { assert Sends(way, rest[i - 1], rest[i]); }
      }
    }
  }
}
