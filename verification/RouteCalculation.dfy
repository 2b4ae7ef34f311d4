/** One whole route calculation (calculateLsRoutingTable in src/route/routing-table.cpp and
    calculatePath in src/route/routing-table-calculator.cpp), and what its table means. */
module RouteCalculation {
  import opened Names
  import opened Graphs
  import opened ShortestTrees
  import opened Hops
  import opened Listings
  import opened RouterMaps
  import opened RoutingTables
  import opened AdjacencyCosts
  import opened RouteOffers
  import opened LinkState

  /** Names, graph, own number and runs of a calculation that ended with this table. */
  datatype Outcome = Outcome(names: seq<Name>, g: Matrix, source: int, rounds: seq<Round>)

  ghost predicate IsCalculation(o: Outcome, lsdb: seq<AdjLsa>, thisRouter: Name, single: bool) {
    && NoDuplicates(o.names) && (forall r :: r in o.names <==> r in Mentioned(lsdb))
    && IsNetwork(o.g, lsdb, o.names)
    && 0 <= o.source < |o.names| && o.names[o.source] == thisRouter
    && RunsMade(o.g, o.source, single, o.rounds)
  }

  ghost predicate IsOutcome(o: Outcome, view: View, lsdb: seq<AdjLsa>, faceUris: map<Name, string>, thisRouter: Name, maxFaces: nat) {
    && IsCalculation(o, lsdb, thisRouter, maxFaces == 1)
    && TableHolds(view, o.rounds, o.names, faceUris, o.source)
  }

  /** Called on a cleared table. A router that no LSA mentions gets no routes in single-path mode. */
  method CalculateLsRoutingTable(lsdb: seq<AdjLsa>, faceUris: map<Name, string>, thisRouter: Name, maxFaces: nat, rt: RoutingTable)
      returns (ghost o: Outcome)
    requires rt.Valid() && ViewOf(rt.entries) == map[] && (thisRouter in Mentioned(lsdb) || maxFaces == 1)
    modifies rt
    ensures rt.Valid()
    ensures if thisRouter in Mentioned(lsdb) then IsOutcome(o, ViewOf(rt.entries), lsdb, faceUris, thisRouter, maxFaces)
            else ViewOf(rt.entries) == map[]
  {
    var routers := new RouterMap();
    routers.CreateFromAdjLsdb(lsdb);
    var calculator := new LinkStateRoutingTableCalculator(routers.mappingIndex);
    ghost var g, source, rounds := calculator.CalculatePath(lsdb, routers, rt, faceUris, thisRouter, maxFaces);
    o := Outcome(routers.Routers(), g, source, rounds);
  }

  /** Single-path mode: a router within reach has exactly one hop, the face of the first router on a
      least-cost path, at the least cost; a router out of reach has none. */
  lemma SinglePathTable(o: Outcome, view: View, lsdb: seq<AdjLsa>, faceUris: map<Name, string>, thisRouter: Name, i: nat, d: nat)
    requires IsOutcome(o, view, lsdb, faceUris, thisRouter, 1) && i < |o.names| && i != o.source
    requires IsCappedDistance(o.g, o.source, i, d)
    ensures o.names[i] in view <==> d < INF_DISTANCE
    ensures d < INF_DISTANCE ==>
              exists h :: IsFirstHop(o.g, o.source, i, h, d) && view[o.names[i]] == map[FaceOf(faceUris, o.names[h]) := d]
  {
    var round := o.rounds[0];
    assert o.rounds == [round];
    SoleRoundEntry(o.g, o.source, round, view, o.names, faceUris, i, d);
  }

  lemma SoleRoundEntry(g: Matrix, source: int, round: Round, view: View, names: seq<Name>, faceUris: map<Name, string>, i: nat, d: nat)
    requires |g| == |names| && i < |names| && i != source && RoundExact(g, source, round) && RoundsFit([round], |names|)
    requires EntryHolds(view, [round], names, faceUris, i)
    requires IsCappedDistance(g, source, i, d)
    ensures names[i] in view <==> d < INF_DISTANCE
    ensures d < INF_DISTANCE ==>
              exists h :: IsFirstHop(g, source, i, h, d) && view[names[i]] == map[FaceOf(faceUris, names[h]) := d]
  {
    CappedDistanceUnique(g, source, i, d, round.distance[i]);
    var offers := Offers([round], names, faceUris, i);
    assert Offers([round][..0], names, faceUris, i) == [];
    assert offers == OfferOf(round, names, faceUris, i);
    if d < INF_DISTANCE {
      var h := round.hop[i];
      assert IsFirstHop(g, source, i, h, d);
      assert offers[..0] == [] && MinCosts(map[], offers) == MinCost(map[], offers[0]);
    }
  }

  lemma {:induction false} OffersMembers(rounds: seq<Round>, names: seq<Name>, faceUris: map<Name, string>, i: nat, h: NextHop)
    requires i < |names| && RoundsFit(rounds, |names|)
    ensures h in Offers(rounds, names, faceUris, i) <==>
            exists k :: 0 <= k < |rounds| && h in OfferOf(rounds[k], names, faceUris, i)
  {
    if rounds != [] {
      var init := rounds[..|rounds| - 1];
      OffersMembers(init, names, faceUris, i, h);
      if h in Offers(init, names, faceUris, i) {
        var k :| 0 <= k < |init| && h in OfferOf(init[k], names, faceUris, i);
        assert h in OfferOf(rounds[k], names, faceUris, i);
      }
      if k :| 0 <= k < |rounds| && h in OfferOf(rounds[k], names, faceUris, i) {
        assert k < |init| ==> h in OfferOf(init[k], names, faceUris, i);
      }
    }
  }

  /** c is the finite cost of reaching router i by way of the neighbour l. */
  ghost predicate CostsVia(o: Outcome, l: int, i: int, c: nat) {
    && 0 <= l < |o.names| && Edge(o.g, o.source, l)
    && c < INF_DISTANCE && IsCostThrough(o.g, o.source, l, o.g[o.source][l], i, c)
  }

  /** In multi-path mode the offers towards i are exactly the costs by way of each neighbour. */
  lemma OffersAreCostsVia(o: Outcome, view: View, lsdb: seq<AdjLsa>, faceUris: map<Name, string>, thisRouter: Name, maxFaces: nat,
                          i: nat, h: NextHop)
    requires IsOutcome(o, view, lsdb, faceUris, thisRouter, maxFaces) && maxFaces != 1 && i < |o.names| && i != o.source
    ensures h in Offers(o.rounds, o.names, faceUris, i) <==>
            exists l :: CostsVia(o, l, i, h.cost) && FaceOf(faceUris, o.names[l]) == h.face
  {
    OffersMembers(o.rounds, o.names, faceUris, i, h);
    if k :| 0 <= k < |o.rounds| && h in OfferOf(o.rounds[k], o.names, faceUris, i) {
      OfferIsCostVia(o, faceUris, i, h, k);
    }
    if l :| CostsVia(o, l, i, h.cost) && FaceOf(faceUris, o.names[l]) == h.face {
      var k := CostViaIsOffer(o, faceUris, i, h, l);
    }
  }

  ghost predicate RunsThroughLinks(o: Outcome) {
    && |o.g| == |o.names| && RoundsFit(o.rounds, |o.names|) && RunsMade(o.g, o.source, false, o.rounds)
    && |o.g[o.source]| == |o.names|
  }

  lemma OfferIsCostVia(o: Outcome, faceUris: map<Name, string>, i: nat, h: NextHop, k: nat)
    requires RunsThroughLinks(o) && i < |o.names| && i != o.source
    requires k < |o.rounds| && h in OfferOf(o.rounds[k], o.names, faceUris, i)
    ensures exists l :: CostsVia(o, l, i, h.cost) && FaceOf(faceUris, o.names[l]) == h.face
  {
    var l := LinksOf(o.g[o.source])[k];
    assert RoundThrough(o.g, o.source, l, o.rounds[k]);
    assert IsCostThrough(o.g, o.source, l, o.g[o.source][l], i, o.rounds[k].distance[i]);
    assert CostsVia(o, l, i, h.cost);
  }

  lemma CostViaIsOffer(o: Outcome, faceUris: map<Name, string>, i: nat, h: NextHop, l: int) returns (k: nat)
    requires RunsThroughLinks(o) && i < |o.names| && i != o.source
    requires CostsVia(o, l, i, h.cost) && FaceOf(faceUris, o.names[l]) == h.face
    ensures k < |o.rounds| && h in OfferOf(o.rounds[k], o.names, faceUris, i)
  {
    var links := LinksOf(o.g[o.source]);
    LinksOfExact(o.g[o.source]);
    k := Position(links, l);
    assert RoundThrough(o.g, o.source, links[k], o.rounds[k]);
    CostThroughUnique(o.g, o.source, l, o.g[o.source][l], i, h.cost, o.rounds[k].distance[i]);
  }

  lemma CostThroughUnique(g: Matrix, s: int, l: int, w: nat, t: int, d: nat, e: nat)
    requires IsCostThrough(g, s, l, w, t, d) && IsCostThrough(g, s, l, w, t, e)
    ensures d == e
  {
    if d < INF_DISTANCE {
      var p :| IsPathAvoiding(g, p, l, t, s) && w + Cost(g, p) == d;
    }
    if e < INF_DISTANCE {
      var p :| IsPathAvoiding(g, p, l, t, s) && w + Cost(g, p) == e;
    }
  }

  /** Multi-path mode: towards each other router the table holds one hop per face of a neighbour by
      way of which it can be reached, at the least such cost over the neighbours on that face. */
  lemma MultiPathTable(o: Outcome, view: View, lsdb: seq<AdjLsa>, faceUris: map<Name, string>, thisRouter: Name, maxFaces: nat, i: nat)
    requires IsOutcome(o, view, lsdb, faceUris, thisRouter, maxFaces) && maxFaces != 1 && i < |o.names| && i != o.source
    ensures var costs := Towards(view, o.names[i]);
            && (o.names[i] in view <==> exists l, c :: CostsVia(o, l, i, c))
            && (forall l, c :: CostsVia(o, l, i, c) ==>
                  FaceOf(faceUris, o.names[l]) in costs && costs[FaceOf(faceUris, o.names[l])] <= c)
            && (forall f :: f in costs ==> exists l :: CostsVia(o, l, i, costs[f]) && FaceOf(faceUris, o.names[l]) == f)
  {
    var offers, costs := Offers(o.rounds, o.names, faceUris, i), Towards(view, o.names[i]);
    assert EntryHolds(view, o.rounds, o.names, faceUris, i);
    MinCostsAreLeast(map[], offers);
    forall l, c | CostsVia(o, l, i, c)
      ensures o.names[i] in view
      ensures FaceOf(faceUris, o.names[l]) in costs && costs[FaceOf(faceUris, o.names[l])] <= c
    {
      var h := NextHop(FaceOf(faceUris, o.names[l]), c);
      OffersAreCostsVia(o, view, lsdb, faceUris, thisRouter, maxFaces, i, h);
      assert h in offers;
    }
    forall f | f in costs
      ensures exists l :: CostsVia(o, l, i, costs[f]) && FaceOf(faceUris, o.names[l]) == f
    {
      OffersAreCostsVia(o, view, lsdb, faceUris, thisRouter, maxFaces, i, NextHop(f, costs[f]));
    }
    if o.names[i] in view {
      assert offers[0] in offers;
      OffersAreCostsVia(o, view, lsdb, faceUris, thisRouter, maxFaces, i, offers[0]);
    }
  }

  /** Both modes agree on reachability and on the least cost: the cheapest of the multi-path hops
      costs what the single-path run would have found. */
  lemma MultiPathMinimumIsDistance(o: Outcome, view: View, lsdb: seq<AdjLsa>, faceUris: map<Name, string>, thisRouter: Name,
                                   maxFaces: nat, i: nat, d: nat)
    requires IsOutcome(o, view, lsdb, faceUris, thisRouter, maxFaces) && maxFaces != 1 && i < |o.names| && i != o.source
    requires IsCappedDistance(o.g, o.source, i, d)
    ensures var costs := Towards(view, o.names[i]);
            && (o.names[i] in view <==> d < INF_DISTANCE)
            && (forall f :: f in costs ==> d <= costs[f])
            && (d < INF_DISTANCE ==> exists f :: f in costs && costs[f] == d)
  {
    var costs := Towards(view, o.names[i]);
    MultiPathTable(o, view, lsdb, faceUris, thisRouter, maxFaces, i);
    var links := LinksOf(o.g[o.source]);
    LinksOfExact(o.g[o.source]);
    var through := map l | l in links :: ThroughCost(o, links, l, i);
    forall l | l in through
      ensures Edge(o.g, o.source, l) && IsCostThrough(o.g, o.source, l, o.g[o.source][l], i, through[l])
    {
      var k := Position(links, l);
      assert RoundThrough(o.g, o.source, links[k], o.rounds[k]);
    }
    BestLinkIsDistance(o.g, o.source, i, d, through);
    if d < INF_DISTANCE {
      var l :| l in through && through[l] == d;
      assert CostsVia(o, l, i, d);
      assert costs[FaceOf(faceUris, o.names[l])] <= d;
    }
    forall f | f in costs
      ensures d <= costs[f]
    {
      var l :| CostsVia(o, l, i, costs[f]) && FaceOf(faceUris, o.names[l]) == f;
      CostThroughUnique(o.g, o.source, l, o.g[o.source][l], i, costs[f], through[l]);
    }
  }

  ghost function ThroughCost(o: Outcome, links: seq<int>, l: int, i: nat): nat
    requires l in links && |links| == |o.rounds| && forall k :: 0 <= k < |links| ==> i < |o.rounds[k].distance|
  {
    o.rounds[Position(links, l)].distance[i]
  }
}
