/** What Dijkstra runs offer the routing table, and what the table then holds. */
module RouteOffers {
  import opened Names
  import opened Listings
  import opened Graphs
  import opened ShortestTrees
  import opened Hops
  import opened RouterMaps
  import opened RoutingTables

  /** One Dijkstra run: each router's distance, and the next hop towards it (or NO_NEXT_HOP). */
  datatype Round = Round(distance: seq<nat>, hop: seq<int>)

  ghost function FaceOf(faceUris: map<Name, string>, router: Name): string {
    if router in faceUris then faceUris[router] else ""
  }

  ghost predicate RoundFits(round: Round, n: nat) {
    && |round.distance| == |round.hop| == n
    && forall i :: 0 <= i < n ==> round.hop[i] == NO_NEXT_HOP || 0 <= round.hop[i] < n
  }

  ghost predicate RoundsFit(rounds: seq<Round>, n: nat) {
    forall round :: round in rounds ==> RoundFits(round, n)
  }

  /** The hop a run offers towards router i, if any. */
  ghost function OfferOf(round: Round, names: seq<Name>, faceUris: map<Name, string>, i: nat): seq<NextHop>
    requires i < |names| && RoundFits(round, |names|)
  {
    if round.hop[i] == NO_NEXT_HOP then [] else [NextHop(FaceOf(faceUris, names[round.hop[i]]), round.distance[i])]
  }

  /** The hops the rounds offer towards router i, in order. */
  ghost function Offers(rounds: seq<Round>, names: seq<Name>, faceUris: map<Name, string>, i: nat): seq<NextHop>
    requires i < |names| && RoundsFit(rounds, |names|)
  {
    if rounds == [] then []
    else
      Offers(rounds[..|rounds| - 1], names, faceUris, i) + OfferOf(rounds[|rounds| - 1], names, faceUris, i)
  }

  ghost predicate EntryHolds(view: View, rounds: seq<Round>, names: seq<Name>, faceUris: map<Name, string>, i: nat)
    requires i < |names| && RoundsFit(rounds, |names|)
  {
    var offers := Offers(rounds, names, faceUris, i);
    (names[i] in view <==> offers != []) && Towards(view, names[i]) == MinCosts(map[], offers)
  }

  ghost predicate OnlyOthers(view: View, names: seq<Name>, source: int) {
    forall r :: r in view ==> exists i :: 0 <= i < |names| && i != source && names[i] == r
  }

  /** The table holds, for each router but the source, the rounds' offers: one hop per face, at the
      least cost; routers never offered a hop are not listed. */
  ghost predicate TableHolds(view: View, rounds: seq<Round>, names: seq<Name>, faceUris: map<Name, string>, source: int) {
    && RoundsFit(rounds, |names|)
    && (forall i: nat :: i < |names| && i != source ==> EntryHolds(view, rounds, names, faceUris, i))
    && OnlyOthers(view, names, source)
  }

  /** While one more round is being entered, with the routers below k done. */
  ghost predicate TableFilling(view: View, rounds: seq<Round>, round: Round, names: seq<Name>, faceUris: map<Name, string>,
                               source: int, k: nat) {
    && RoundsFit(rounds, |names|) && RoundsFit(rounds + [round], |names|)
    && (forall i: nat :: i < k && i < |names| && i != source ==> EntryHolds(view, rounds + [round], names, faceUris, i))
    && (forall i: nat :: k <= i < |names| && i != source ==> EntryHolds(view, rounds, names, faceUris, i))
    && OnlyOthers(view, names, source)
  }

  lemma StartFilling(view: View, rounds: seq<Round>, round: Round, names: seq<Name>, faceUris: map<Name, string>, source: int)
    requires TableHolds(view, rounds, names, faceUris, source) && RoundFits(round, |names|)
    ensures TableFilling(view, rounds, round, names, faceUris, source, 0)
  {
    forall r | r in rounds + [round]
      ensures RoundFits(r, |names|)
    {
      assert r in rounds || r == round;
    }
  }

  ghost function Entered(view: View, round: Round, names: seq<Name>, faceUris: map<Name, string>, source: int, k: nat): View
    requires k < |names| && RoundFits(round, |names|)
  {
    if k == source || round.hop[k] == NO_NEXT_HOP then view
    else Offer(view, names[k], NextHop(FaceOf(faceUris, names[round.hop[k]]), round.distance[k]))
  }

  lemma FillStep(view: View, rounds: seq<Round>, round: Round, names: seq<Name>, faceUris: map<Name, string>, source: int, k: nat)
    requires RoundFits(round, |names|)
    requires TableFilling(view, rounds, round, names, faceUris, source, k) && k < |names| && NoDuplicates(names)
    ensures TableFilling(Entered(view, round, names, faceUris, source, k), rounds, round, names, faceUris, source, k + 1)
  {
    var view' := Entered(view, round, names, faceUris, source, k);
    forall i: nat | i < k && i != source
      ensures EntryHolds(view', rounds + [round], names, faceUris, i)
    {
      EntryUntouched(view, rounds + [round], round, names, faceUris, source, k, i);
    }
    forall i: nat | k < i < |names| && i != source
      ensures EntryHolds(view', rounds, names, faceUris, i)
    {
      EntryUntouched(view, rounds, round, names, faceUris, source, k, i);
    }
    if k != source {
      FillEntry(view, rounds, round, names, faceUris, source, k);
    }
    OthersStay(view, round, names, faceUris, source, k);
  }

  lemma OthersStay(view: View, round: Round, names: seq<Name>, faceUris: map<Name, string>, source: int, k: nat)
    requires OnlyOthers(view, names, source) && k < |names| && RoundFits(round, |names|)
    ensures OnlyOthers(Entered(view, round, names, faceUris, source, k), names, source)
  {
    forall r | r in Entered(view, round, names, faceUris, source, k)
      ensures exists i :: 0 <= i < |names| && i != source && names[i] == r
    {
      assert r in view || (k != source && names[k] == r);
    }
  }

  lemma EntryUntouched(view: View, rounds: seq<Round>, round: Round, names: seq<Name>, faceUris: map<Name, string>, source: int, k: nat, i: nat)
    requires RoundFits(round, |names|) && RoundsFit(rounds, |names|) && NoDuplicates(names)
    requires k < |names| && i < |names| && i != k && EntryHolds(view, rounds, names, faceUris, i)
    ensures EntryHolds(Entered(view, round, names, faceUris, source, k), rounds, names, faceUris, i)
  {
    assert names[i] != names[k];
  }

  lemma FillEntry(view: View, rounds: seq<Round>, round: Round, names: seq<Name>, faceUris: map<Name, string>, source: int, k: nat)
    requires RoundFits(round, |names|) && RoundsFit(rounds, |names|) && RoundsFit(rounds + [round], |names|)
    requires k < |names| && k != source && EntryHolds(view, rounds, names, faceUris, k)
    ensures EntryHolds(Entered(view, round, names, faceUris, source, k), rounds + [round], names, faceUris, k)
  {
    var before, offer := Offers(rounds, names, faceUris, k), OfferOf(round, names, faceUris, k);
    assert (rounds + [round])[..|rounds|] == rounds;
    assert Offers(rounds + [round], names, faceUris, k) == before + offer;
    var view' := Entered(view, round, names, faceUris, source, k);
    if offer == [] {
      assert before + offer == before && view' == view;
    } else {
      var nh := offer[0];
      assert offer == [nh] && view' == Offer(view, names[k], nh);
      assert Towards(view', names[k]) == MinCost(Towards(view, names[k]), nh);
      MinCostsSnoc(map[], before, nh);
      assert EntryHolds(view', rounds + [round], names, faceUris, k);
    }
  }

  // ----- what one run comes to -----

  ghost function RoundOf(d: seq<nat>, par: seq<int>, source: int): (round: Round)
    requires ParentsDescend(d, par)
    ensures RoundFits(round, |d|)
  {
    HopsInRange(d, par, source);
    Round(d, seq(|d|, i requires 0 <= i < |d| => NextHopTo(d, par, i, source)))
  }

  /** A run that has reached no router. */
  ghost predicate IsIdle(round: Round) {
    forall i :: 0 <= i < |round.hop| ==> round.hop[i] == NO_NEXT_HOP
  }

  lemma BlankIsIdle(d: seq<nat>, par: seq<int>)
    requires IsBlank(|d|, d, par)
    ensures ParentsDescend(d, par) && IsIdle(RoundOf(d, par, NO_MAPPING_NUM))
  {
  }

  lemma IdleTable(view: View, round: Round, names: seq<Name>, faceUris: map<Name, string>)
    requires TableHolds(view, [round], names, faceUris, NO_MAPPING_NUM) && IsIdle(round)
    ensures view == map[]
  {
    assert [round][..0] == [];
    forall i: nat | i < |names|
      ensures names[i] !in view
    {
      assert EntryHolds(view, [round], names, faceUris, i);
      assert Offers([round][..0], names, faceUris, i) == [] && OfferOf(round, names, faceUris, i) == [];
      assert Offers([round], names, faceUris, i) == [];
    }
    assert forall r :: r in view ==> false;
  }

  lemma HopsInRange(d: seq<nat>, par: seq<int>, source: int)
    requires ParentsDescend(d, par)
    ensures forall i :: 0 <= i < |d| ==> var h := NextHopTo(d, par, i, source); h == NO_NEXT_HOP || 0 <= h < |d|
  {
    forall i | 0 <= i < |d|
      ensures var h := NextHopTo(d, par, i, source); h == NO_NEXT_HOP || 0 <= h < |d|
    {
      AncestorInRange(d, par, i, NO_NEXT_HOP);
    }
  }

  lemma {:induction false} AncestorInRange(d: seq<nat>, par: seq<int>, i: int, hop: int)
    requires ParentsDescend(d, par) && 0 <= i < |d|
    ensures var h := Ancestor(d, par, i, hop).1; h == hop || 0 <= h < |d|
    decreases d[i]
  {
    if par[i] != EMPTY_PARENT {
      AncestorInRange(d, par, par[i], i);
    }
  }

  /** The run's distances are exact; every router within reach has the first hop of a least-cost
      path, and no other router has a hop. */
  ghost predicate RoundExact(g: Matrix, s: int, round: Round) {
    && RoundFits(round, |g|) && 0 <= s < |g| && round.distance[s] == 0
    && forall i :: 0 <= i < |g| && i != s ==>
         && IsCappedDistance(g, s, i, round.distance[i])
         && (round.distance[i] == INF_DISTANCE ==> round.hop[i] == NO_NEXT_HOP)
         && (round.distance[i] < INF_DISTANCE ==> IsFirstHop(g, s, i, round.hop[i], round.distance[i]))
  }

  lemma TreeRoundIsExact(g: Matrix, s: int, d: seq<nat>, par: seq<int>)
    requires IsTree(g, s, d, par)
    ensures ParentsDescend(d, par) && RoundExact(g, s, RoundOf(d, par, s))
  {
    TreeDescends(g, s, d, par);
    forall i | 0 <= i < |g| && i != s
      ensures var round := RoundOf(d, par, s);
              && IsCappedDistance(g, s, i, round.distance[i])
              && (round.distance[i] == INF_DISTANCE ==> round.hop[i] == NO_NEXT_HOP)
              && (round.distance[i] < INF_DISTANCE ==> IsFirstHop(g, s, i, round.hop[i], round.distance[i]))
    {
      TreeDistancesAreExact(g, s, d, par, i);
      TreeNextHop(g, s, d, par, i);
    }
  }

  /** With the source row cut down to the link to l, every hop is l and the distances are the costs
      through l. */
  ghost predicate RoundThrough(g: Matrix, s: int, l: int, round: Round) {
    && RoundFits(round, |g|) && Edge(g, s, l)
    && forall i :: 0 <= i < |g| && i != s ==>
         && IsCostThrough(g, s, l, g[s][l], i, round.distance[i])
         && round.hop[i] == if round.distance[i] == INF_DISTANCE then NO_NEXT_HOP else l
  }

  lemma RestrictedRoundIsThrough(g: Matrix, r: Matrix, s: int, l: int, round: Round)
    requires IsRestriction(g, r, s, l) && Edge(g, s, l) && RoundExact(r, s, round)
    ensures RoundThrough(g, s, l, round)
  {
    forall i | 0 <= i < |g| && i != s
      ensures IsCostThrough(g, s, l, g[s][l], i, round.distance[i])
      ensures round.hop[i] == if round.distance[i] == INF_DISTANCE then NO_NEXT_HOP else l
    {
      RestrictedDistance(g, r, s, l, i, round.distance[i]);
      if round.distance[i] < INF_DISTANCE {
        assert Edge(r, s, round.hop[i]);
      }
    }
  }

  /** The links out of a router: columns of its row that are positive, in order. */
  ghost function LinksOf(row: seq<nat>): (links: seq<int>)
    ensures |links| <= |row|
  {
    if row == [] then []
    else
      var k := |row| - 1;
      LinksOf(row[..k]) + if row[k] > 0 then [k] else []
  }

  lemma {:induction false} LinksOfExact(row: seq<nat>)
    ensures forall l :: l in LinksOf(row) <==> 0 <= l < |row| && row[l] > 0
    ensures forall i, j :: 0 <= i < j < |LinksOf(row)| ==> LinksOf(row)[i] < LinksOf(row)[j]
  {
    if row != [] {
      LinksOfExact(row[..|row| - 1]);
      var links, init := LinksOf(row), LinksOf(row[..|row| - 1]);
      assert forall i :: 0 <= i < |init| ==> init[i] in init;
    }
  }

  lemma {:induction false} LinksOfPrefix(row: seq<nat>, k: nat)
    requires k <= |row|
    ensures |LinksOf(row[..k])| <= |LinksOf(row)|
    decreases |row|
  {
    if k < |row| {
      LinksOfPrefix(row[..|row| - 1], k);
      assert row[..|row| - 1][..k] == row[..k];
    } else {
      assert row[..k] == row;
    }
  }

  /** The links in the first i columns, with their costs. */
  ghost predicate LinksListed(links: seq<int>, costs: seq<nat>, row: seq<nat>, i: nat) {
    && i <= |row| && |links| == |costs| && links == LinksOf(row[..i])
    && forall k :: 0 <= k < |links| ==> 0 <= links[k] < |row| && costs[k] == row[links[k]]
  }

  lemma ListNext(links: seq<int>, costs: seq<nat>, row: seq<nat>, i: nat)
    requires LinksListed(links, costs, row, i) && i < |row|
    ensures row[i] > 0 ==> LinksListed(links + [i], costs + [row[i]], row, i + 1) && |links| < |LinksOf(row)|
    ensures row[i] == 0 ==> LinksListed(links, costs, row, i + 1)
  {
    LinksOfNext(row, i);
    LinksOfPrefix(row, i + 1);
  }

  lemma LinksOfNext(row: seq<nat>, i: nat)
    requires i < |row|
    ensures LinksOf(row[..i + 1]) == LinksOf(row[..i]) + if row[i] > 0 then [i] else []
  {
    assert row[..i + 1][..i] == row[..i];
  }

  /** The runs a calculation makes: a single one from the source, or one through each link out of it. */
  ghost predicate RunsMade(g: Matrix, source: int, single: bool, rounds: seq<Round>) {
    && 0 <= source < |g|
    && if single then |rounds| == 1 && RoundExact(g, source, rounds[0])
       else |rounds| == |LinksOf(g[source])|
            && forall k :: 0 <= k < |rounds| ==> RoundThrough(g, source, LinksOf(g[source])[k], rounds[k])
  }
}
