/** Link costs as the adjacency LSAs advertise them, and as both ends agree on them
    (src/route/routing-table-calculator.cpp, makeAdjMatrix). */
module AdjacencyCosts {
  import opened Names
  import opened Graphs
  import opened RouterMaps

  /** The cost the adjacency list gives for b; prior if it does not mention b. */
  ghost function Told(adjacents: seq<Adjacency>, b: Name, prior: nat): nat {
    if adjacents == [] then prior
    else
      var last := adjacents[|adjacents| - 1];
      if last.name == b then last.cost else Told(adjacents[..|adjacents| - 1], b, prior)
  }

  /** The cost the LSAs give for the direction from a to b; 0 if none does. */
  ghost function Advertised(lsdb: seq<AdjLsa>, a: Name, b: Name): nat {
    if lsdb == [] then 0
    else
      var last, prior := lsdb[|lsdb| - 1], Advertised(lsdb[..|lsdb| - 1], a, b);
      if last.origin == a then Told(last.adjacents, b, prior) else prior
  }

  /** 0 if either direction is 0, otherwise the larger of the two costs. */
  ghost function Agreed(there: nat, back: nat): nat {
    if there == 0 || back == 0 then 0 else if there < back then back else there
  }

  ghost function LinkCost(lsdb: seq<AdjLsa>, a: Name, b: Name): nat {
    Agreed(Advertised(lsdb, a, b), Advertised(lsdb, b, a))
  }

  /** When each origin has one LSA naming each neighbour once, as the database keeps them, the
      advertised cost is the one in that LSA. */
  lemma {:induction false} AdvertisedIsStored(lsdb: seq<AdjLsa>, i: nat, k: nat)
    requires i < |lsdb| && k < |lsdb[i].adjacents|
    requires forall x, y :: 0 <= x < y < |lsdb| ==> lsdb[x].origin != lsdb[y].origin
    requires forall x, y :: 0 <= x < y < |lsdb[i].adjacents| ==> lsdb[i].adjacents[x].name != lsdb[i].adjacents[y].name
    ensures Advertised(lsdb, lsdb[i].origin, lsdb[i].adjacents[k].name) == lsdb[i].adjacents[k].cost
    decreases |lsdb|
  {
    var init := lsdb[..|lsdb| - 1];
    if i < |init| {
      assert init[i] == lsdb[i];
      AdvertisedIsStored(init, i, k);
    } else {
      ToldIsStored(lsdb[i].adjacents, k, Advertised(init, lsdb[i].origin, lsdb[i].adjacents[k].name));
    }
  }

  lemma {:induction false} ToldIsStored(adjacents: seq<Adjacency>, k: nat, prior: nat)
    requires k < |adjacents|
    requires forall x, y :: 0 <= x < y < |adjacents| ==> adjacents[x].name != adjacents[y].name
    ensures Told(adjacents, adjacents[k].name, prior) == adjacents[k].cost
    decreases |adjacents|
  {
    if k < |adjacents| - 1 {
      ToldIsStored(adjacents[..|adjacents| - 1], k, prior);
    }
  }

  /** The graph of the network: routers numbered as in the map, links at their agreed costs. */
  ghost predicate IsNetwork(g: Matrix, lsdb: seq<AdjLsa>, names: seq<Name>) {
    && Square(g, |names|)
    && forall i, j :: 0 <= i < |names| && 0 <= j < |names| ==> g[i][j] == LinkCost(lsdb, names[i], names[j])
  }

  lemma NetworkIsSymmetric(g: Matrix, lsdb: seq<AdjLsa>, names: seq<Name>)
    requires IsNetwork(g, lsdb, names)
    ensures Symmetric(g)
  {
    forall i, j | 0 <= i < |g| && 0 <= j < |g|
      ensures g[i][j] == g[j][i]
    {
      assert g[i][j] == LinkCost(lsdb, names[i], names[j]) && g[j][i] == LinkCost(lsdb, names[j], names[i]);
    }
  }

  /** No link is in use towards a router that has no LSA of its own. */
  lemma {:induction false} PositiveCostHasOrigin(lsdb: seq<AdjLsa>, a: Name, b: Name)
    requires Advertised(lsdb, a, b) > 0
    ensures exists lsa :: lsa in lsdb && lsa.origin == a
  {
    var last := lsdb[|lsdb| - 1];
    if last.origin == a {
      assert last in lsdb;
    } else {
      PositiveCostHasOrigin(lsdb[..|lsdb| - 1], a, b);
    }
  }

  /** One LSA per origin, one entry per neighbour: how the database keeps them. */
  ghost predicate Kept(lsdb: seq<AdjLsa>) {
    && (forall x, y :: 0 <= x < y < |lsdb| ==> lsdb[x].origin != lsdb[y].origin)
    && forall i :: 0 <= i < |lsdb| ==> OnePerNeighbour(lsdb[i].adjacents)
  }

  lemma {:induction false} UnadvertisedIsZero(lsdb: seq<AdjLsa>, a: Name, b: Name)
    requires Advertised(lsdb, a, b) > 0
    ensures exists i, k :: 0 <= i < |lsdb| && 0 <= k < |lsdb[i].adjacents|
              && lsdb[i].origin == a && lsdb[i].adjacents[k].name == b
  {
    var init, last := lsdb[..|lsdb| - 1], lsdb[|lsdb| - 1];
    if last.origin == a && b in Neighbours(last.adjacents) {
      var k := NeighbourIndex(last.adjacents, b);
      assert lsdb[|lsdb| - 1].adjacents[k].name == b;
    } else {
      if last.origin == a { ToldUnmentioned(last.adjacents, b, Advertised(init, a, b)); }
      UnadvertisedIsZero(init, a, b);
      var i, k :| 0 <= i < |init| && 0 <= k < |init[i].adjacents| && init[i].origin == a && init[i].adjacents[k].name == b;
      assert lsdb[i].adjacents[k].name == b;
    }
  }

  lemma {:induction false} ToldUnmentioned(adjacents: seq<Adjacency>, b: Name, prior: nat)
    requires b !in Neighbours(adjacents)
    ensures Told(adjacents, b, prior) == prior
  {
    if adjacents != [] {
      ToldUnmentioned(adjacents[..|adjacents| - 1], b, prior);
    }
  }

  lemma {:induction false} NeighbourIndex(adjacents: seq<Adjacency>, b: Name) returns (k: nat)
    requires b in Neighbours(adjacents)
    ensures k < |adjacents| && adjacents[k].name == b
  {
    k := |adjacents| - 1;
    if adjacents[k].name != b {
      k := NeighbourIndex(adjacents[..k], b);
    }
  }

  /** The p-th LSA is a's, and its k-th adjacency is b. */
  ghost predicate Tells(lsdb: seq<AdjLsa>, p: int, k: int, a: Name, b: Name) {
    && 0 <= p < |lsdb| && 0 <= k < |lsdb[p].adjacents|
    && lsdb[p].origin == a && lsdb[p].adjacents[k].name == b
  }

  /** From the stored LSAs to the graph: a link is in use exactly if both its ends advertise a positive cost for
      it, and it then costs the larger of the two. */
  lemma LinkCostsTheLarger(g: Matrix, lsdb: seq<AdjLsa>, names: seq<Name>, i: nat, j: nat)
    requires IsNetwork(g, lsdb, names) && Kept(lsdb) && i < |names| && j < |names|
    ensures forall p, k, q, m :: Tells(lsdb, p, k, names[i], names[j]) && Tells(lsdb, q, m, names[j], names[i]) ==>
              var there, back := lsdb[p].adjacents[k].cost, lsdb[q].adjacents[m].cost;
              && (g[i][j] == 0 <==> there == 0 || back == 0)
              && (there > 0 && back > 0 ==> there <= g[i][j] && back <= g[i][j] && (g[i][j] == there || g[i][j] == back))
    ensures g[i][j] > 0 ==> exists p, k, q, m :: Tells(lsdb, p, k, names[i], names[j]) && Tells(lsdb, q, m, names[j], names[i])
  {
    var a, b := names[i], names[j];
    forall p, k, q, m | Tells(lsdb, p, k, a, b) && Tells(lsdb, q, m, b, a)
      ensures Advertised(lsdb, a, b) == lsdb[p].adjacents[k].cost && Advertised(lsdb, b, a) == lsdb[q].adjacents[m].cost
    {
      assert OnePerNeighbour(lsdb[p].adjacents) && OnePerNeighbour(lsdb[q].adjacents);
      AdvertisedIsStored(lsdb, p, k);
      AdvertisedIsStored(lsdb, q, m);
    }
    if g[i][j] > 0 {
      UnadvertisedIsZero(lsdb, a, b);
      UnadvertisedIsZero(lsdb, b, a);
      var p, k :| 0 <= p < |lsdb| && 0 <= k < |lsdb[p].adjacents| && lsdb[p].origin == a && lsdb[p].adjacents[k].name == b;
      var q, m :| 0 <= q < |lsdb| && 0 <= m < |lsdb[q].adjacents| && lsdb[q].origin == b && lsdb[q].adjacents[m].name == a;
      assert Tells(lsdb, p, k, a, b) && Tells(lsdb, q, m, b, a);
    }
  }

  /** What a database says, apart from the order of its lists: for each origin its set of links. */
  ghost function Holdings(lsdb: seq<AdjLsa>): set<(Name, set<Adjacency>)> {
    set lsa | lsa in lsdb :: (lsa.origin, LinksIn(lsa.adjacents))
  }

  /** Two routers hold the same LSAs, each in its own order. */
  ghost predicate SameHeld(a: seq<AdjLsa>, b: seq<AdjLsa>) {
    Kept(a) && Kept(b) && Holdings(a) == Holdings(b)
  }

  lemma Twin(a: seq<AdjLsa>, b: seq<AdjLsa>, i: nat) returns (j: nat)
    requires Holdings(a) == Holdings(b) && i < |a|
    ensures j < |b| && b[j].origin == a[i].origin && LinksIn(b[j].adjacents) == LinksIn(a[i].adjacents)
  {
    assert a[i] in a;
    assert (a[i].origin, LinksIn(a[i].adjacents)) in Holdings(b);
    var lsa :| lsa in b && (lsa.origin, LinksIn(lsa.adjacents)) == (a[i].origin, LinksIn(a[i].adjacents));
    j :| 0 <= j < |b| && b[j] == lsa;
  }

  /** Costs depend only on which LSAs are held, not on the order they or their adjacencies are kept in. */
  lemma CostsIgnoreOrder(lsdb: seq<AdjLsa>, lsdb': seq<AdjLsa>, a: Name, b: Name)
    requires SameHeld(lsdb, lsdb')
    ensures Advertised(lsdb, a, b) == Advertised(lsdb', a, b) && LinkCost(lsdb, a, b) == LinkCost(lsdb', a, b)
  {
    AdvertisedIgnoresOrder(lsdb, lsdb', a, b);
    AdvertisedIgnoresOrder(lsdb, lsdb', b, a);
  }

  lemma AdvertisedIgnoresOrder(lsdb: seq<AdjLsa>, lsdb': seq<AdjLsa>, a: Name, b: Name)
    requires SameHeld(lsdb, lsdb')
    ensures Advertised(lsdb, a, b) == Advertised(lsdb', a, b)
  {
    if Advertised(lsdb, a, b) > 0 {
      AdvertisedIn(lsdb, lsdb', a, b);
    } else if Advertised(lsdb', a, b) > 0 {
      AdvertisedIn(lsdb', lsdb, a, b);
    }
  }

  lemma AdvertisedIn(lsdb: seq<AdjLsa>, lsdb': seq<AdjLsa>, a: Name, b: Name)
    requires SameHeld(lsdb, lsdb') && Advertised(lsdb, a, b) > 0
    ensures Advertised(lsdb', a, b) == Advertised(lsdb, a, b)
  {
    UnadvertisedIsZero(lsdb, a, b);
    var i, k :| 0 <= i < |lsdb| && 0 <= k < |lsdb[i].adjacents| && lsdb[i].origin == a && lsdb[i].adjacents[k].name == b;
    var j := Twin(lsdb, lsdb', i);
    assert lsdb[i].adjacents[k] in LinksIn(lsdb'[j].adjacents);
    var m :| 0 <= m < |lsdb'[j].adjacents| && lsdb'[j].adjacents[m] == lsdb[i].adjacents[k];
    assert OnePerNeighbour(lsdb[i].adjacents) && OnePerNeighbour(lsdb'[j].adjacents);
    AdvertisedIsStored(lsdb, i, k);
    AdvertisedIsStored(lsdb', j, m);
  }

  /** Nor do the routers mentioned. */
  lemma MentionedIgnoresOrder(lsdb: seq<AdjLsa>, lsdb': seq<AdjLsa>)
    requires SameHeld(lsdb, lsdb')
    ensures Mentioned(lsdb) == Mentioned(lsdb')
  {
    MentionedIn(lsdb, lsdb');
    MentionedIn(lsdb', lsdb);
  }

  lemma MentionedIn(lsdb: seq<AdjLsa>, lsdb': seq<AdjLsa>)
    requires Holdings(lsdb) == Holdings(lsdb')
    ensures Mentioned(lsdb) <= Mentioned(lsdb')
  {
    forall r | r in Mentioned(lsdb)
      ensures r in Mentioned(lsdb')
    {
      var i := MentionedWhere(lsdb, r);
      var j := Twin(lsdb, lsdb', i);
      MentionedMembers(lsdb', j);
      if r != lsdb[i].origin {
        var k := NeighbourIndex(lsdb[i].adjacents, r);
        assert lsdb[i].adjacents[k] in LinksIn(lsdb'[j].adjacents);
        var m :| 0 <= m < |lsdb'[j].adjacents| && lsdb'[j].adjacents[m] == lsdb[i].adjacents[k];
        NeighbourMembers(lsdb'[j].adjacents, m);
      }
    }
  }

  lemma {:induction false} MentionedWhere(lsdb: seq<AdjLsa>, r: Name) returns (i: nat)
    requires r in Mentioned(lsdb)
    ensures i < |lsdb| && (r == lsdb[i].origin || r in Neighbours(lsdb[i].adjacents))
  {
    i := |lsdb| - 1;
    if r != lsdb[i].origin && r !in Neighbours(lsdb[i].adjacents) {
      i := MentionedWhere(lsdb[..i], r);
    }
  }
}
