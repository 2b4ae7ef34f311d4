/** The link-state route calculation (src/route/routing-table-calculator.cpp): build the cost
    matrix from the adjacency LSAs, run Dijkstra over arrays, read next hops off the parents. */
module LinkState {
  import opened Names
  import opened Listings
  import opened Graphs
  import opened ShortestTrees
  import opened Hops
  import opened RouterMaps
  import opened RoutingTables
  import opened AdjacencyCosts
  import opened RouteOffers
  import opened RouterQueue

  ghost function Rows(a: array2<nat>): (g: Matrix)
    reads a
    ensures |g| == a.Length0 && forall i :: 0 <= i < |g| ==> |g[i]| == a.Length1
    ensures forall i, j :: 0 <= i < a.Length0 && 0 <= j < a.Length1 ==> g[i][j] == a[i, j]
  {
    seq(a.Length0, i requires 0 <= i < a.Length0 reads a =>
      seq(a.Length1, j requires 0 <= j < a.Length1 && 0 <= i < a.Length0 reads a => a[i, j]))
  }

  class LinkStateRoutingTableCalculator {
    const nRouters: nat
    const adjMatrix: array2<nat>
    const parent: array<int>
    const distance: array<nat>

    ghost predicate Valid()
    {
      adjMatrix.Length0 == adjMatrix.Length1 == parent.Length == distance.Length == nRouters
    }

    ghost function Graph(): Matrix
      reads adjMatrix
    {
      Rows(adjMatrix)
    }

    constructor (n: nat)
      ensures Valid() && nRouters == n
      ensures fresh(adjMatrix) && fresh(parent) && fresh(distance)
      ensures forall i, j :: 0 <= i < n && 0 <= j < n ==> adjMatrix[i, j] == 0
    {
      nRouters := n;
      adjMatrix := new nat[n, n]((i, j) => 0);
      parent := new int[n];
      distance := new nat[n];
    }

    method FillAdjMatrix(lsdb: seq<AdjLsa>, routers: RouterMap)
      requires Valid() && routers.Valid() && |routers.Routers()| == nRouters
      requires forall i, j :: 0 <= i < nRouters && 0 <= j < nRouters ==> adjMatrix[i, j] == 0
      modifies adjMatrix
      ensures forall i, j :: 0 <= i < nRouters && 0 <= j < nRouters ==>
                adjMatrix[i, j] == Advertised(lsdb, routers.Routers()[i], routers.Routers()[j])
    {
      ghost var names := routers.Routers();
      for k := 0 to |lsdb|
        invariant forall i, j :: 0 <= i < nRouters && 0 <= j < nRouters ==>
                    adjMatrix[i, j] == Advertised(lsdb[..k], names[i], names[j])
      {
        FillRow(lsdb, k, routers);
      }
      assert lsdb[..|lsdb|] == lsdb;
    }

    method FillRow(lsdb: seq<AdjLsa>, k: nat, routers: RouterMap)
      requires Valid() && routers.Valid() && |routers.Routers()| == nRouters && k < |lsdb|
      requires forall i, j :: 0 <= i < nRouters && 0 <= j < nRouters ==>
                 adjMatrix[i, j] == Advertised(lsdb[..k], routers.Routers()[i], routers.Routers()[j])
      modifies adjMatrix
      ensures forall i, j :: 0 <= i < nRouters && 0 <= j < nRouters ==>
                adjMatrix[i, j] == Advertised(lsdb[..k + 1], routers.Routers()[i], routers.Routers()[j])
    {
      ghost var names := routers.Routers();
      var row := routers.GetMappingNoByRouterName(lsdb[k].origin);
      var adl := lsdb[k].adjacents;
      for m := 0 to |adl|
        invariant forall i, j :: 0 <= i < nRouters && 0 <= j < nRouters ==>
                    adjMatrix[i, j] == if names[i] == lsdb[k].origin
                                       then Told(adl[..m], names[j], Advertised(lsdb[..k], names[i], names[j]))
                                       else Advertised(lsdb[..k], names[i], names[j])
      {
        assert adl[..m + 1][..m] == adl[..m];
        var col := routers.GetMappingNoByRouterName(adl[m].name);
        if 0 <= row < nRouters && 0 <= col < nRouters {
          adjMatrix[row, col] := adl[m].cost;
        }
      }
      assert adl[..|adl|] == adl;
      assert lsdb[..k + 1][..k] == lsdb[..k];
    }

    /** Both sides of each link end up with the cost the two of them agree on. */
    method CorrectAdjMatrix()
      requires Valid()
      modifies adjMatrix
      ensures forall i, j :: 0 <= i < nRouters && 0 <= j < nRouters ==>
                adjMatrix[i, j] == Agreed(old(adjMatrix[i, j]), old(adjMatrix[j, i]))
      ensures forall i, j :: 0 <= i < nRouters && 0 <= j < nRouters ==>
                var toCost, fromCost := old(adjMatrix[i, j]), old(adjMatrix[j, i]);
                && (adjMatrix[i, j] == 0 <==> toCost == 0 || fromCost == 0)
                && (toCost > 0 && fromCost > 0 ==>
                      toCost <= adjMatrix[i, j] && fromCost <= adjMatrix[i, j] && (adjMatrix[i, j] == toCost || adjMatrix[i, j] == fromCost))
    {
      ghost var raw := Rows(adjMatrix);
      for row := 0 to nRouters
        invariant Corrected(raw, row, 0)
      {
        for col := 0 to nRouters
          invariant Corrected(raw, row, col)
        {
          CorrectPair(raw, row, col);
        }
      }
    }

    /** Rows and columns before this row are corrected, and this row and column up to col. */
    ghost predicate Corrected(raw: Matrix, row: int, col: int)
      reads this, adjMatrix
    {
      && Valid() && Square(raw, nRouters)
      && forall i, j :: 0 <= i < nRouters && 0 <= j < nRouters ==>
           adjMatrix[i, j] ==
           if i < row || j < row || (i == row && j < col) || (j == row && i < col)
           then Agreed(raw[i][j], raw[j][i]) else raw[i][j]
    }

    method CorrectPair(ghost raw: Matrix, row: nat, col: nat)
      requires row < nRouters && col < nRouters && Corrected(raw, row, col)
      modifies adjMatrix
      ensures Corrected(raw, row, col + 1)
    {
      var toCost, fromCost := adjMatrix[row, col], adjMatrix[col, row];
      if fromCost != toCost {
        var correctedCost := 0;
        if toCost != 0 && fromCost != 0 {
          correctedCost := if toCost < fromCost then fromCost else toCost;
        }
        adjMatrix[row, col] := correctedCost;
        adjMatrix[col, row] := correctedCost;
      }
    }

    method MakeAdjMatrix(lsdb: seq<AdjLsa>, routers: RouterMap)
      requires Valid() && routers.Valid() && |routers.Routers()| == nRouters
      requires forall i, j :: 0 <= i < nRouters && 0 <= j < nRouters ==> adjMatrix[i, j] == 0
      modifies adjMatrix
      ensures IsNetwork(Graph(), lsdb, routers.Routers())
    {
      FillAdjMatrix(lsdb, routers);
      CorrectAdjMatrix();
    }

    /** Exchange sort of the unexplored part of the queue. */
    method SortQueueByDistance(Q: array<int>, start: nat)
      requires Valid() && Q.Length == nRouters && start <= nRouters && InRange(Q[..], nRouters) && NoDuplicates(Q[..])
      modifies Q
      ensures InRange(Q[..], nRouters) && SortedBy(Q[..], distance[..], start, nRouters)
      ensures NoDuplicates(Q[..]) && multiset(Q[..]) == old(multiset(Q[..])) && Q[..start] == old(Q[..start])
    {
      for i := start to nRouters
        invariant InRange(Q[..], nRouters) && NoDuplicates(Q[..])
        invariant multiset(Q[..]) == old(multiset(Q[..])) && Q[..start] == old(Q[..start])
        invariant SortedBy(Q[..], distance[..], start, i) && AllNearer(Q[..i], Q[i..], distance[..], start)
      {
        SelectNearest(Q, start, i);
      }
    }

    /** The inner pass: brings a nearest router of the rest to position i. */
    method SelectNearest(Q: array<int>, start: nat, i: nat)
      requires Valid() && Q.Length == nRouters && start <= i < nRouters && InRange(Q[..], nRouters) && NoDuplicates(Q[..])
      requires SortedBy(Q[..], distance[..], start, i) && AllNearer(Q[..i], Q[i..], distance[..], start)
      modifies Q
      ensures InRange(Q[..], nRouters) && NoDuplicates(Q[..])
      ensures multiset(Q[..]) == old(multiset(Q[..])) && Q[..start] == old(Q[..start])
      ensures SortedBy(Q[..], distance[..], start, i + 1) && AllNearer(Q[..i + 1], Q[i + 1..], distance[..], start)
    {
      ghost var q0 := Q[..];
      PassStarts(q0, distance[..], start, i, nRouters);
      for j := i + 1 to nRouters
        invariant Passing(Q[..], q0, distance[..], start, i, j, nRouters)
      {
        PutNearerFirst(Q, start, i, j, q0);
      }
      ExtendSorted(Q[..], q0, distance[..], start, i);
    }

    method PutNearerFirst(Q: array<int>, start: nat, i: nat, j: nat, ghost q0: seq<int>)
      requires Valid() && Q.Length == nRouters && j < nRouters && Passing(Q[..], q0, distance[..], start, i, j, nRouters)
      modifies Q
      ensures Passing(Q[..], q0, distance[..], start, i, j + 1, nRouters)
    {
      PassStep(Q[..], q0, distance[..], start, i, j, nRouters);
      if distance[Q[j]] < distance[Q[i]] {
        Exchange(Q, i, j);
      }
    }

    static method Exchange(Q: array<int>, i: nat, j: nat)
      requires i < j < Q.Length
      modifies Q
      ensures Q[..] == old(Q[..][j := Q[i]][i := Q[j]])
    {
      var tempU := Q[j];
      Q[j] := Q[i];
      Q[i] := tempU;
    }

    method IsNotExplored(Q: array<int>, u: int, start: nat) returns (ret: bool)
      requires Q.Length == nRouters && start <= nRouters
      ensures ret <==> u in Q[start..]
    {
      ret := false;
      for i := start to nRouters
        invariant !ret && u !in Q[start..i]
      {
        if Q[i] == u {
          assert Q[start..][i - start] == u;
          ret := true;
          break;
        }
        assert Q[start..i + 1] == Q[start..i] + [Q[i]];
      }
    }

    /** Relaxes the links out of u, the head of the queue. */
    method RelaxLinks(Q: array<int>, head: nat, source: int, ghost explored: set<int>)
      requires Valid() && Q.Length == nRouters && head < nRouters && QueueSplits(Q[..], nRouters, head, explored)
      requires Relaxing(Graph(), source, explored, Q[head], 0, distance[..], parent[..])
      requires Q != parent
      modifies parent, distance
      ensures Settled(Graph(), source, explored + {Q[head]}, distance[..], parent[..])
    {
      var u := Q[head];
      for v := 0 to nRouters
        invariant Relaxing(Graph(), source, explored, u, v, distance[..], parent[..])
      {
        RelaxLink(Q, head, v, source, explored);
      }
      FinishRelaxing(Graph(), source, explored, u, distance[..], parent[..]);
    }

    method RelaxLink(Q: array<int>, head: nat, v: nat, source: int, ghost explored: set<int>)
      requires Valid() && Q.Length == nRouters && head < nRouters && QueueSplits(Q[..], nRouters, head, explored)
      requires v < nRouters && Relaxing(Graph(), source, explored, Q[head], v, distance[..], parent[..])
      requires Q != parent
      modifies parent, distance
      ensures Relaxing(Graph(), source, explored, Q[head], v + 1, distance[..], parent[..])
    {
      var u := Q[head];
      ghost var d, par := distance[..], parent[..];
      var lower := IsNearerThrough(Q, head, v, explored);
      if lower {
        distance[v] := distance[u] + adjMatrix[u, v];
        parent[v] := u;
        assert distance[..] == d[v := d[u] + Graph()[u][v]] && parent[..] == par[v := u];
      }
      RelaxStep(Graph(), source, explored, u, v, d, par, distance[..], parent[..]);
    }

    /** The three nested tests of the inner loop. */
    method IsNearerThrough(Q: array<int>, head: nat, v: nat, ghost explored: set<int>) returns (nearer: bool)
      requires Valid() && Q.Length == nRouters && head < nRouters && QueueSplits(Q[..], nRouters, head, explored)
      requires v < nRouters
      ensures nearer <==> Edge(Graph(), Q[head], v) && v !in explored + {Q[head]}
                          && distance[Q[head]] + Graph()[Q[head]][v] < distance[v]
    {
      var u := Q[head];
      nearer := false;
      if adjMatrix[u, v] > 0 {
        var notExplored := IsNotExplored(Q, v, head + 1);
        QueueRest(Q[..], nRouters, head, explored, v);
        if notExplored {
          nearer := distance[u] + adjMatrix[u, v] < distance[v];
        }
      }
    }

    method DoDijkstraPathCalculation(sourceRouter: int)
      requires Valid() && NO_MAPPING_NUM <= sourceRouter < nRouters
      modifies parent, distance
      ensures sourceRouter == NO_MAPPING_NUM ==> IsBlank(nRouters, distance[..], parent[..])
      ensures sourceRouter != NO_MAPPING_NUM ==> IsTree(Graph(), sourceRouter, distance[..], parent[..])
    {
      var Q := new int[nRouters];
      for i := 0 to nRouters
        invariant forall j :: 0 <= j < i ==> parent[j] == EMPTY_PARENT && distance[j] == INF_DISTANCE && Q[j] == j
      {
        parent[i] := EMPTY_PARENT;
        distance[i] := INF_DISTANCE;
        Q[i] := i;
      }
      if sourceRouter != NO_MAPPING_NUM {
        distance[sourceRouter] := 0;
        Explore(Q, sourceRouter);
      }
    }

    method Explore(Q: array<int>, source: int)
      requires Valid() && 0 <= source < nRouters && Q.Length == nRouters && Q != parent
      requires forall j :: 0 <= j < nRouters ==> Q[j] == j && parent[j] == EMPTY_PARENT
      requires forall j :: 0 <= j < nRouters ==> distance[j] == if j == source then 0 else INF_DISTANCE
      modifies parent, distance, Q
      ensures IsTree(Graph(), source, distance[..], parent[..])
    {
      var head := 0;
      ghost var explored: set<int> := {};
      StartExploring(Q, source);
      while head < nRouters
        invariant 0 <= head <= nRouters
        invariant QueueSplits(Q[..], nRouters, head, explored)
        invariant SortedBy(Q[..], distance[..], head, nRouters)
        invariant Settled(Graph(), source, explored, distance[..], parent[..])
      {
        var u := Q[head];
        QueueHeadIsNearest(Q[..], nRouters, head, explored, distance[..]);
        if distance[u] == INF_DISTANCE {
          break;
        }
        ExploreNearest(Q, head, source, explored);
        explored := explored + {u};
        head := head + 1;
      }
      if head == nRouters { AllExplored(Q[..], nRouters, explored); }
      assert Covers(Graph(), explored, distance[..]);
    }

    method StartExploring(Q: array<int>, source: int)
      requires Valid() && 0 <= source < nRouters && Q.Length == nRouters
      requires forall j :: 0 <= j < nRouters ==> Q[j] == j && parent[j] == EMPTY_PARENT
      requires forall j :: 0 <= j < nRouters ==> distance[j] == if j == source then 0 else INF_DISTANCE
      requires Q != parent
      modifies Q
      ensures QueueSplits(Q[..], nRouters, 0, {}) && SortedBy(Q[..], distance[..], 0, nRouters)
      ensures Settled(Graph(), source, {}, distance[..], parent[..])
    {
      StartQueue(Q[..], nRouters);
      ghost var q0 := Q[..];
      SortQueueByDistance(Q, 0);
      Rearranged(q0, Q[..], nRouters, 0, {});
    }

    method ExploreNearest(Q: array<int>, head: nat, source: int, ghost explored: set<int>)
      requires Valid() && Q.Length == nRouters && head < nRouters && Q != parent
      requires QueueSplits(Q[..], nRouters, head, explored) && SortedBy(Q[..], distance[..], head, nRouters)
      requires Settled(Graph(), source, explored, distance[..], parent[..]) && distance[Q[head]] < INF_DISTANCE
      modifies parent, distance, Q
      ensures var explored' := explored + {old(Q[head])};
              && QueueSplits(Q[..], nRouters, head + 1, explored') && SortedBy(Q[..], distance[..], head + 1, nRouters)
              && Settled(Graph(), source, explored', distance[..], parent[..])
    {
      QueueHeadIsNearest(Q[..], nRouters, head, explored, distance[..]);
      StartRelaxing(Graph(), source, explored, Q[head], distance[..], parent[..]);
      RelaxLinks(Q, head, source, explored);
      QueueAdvance(Q[..], nRouters, head, explored);
      SortRest(Q, head + 1, explored + {Q[head]});
    }

    method SortRest(Q: array<int>, head: nat, ghost explored: set<int>)
      requires Valid() && Q.Length == nRouters && QueueSplits(Q[..], nRouters, head, explored)
      modifies Q
      ensures QueueSplits(Q[..], nRouters, head, explored) && SortedBy(Q[..], distance[..], head, nRouters)
    {
      ghost var q := Q[..];
      SortQueueByDistance(Q, head);
      Rearranged(q, Q[..], nRouters, head, explored);
    }

    /** Follows the parents up from dest. */
    method GetLsNextHop(dest: int, source: int) returns (nextHop: int)
      requires Valid() && 0 <= dest < nRouters && ParentsDescend(distance[..], parent[..])
      ensures nextHop == NextHopTo(distance[..], parent[..], dest, source)
    {
      nextHop := NO_NEXT_HOP;
      var at := dest;
      while parent[at] != EMPTY_PARENT
        invariant 0 <= at < nRouters
        invariant Ancestor(distance[..], parent[..], dest, NO_NEXT_HOP) == Ancestor(distance[..], parent[..], at, nextHop)
        decreases distance[at]
      {
        nextHop := at;
        at := parent[at];
      }
      if at != source {
        nextHop := NO_NEXT_HOP;
      }
    }

    method GetNumOfLinkfromAdjMatrix(source: nat) returns (count: nat)
      requires Valid() && source < nRouters
      ensures count == |LinksOf(Graph()[source])|
    {
      count := 0;
      ghost var row := Graph()[source];
      for i := 0 to nRouters
        invariant count == |LinksOf(row[..i])|
      {
        assert row[..i + 1][..i] == row[..i];
        if adjMatrix[source, i] > 0 {
          count := count + 1;
        }
      }
      assert row[..nRouters] == row;
    }

    method GetLinksFromAdjMatrix(links: array<int>, linkCosts: array<nat>, source: nat)
      requires Valid() && source < nRouters && links.Length == linkCosts.Length == |LinksOf(Graph()[source])|
      modifies links, linkCosts
      ensures links[..] == LinksOf(Graph()[source])
      ensures forall k :: 0 <= k < links.Length ==> 0 <= links[k] < nRouters && linkCosts[k] == adjMatrix[source, links[k]]
    {
      var j := 0;
      ghost var row := Graph()[source];
      for i := 0 to nRouters
        invariant 0 <= j <= links.Length && LinksListed(links[..j], linkCosts[..j], row, i)
      {
        ListNext(links[..j], linkCosts[..j], row, i);
        if adjMatrix[source, i] > 0 {
          PutLink(links, linkCosts, j, i, adjMatrix[source, i]);
          j := j + 1;
        }
      }
      assert row[..nRouters] == row;
      assert links[..j] == links[..] && linkCosts[..j] == linkCosts[..];
    }

    static method PutLink(links: array<int>, linkCosts: array<nat>, j: nat, link: int, cost: nat)
      requires j < links.Length == linkCosts.Length
      modifies links, linkCosts
      ensures links[..j + 1] == old(links[..j]) + [link]
      ensures linkCosts[..j + 1] == old(linkCosts[..j]) + [cost]
    {
      links[j] := link;
      linkCosts[j] := cost;
    }

    /** Overwrites the source's row with the single link given. */
    method AdjustAdjMatrix(source: nat, link: int, linkCost: nat)
      requires Valid() && source < nRouters
      modifies adjMatrix
      ensures forall i, j :: 0 <= i < nRouters && 0 <= j < nRouters ==>
                adjMatrix[i, j] == if i != source then old(adjMatrix[i, j]) else if j == link then linkCost else 0
    {
      for i := 0 to nRouters
        invariant forall x, y :: 0 <= x < nRouters && 0 <= y < nRouters ==>
                    adjMatrix[x, y] == if x != source || y >= i then old(adjMatrix[x, y]) else if y == link then linkCost else 0
      {
        if i == link {
          adjMatrix[source, i] := linkCost;
        } else {
          adjMatrix[source, i] := 0;
        }
      }
    }

    /** Offers the routing table the next hop and cost of every router this run has reached. */
    method AddAllLsNextHopsToRoutingTable(rt: RoutingTable, routers: RouterMap, faceUris: map<Name, string>, source: int,
                                          ghost rounds: seq<Round>)
      requires Valid() && rt.Valid() && routers.Valid() && |routers.Routers()| == nRouters && NoDuplicates(routers.Routers())
      requires ParentsDescend(distance[..], parent[..])
      requires TableHolds(ViewOf(rt.entries), rounds, routers.Routers(), faceUris, source)
      modifies rt
      ensures rt.Valid()
      ensures TableHolds(ViewOf(rt.entries), rounds + [RoundOf(distance[..], parent[..], source)], routers.Routers(), faceUris, source)
    {
      ghost var round, names := RoundOf(distance[..], parent[..], source), routers.Routers();
      StartFilling(ViewOf(rt.entries), rounds, round, names, faceUris, source);
      for i := 0 to nRouters
        invariant rt.Valid() && TableFilling(ViewOf(rt.entries), rounds, round, names, faceUris, source, i)
      {
        FillStep(ViewOf(rt.entries), rounds, round, names, faceUris, source, i);
        AddLsNextHop(rt, routers, faceUris, source, i);
      }
    }

    method AddLsNextHop(rt: RoutingTable, routers: RouterMap, faceUris: map<Name, string>, source: int, i: nat)
      requires Valid() && rt.Valid() && routers.Valid() && |routers.Routers()| == nRouters && i < nRouters
      requires ParentsDescend(distance[..], parent[..])
      modifies rt
      ensures rt.Valid()
      ensures ViewOf(rt.entries) ==
              Entered(old(ViewOf(rt.entries)), RoundOf(distance[..], parent[..], source), routers.Routers(), faceUris, source, i)
    {
      if i != source {
        var nextHopRouter := GetLsNextHop(i, source);
        HopsInRange(distance[..], parent[..], source);
        if nextHopRouter != NO_NEXT_HOP {
          var routeCost := distance[i];
          var nextHopRouterName := routers.GetRouterNameByMappingNo(nextHopRouter);
          var nextHopFace := if nextHopRouterName in faceUris then faceUris[nextHopRouterName] else "";
          var destination := routers.GetRouterNameByMappingNo(i);
          rt.AddNextHop(destination, NextHop(nextHopFace, routeCost));
        }
      }
    }

    /** The whole calculation, on a table that has been cleared. A router without a number gets no routes in
        single-path mode; in multi-path mode its row of the matrix would be read. */
    method CalculatePath(lsdb: seq<AdjLsa>, routers: RouterMap, rt: RoutingTable, faceUris: map<Name, string>, thisRouter: Name,
                         maxFaces: nat)
        returns (ghost g: Matrix, ghost source: int, ghost rounds: seq<Round>)
      requires Valid() && rt.Valid() && ViewOf(rt.entries) == map[]
      requires routers.Valid() && |routers.Routers()| == nRouters && NoDuplicates(routers.Routers())
      requires forall i, j :: 0 <= i < nRouters && 0 <= j < nRouters ==> adjMatrix[i, j] == 0
      requires thisRouter in routers.Routers() || maxFaces == 1
      modifies adjMatrix, parent, distance, rt
      ensures rt.Valid() && IsNetwork(g, lsdb, routers.Routers())
      ensures thisRouter in routers.Routers() ==>
                && 0 <= source < nRouters && routers.Routers()[source] == thisRouter
                && RunsMade(g, source, maxFaces == 1, rounds)
                && TableHolds(ViewOf(rt.entries), rounds, routers.Routers(), faceUris, source)
      ensures thisRouter !in routers.Routers() ==> ViewOf(rt.entries) == map[]
    {
      MakeAdjMatrix(lsdb, routers);
      g := Graph();
      var sourceRouter := routers.GetMappingNoByRouterName(thisRouter);
      source := sourceRouter;
      if maxFaces == 1 {
        ghost var round := CalculateRound(rt, routers, faceUris, sourceRouter, []);
        rounds := [round];
        assert [] + [round] == rounds;
        if source == NO_MAPPING_NUM {
          IdleTable(ViewOf(rt.entries), round, routers.Routers(), faceUris);
        }
      } else {
        rounds := CalculateMultiPath(rt, routers, faceUris, sourceRouter);
      }
    }

    method CalculateMultiPath(rt: RoutingTable, routers: RouterMap, faceUris: map<Name, string>, source: int)
        returns (ghost rounds: seq<Round>)
      requires Valid() && rt.Valid() && ViewOf(rt.entries) == map[]
      requires routers.Valid() && |routers.Routers()| == nRouters && NoDuplicates(routers.Routers())
      requires 0 <= source < nRouters
      modifies adjMatrix, parent, distance, rt
      ensures rt.Valid() && |rounds| == |LinksOf(old(Graph())[source])|
      ensures forall k :: 0 <= k < |rounds| ==> RoundThrough(old(Graph()), source, LinksOf(old(Graph())[source])[k], rounds[k])
      ensures TableHolds(ViewOf(rt.entries), rounds, routers.Routers(), faceUris, source)
    {
      ghost var g := Graph();
      var vNoLink := GetNumOfLinkfromAdjMatrix(source);
      var links, linkCosts := new int[vNoLink], new nat[vNoLink];
      GetLinksFromAdjMatrix(links, linkCosts, source);
      LinksOfExact(g[source]);
      rounds := CalculateThroughLinks(rt, routers, faceUris, source, links, linkCosts, g);
    }

    method CalculateThroughLinks(rt: RoutingTable, routers: RouterMap, faceUris: map<Name, string>, source: int,
                                 links: array<int>, linkCosts: array<nat>, ghost g: Matrix)
        returns (ghost rounds: seq<Round>)
      requires Valid() && rt.Valid() && ViewOf(rt.entries) == map[] && 0 <= source < nRouters && g == Graph()
      requires routers.Valid() && |routers.Routers()| == nRouters && NoDuplicates(routers.Routers())
      requires links.Length == linkCosts.Length && links != parent && linkCosts != distance
      requires forall k :: 0 <= k < links.Length ==> Edge(g, source, links[k]) && linkCosts[k] == g[source][links[k]]
      modifies adjMatrix, parent, distance, rt
      ensures rt.Valid() && |rounds| == links.Length
      ensures forall k :: 0 <= k < |rounds| ==> RoundThrough(g, source, old(links[k]), rounds[k])
      ensures TableHolds(ViewOf(rt.entries), rounds, routers.Routers(), faceUris, source)
    {
      rounds := [];
      for i := 0 to links.Length
        invariant rt.Valid() && |rounds| == i
        invariant forall x, y :: 0 <= x < nRouters && 0 <= y < nRouters && x != source ==> adjMatrix[x, y] == g[x][y]
        invariant forall k :: 0 <= k < i ==> RoundThrough(g, source, old(links[k]), rounds[k])
        invariant TableHolds(ViewOf(rt.entries), rounds, routers.Routers(), faceUris, source)
      {
        ghost var round := CalculateThroughLink(rt, routers, faceUris, source, links[i], linkCosts[i], g, rounds);
        rounds := rounds + [round];
      }
    }

    method CalculateThroughLink(rt: RoutingTable, routers: RouterMap, faceUris: map<Name, string>, source: int, link: int,
                                linkCost: nat, ghost g: Matrix, ghost rounds: seq<Round>)
        returns (ghost round: Round)
      requires Valid() && rt.Valid() && 0 <= source < nRouters && Square(g, nRouters)
      requires routers.Valid() && |routers.Routers()| == nRouters && NoDuplicates(routers.Routers())
      requires forall x, y :: 0 <= x < nRouters && 0 <= y < nRouters && x != source ==> adjMatrix[x, y] == g[x][y]
      requires Edge(g, source, link) && linkCost == g[source][link]
      requires TableHolds(ViewOf(rt.entries), rounds, routers.Routers(), faceUris, source)
      modifies adjMatrix, parent, distance, rt
      ensures rt.Valid() && RoundThrough(g, source, link, round)
      ensures forall x, y :: 0 <= x < nRouters && 0 <= y < nRouters && x != source ==> adjMatrix[x, y] == g[x][y]
      ensures TableHolds(ViewOf(rt.entries), rounds + [round], routers.Routers(), faceUris, source)
    {
      AdjustAdjMatrix(source, link, linkCost);
      assert IsRestriction(g, Graph(), source, link);
      round := CalculateRound(rt, routers, faceUris, source, rounds);
      RestrictedRoundIsThrough(g, Graph(), source, link, round);
    }

    method CalculateRound(rt: RoutingTable, routers: RouterMap, faceUris: map<Name, string>, source: int, ghost rounds: seq<Round>)
        returns (ghost round: Round)
      requires Valid() && rt.Valid() && NO_MAPPING_NUM <= source < nRouters
      requires routers.Valid() && |routers.Routers()| == nRouters && NoDuplicates(routers.Routers())
      requires TableHolds(ViewOf(rt.entries), rounds, routers.Routers(), faceUris, source)
      modifies parent, distance, rt
      ensures rt.Valid()
      ensures if source == NO_MAPPING_NUM then IsIdle(round) else RoundExact(Graph(), source, round)
      ensures TableHolds(ViewOf(rt.entries), rounds + [round], routers.Routers(), faceUris, source)
    {
      DoDijkstraPathCalculation(source);
      if source == NO_MAPPING_NUM {
        BlankIsIdle(distance[..], parent[..]);
      } else {
        TreeRoundIsExact(Graph(), source, distance[..], parent[..]);
      }
      round := RoundOf(distance[..], parent[..], source);
      AddAllLsNextHopsToRoutingTable(rt, routers, faceUris, source, rounds);
    }
  }
}
