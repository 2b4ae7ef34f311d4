/** The invariant of the calculator's Dijkstra run, on values, and what it comes to
    when the run ends. */
module ShortestTrees {
  import opened Graphs

  const EMPTY_PARENT := -12345
  const NO_NEXT_HOP := -12345

  /** v hangs off one of the explored routers by a tight link, or is unreached. */
  ghost predicate Hangs(g: Matrix, explored: set<int>, d: seq<nat>, par: seq<int>, v: int)
    requires |d| == |par| && 0 <= v < |d|
  {
    if d[v] == INF_DISTANCE then par[v] == EMPTY_PARENT
    else
      && 0 <= par[v] < |d| && par[v] in explored && Edge(g, par[v], v)
      && d[v] == d[par[v]] + g[par[v]][v]
  }

  ghost predicate Shape(g: Matrix, s: int, explored: set<int>, d: seq<nat>, par: seq<int>) {
    && Square(g, |g|) && |d| == |par| == |g| && 0 <= s < |g|
    && d[s] == 0 && par[s] == EMPTY_PARENT
    && (forall v :: v in explored ==> 0 <= v < |g| && d[v] < INF_DISTANCE)
    && (forall v :: 0 <= v < |g| ==> d[v] <= INF_DISTANCE)
    && (forall v :: 0 <= v < |g| && v != s ==> Hangs(g, explored, d, par, v))
  }

  /** Every link out of an explored router has been relaxed. */
  ghost predicate Relaxed(g: Matrix, explored: set<int>, d: seq<nat>)
    requires |d| == |g|
  {
    forall u, v :: u in explored && Edge(g, u, v) && v < |d| && u < |d| ==> d[v] <= d[u] + g[u][v]
  }

  /** Between two rounds of the main loop. */
  ghost predicate Settled(g: Matrix, s: int, explored: set<int>, d: seq<nat>, par: seq<int>) {
    && Shape(g, s, explored, d, par)
    && Relaxed(g, explored, d)
    && forall u, v :: u in explored && 0 <= v < |g| && v !in explored ==> d[u] <= d[v]
  }

  /** While the links from u to routers below k have been relaxed. */
  ghost predicate Relaxing(g: Matrix, s: int, explored: set<int>, u: int, k: nat, d: seq<nat>, par: seq<int>) {
    && 0 <= u < |g| && u !in explored
    && Shape(g, s, explored + {u}, d, par)
    && Relaxed(g, explored, d)
    && (forall v :: v in explored ==> d[v] <= d[u])
    && (forall v :: 0 <= v < |g| && v !in explored ==> d[u] <= d[v])
    && (forall v :: 0 <= v < k && v < |g| && Edge(g, u, v) ==> d[v] <= d[u] + g[u][v])
  }

  lemma StartRelaxing(g: Matrix, s: int, explored: set<int>, u: int, d: seq<nat>, par: seq<int>)
    requires Settled(g, s, explored, d, par)
    requires 0 <= u < |g| && u !in explored && d[u] < INF_DISTANCE
    requires forall v :: 0 <= v < |g| && v !in explored ==> d[u] <= d[v]
    ensures Relaxing(g, s, explored, u, 0, d, par)
  {
    forall v | 0 <= v < |g| && v != s
      ensures Hangs(g, explored + {u}, d, par, v)
    {
      assert Hangs(g, explored, d, par, v);
    }
  }

  /** One step of the inner loop keeps the invariant, whether or not it lowers d[k]. */
  lemma RelaxStep(g: Matrix, s: int, explored: set<int>, u: int, k: nat, d: seq<nat>, par: seq<int>,
                  d': seq<nat>, par': seq<int>)
    requires Relaxing(g, s, explored, u, k, d, par) && k < |g|
    requires
      if Edge(g, u, k) && k !in explored + {u} && d[u] + g[u][k] < d[k]
      then d' == d[k := d[u] + g[u][k]] && par' == par[k := u]
      else d' == d && par' == par
    ensures Relaxing(g, s, explored, u, k + 1, d', par')
  {
    forall v | 0 <= v < |g| && v != s
      ensures Hangs(g, explored + {u}, d', par', v)
    {
      assert Hangs(g, explored + {u}, d, par, v);
    }
  }

  lemma FinishRelaxing(g: Matrix, s: int, explored: set<int>, u: int, d: seq<nat>, par: seq<int>)
    requires Relaxing(g, s, explored, u, |g|, d, par)
    ensures Settled(g, s, explored + {u}, d, par)
  {
    forall v, w | v in explored + {u} && Edge(g, v, w) && w < |d| && v < |d|
      ensures d[w] <= d[v] + g[v][w]
    {
      if v == u {
        assert w < |g| && Edge(g, u, w);
      }
    }
  }

  /** What a finished run leaves: a shortest-path tree. */
  ghost predicate IsTree(g: Matrix, s: int, d: seq<nat>, par: seq<int>) {
    exists explored :: Settled(g, s, explored, d, par) && Covers(g, explored, d)
  }

  ghost predicate Covers(g: Matrix, explored: set<int>, d: seq<nat>) {
    |d| == |g| && forall v :: 0 <= v < |g| && d[v] < INF_DISTANCE ==> v in explored
  }

  lemma {:induction false} DistanceBelowEveryPath(g: Matrix, s: int, d: seq<nat>, par: seq<int>, p: seq<int>, t: int)
    requires IsTree(g, s, d, par) && IsPath(g, p, s, t)
    ensures d[t] <= Cost(g, p)
    decreases |p|
  {
    if |p| > 1 {
      var u := p[|p| - 2];
      assert Edge(g, u, p[|p| - 1]);
      DistanceBelowEveryPath(g, s, d, par, p[..|p| - 1], u);
    }
  }

  /** The tree's parents spell out a path that costs exactly the recorded distance. */
  lemma {:induction false} TreePath(g: Matrix, s: int, d: seq<nat>, par: seq<int>, t: int) returns (p: seq<int>)
    requires IsTree(g, s, d, par) && 0 <= t < |g| && d[t] < INF_DISTANCE
    ensures IsPath(g, p, s, t) && Cost(g, p) == d[t]
    decreases d[t]
  {
    if t == s {
      p := [s];
    } else {
      var explored :| Settled(g, s, explored, d, par) && Covers(g, explored, d);
      assert Hangs(g, explored, d, par, t);
      var q := TreePath(g, s, d, par, par[t]);
      ExtendPath(g, q, s, par[t], t);
      p := q + [t];
    }
  }

  /** The recorded distances are exactly the least path costs, capped at 2147483647. */
  lemma TreeDistancesAreExact(g: Matrix, s: int, d: seq<nat>, par: seq<int>, t: int)
    requires IsTree(g, s, d, par) && 0 <= t < |g|
    ensures IsCappedDistance(g, s, t, d[t])
    ensures d[t] <= 2147483647 && (forall p :: IsPath(g, p, s, t) ==> d[t] <= Cost(g, p))
    ensures d[t] < 2147483647 ==> exists p :: IsPath(g, p, s, t) && Cost(g, p) == d[t]
  {
    forall p | IsPath(g, p, s, t)
      ensures d[t] <= Cost(g, p)
    {
      DistanceBelowEveryPath(g, s, d, par, p, t);
    }
    if d[t] < INF_DISTANCE {
      var p := TreePath(g, s, d, par, t);
    }
  }

  /** What a run without a source leaves. */
  ghost predicate IsBlank(n: nat, d: seq<nat>, par: seq<int>) {
    |d| == |par| == n && forall v :: 0 <= v < n ==> d[v] == INF_DISTANCE && par[v] == EMPTY_PARENT
  }

  /** A router's parents end at a root; the second result is the router just below it. */
  ghost predicate ParentsDescend(d: seq<nat>, par: seq<int>) {
    |d| == |par| && forall v :: 0 <= v < |par| && par[v] != EMPTY_PARENT ==> 0 <= par[v] < |par| && d[par[v]] < d[v]
  }

  ghost function Ancestor(d: seq<nat>, par: seq<int>, v: int, hop: int): (int, int)
    requires ParentsDescend(d, par) && 0 <= v < |par|
    decreases d[v]
  {
    if par[v] == EMPTY_PARENT then (v, hop) else Ancestor(d, par, par[v], v)
  }

  lemma TreeDescends(g: Matrix, s: int, d: seq<nat>, par: seq<int>)
    requires IsTree(g, s, d, par)
    ensures ParentsDescend(d, par)
  {
    var explored :| Settled(g, s, explored, d, par) && Covers(g, explored, d);
    forall v | 0 <= v < |par| && par[v] != EMPTY_PARENT
      ensures 0 <= par[v] < |par| && d[par[v]] < d[v]
    {
      assert Hangs(g, explored, d, par, v);
    }
  }

  /** h is the first hop of a least-cost path from s to t. */
  ghost predicate IsFirstHop(g: Matrix, s: int, t: int, h: int, d: nat) {
    && Edge(g, s, h) && h < |g|
    && exists p :: IsPath(g, p, h, t) && g[s][h] + Cost(g, p) == d
  }

  /** Climbing the parents from a router reached by the source arrives at the source, by way of
      the first hop of a least-cost path; climbing from an unreached router goes nowhere. */
  lemma {:induction false} AncestorIsFirstHop(g: Matrix, s: int, d: seq<nat>, par: seq<int>, t: int, hop: int, p: seq<int>, goal: int)
    requires IsTree(g, s, d, par) && ParentsDescend(d, par) && 0 <= t < |g| && Square(g, |g|)
    requires d[t] < INF_DISTANCE
    requires IsPath(g, p, t, goal)
    requires t == s ==> Edge(g, s, hop) && IsPath(g, p[1..], hop, goal) && Cost(g, p) == g[s][hop] + Cost(g, p[1..])
    ensures Ancestor(d, par, t, hop).0 == s
    ensures IsFirstHop(g, s, goal, Ancestor(d, par, t, hop).1, d[t] + Cost(g, p))
    decreases d[t]
  {
    if t == s {
      assert IsPath(g, p[1..], hop, goal);
    } else {
      var explored :| Settled(g, s, explored, d, par) && Covers(g, explored, d);
      assert Hangs(g, explored, d, par, t);
      PrependEdge(g, par[t], t, p, goal);
      assert ([par[t]] + p)[1..] == p;
      AncestorIsFirstHop(g, s, d, par, par[t], t, [par[t]] + p, goal);
    }
  }

  /** The next hop the calculator reads off the tree, as a function of the two arrays. */
  ghost function NextHopTo(d: seq<nat>, par: seq<int>, dest: int, source: int): int
    requires ParentsDescend(d, par) && 0 <= dest < |par|
  {
    var (root, hop) := Ancestor(d, par, dest, NO_NEXT_HOP);
    if root == source then hop else NO_NEXT_HOP
  }

  lemma TreeNextHop(g: Matrix, s: int, d: seq<nat>, par: seq<int>, t: int)
    requires IsTree(g, s, d, par) && 0 <= t < |g| && t != s
    ensures ParentsDescend(d, par)
    ensures d[t] == INF_DISTANCE ==> NextHopTo(d, par, t, s) == NO_NEXT_HOP
    ensures d[t] < INF_DISTANCE ==> IsFirstHop(g, s, t, NextHopTo(d, par, t, s), d[t])
  {
    TreeDescends(g, s, d, par);
    var explored :| Settled(g, s, explored, d, par) && Covers(g, explored, d);
    if d[t] == INF_DISTANCE {
      assert Hangs(g, explored, d, par, t);
    } else {
      AncestorIsFirstHop(g, s, d, par, t, NO_NEXT_HOP, [t], t);
    }
  }
}
