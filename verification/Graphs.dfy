/** Weighted digraphs given as cost matrices (0 means "no link"), their paths,
    and what it means for a number to be the least path cost capped at the
    calculator's finite stand-in for infinity. This module is specification
    only: nothing in it knows how distances are computed. */
module Graphs {

  type Matrix = seq<seq<nat>>

  /** The distance the calculator starts every router with. */
  const INF_DISTANCE: nat := 2147483647

  ghost predicate Square(g: Matrix, n: nat) {
    |g| == n && forall i :: 0 <= i < n ==> |g[i]| == n
  }

  predicate Edge(g: Matrix, u: int, v: int) {
    0 <= u < |g| && 0 <= v < |g[u]| && g[u][v] > 0
  }

  ghost predicate IsPath(g: Matrix, p: seq<int>, s: int, t: int) {
    && |p| > 0 && p[0] == s && p[|p| - 1] == t
    && 0 <= s < |g| && 0 <= t < |g|
    && forall i :: 0 <= i < |p| - 1 ==> Edge(g, p[i], p[i + 1])
  }

  /** Sum of the link costs along p, counting only links that exist. */
  ghost function Cost(g: Matrix, p: seq<int>): nat {
    if |p| < 2 then 0
    else Cost(g, p[..|p| - 1]) + (if Edge(g, p[|p| - 2], p[|p| - 1]) then g[p[|p| - 2]][p[|p| - 1]] else 0)
  }

  /** d is the least cost of a path from s to t, or INF_DISTANCE when every path costs at
      least that much (in particular when there is no path). */
  ghost predicate IsCappedDistance(g: Matrix, s: int, t: int, d: nat) {
    && d <= INF_DISTANCE
    && (forall p :: IsPath(g, p, s, t) ==> d <= Cost(g, p))
    && (d < INF_DISTANCE ==> exists p :: IsPath(g, p, s, t) && Cost(g, p) == d)
  }

  lemma CappedDistanceUnique(g: Matrix, s: int, t: int, d: nat, e: nat)
    requires IsCappedDistance(g, s, t, d) && IsCappedDistance(g, s, t, e)
    ensures d == e
  {
    if d < INF_DISTANCE {
      var p :| IsPath(g, p, s, t) && Cost(g, p) == d;
    }
    if e < INF_DISTANCE {
      var p :| IsPath(g, p, s, t) && Cost(g, p) == e;
    }
  }

  lemma ExtendPath(g: Matrix, p: seq<int>, s: int, u: int, v: int)
    requires IsPath(g, p, s, u) && Edge(g, u, v) && v < |g|
    ensures IsPath(g, p + [v], s, v) && Cost(g, p + [v]) == Cost(g, p) + g[u][v]
  {
    assert (p + [v])[..|p|] == p;
  }

  /** Splitting a path at its first link. */
  lemma {:induction false} CostOfTail(g: Matrix, p: seq<int>, s: int, t: int)
    requires IsPath(g, p, s, t) && |p| >= 2
    ensures Edge(g, s, p[1]) && Cost(g, p) == g[s][p[1]] + Cost(g, p[1..])
    decreases |p|
  {
    assert Edge(g, p[0], p[1]);
    if |p| == 2 {
      assert p[..1] == [s];
    } else {
      var q := p[..|p| - 1];
      assert forall i :: 0 <= i < |q| - 1 ==> Edge(g, q[i], q[i + 1]);
      assert Edge(g, p[|p| - 3], p[|p| - 2]) && Edge(g, p[|p| - 2], p[|p| - 1]);
      CostOfTail(g, q, s, p[|p| - 2]);
      assert q[1..] == p[1..][..|p| - 2];
    }
  }

  lemma TailIsPath(g: Matrix, p: seq<int>, s: int, t: int)
    requires IsPath(g, p, s, t) && |p| >= 2 && Square(g, |g|)
    ensures IsPath(g, p[1..], p[1], t)
  {
    assert Edge(g, p[0], p[1]);
    forall i | 0 <= i < |p[1..]| - 1
      ensures Edge(g, p[1..][i], p[1..][i + 1])
    {
      assert Edge(g, p[i + 1], p[i + 2]);
    }
  }

  lemma {:induction false} PrependEdge(g: Matrix, s: int, u: int, p: seq<int>, t: int)
    requires Edge(g, s, u) && IsPath(g, p, u, t)
    ensures IsPath(g, [s] + p, s, t) && Cost(g, [s] + p) == g[s][u] + Cost(g, p)
  {
    var q := [s] + p;
    forall i | 0 <= i < |q| - 1
      ensures Edge(g, q[i], q[i + 1])
    {
      assert i > 0 ==> Edge(g, p[i - 1], p[i]);
    }
    CostOfTail(g, q, s, t);
    assert q[1..] == p;
  }

  /** All links run both ways at the same cost. */
  ghost predicate Symmetric(g: Matrix) {
    Square(g, |g|) && forall i, j :: 0 <= i < |g| && 0 <= j < |g| ==> g[i][j] == g[j][i]
  }

  /** g with every link out of s dropped, except the one to l. */
  ghost predicate IsRestriction(g: Matrix, r: Matrix, s: int, l: int) {
    && Square(g, |g|) && Square(r, |g|)
    && 0 <= s < |g|
    && forall i, j :: 0 <= i < |g| && 0 <= j < |g| ==> r[i][j] == if i == s && j != l then 0 else g[i][j]
  }

  ghost predicate IsPathAvoiding(g: Matrix, p: seq<int>, s: int, t: int, avoided: int) {
    IsPath(g, p, s, t) && avoided !in p
  }

  /** d is w plus the least cost of a path from l to t that never visits s, capped. */
  ghost predicate IsCostThrough(g: Matrix, s: int, l: int, w: nat, t: int, d: nat) {
    && d <= INF_DISTANCE
    && (forall p :: IsPathAvoiding(g, p, l, t, s) ==> d <= w + Cost(g, p))
    && (d < INF_DISTANCE ==> exists p :: IsPathAvoiding(g, p, l, t, s) && w + Cost(g, p) == d)
  }

  /** Any path from s can be cut down to one that leaves s once. */
  lemma {:induction false} LastDeparture(g: Matrix, p: seq<int>, s: int, t: int) returns (q: seq<int>)
    requires Square(g, |g|) && IsPath(g, p, s, t) && s != t
    ensures |q| > 0 && Edge(g, s, q[0]) && IsPathAvoiding(g, q, q[0], t, s)
    ensures g[s][q[0]] + Cost(g, q) <= Cost(g, p)
    decreases |p|
  {
    CostOfTail(g, p, s, t);
    TailIsPath(g, p, s, t);
    q := p[1..];
    if s in q {
      var r := DropTo(g, q, q[0], t, s);
      q := LastDeparture(g, r, s, t);
    }
  }

  /** The part of a path from one of its routers on is a path costing no more. */
  lemma {:induction false} DropTo(g: Matrix, p: seq<int>, s: int, t: int, m: int) returns (q: seq<int>)
    requires Square(g, |g|) && IsPath(g, p, s, t) && m in p
    ensures IsPath(g, q, m, t) && Cost(g, q) <= Cost(g, p) && |q| <= |p|
    decreases |p|
  {
    if s == m {
      q := p;
    } else {
      CostOfTail(g, p, s, t);
      TailIsPath(g, p, s, t);
      q := DropTo(g, p[1..], p[1], t, m);
    }
  }

  lemma {:induction false} AvoidingCostsAgree(g: Matrix, r: Matrix, s: int, l: int, p: seq<int>, a: int, t: int)
    requires IsRestriction(g, r, s, l) && s !in p
    ensures IsPath(g, p, a, t) <==> IsPath(r, p, a, t)
    ensures Cost(g, p) == Cost(r, p)
    decreases |p|
  {
    forall i | 0 <= i < |p| - 1
      ensures Edge(g, p[i], p[i + 1]) == Edge(r, p[i], p[i + 1])
    {
      assert p[i] != s;
    }
    if |p| >= 2 {
      var m := |p| - 2;
      assert Edge(g, p[m], p[m + 1]) == Edge(r, p[m], p[m + 1]);
      if Edge(g, p[m], p[m + 1]) { assert g[p[m]][p[m + 1]] == r[p[m]][p[m + 1]]; }
      AvoidingCostsAgree(g, r, s, l, p[..|p| - 1], a, p[m]);
    }
  }

  /** What a distance in the restricted graph means in the full one: the price of the only
      link out of s plus the least cost onwards without coming back through s. */
  lemma RestrictedDistance(g: Matrix, r: Matrix, s: int, l: int, t: int, d: nat)
    requires IsRestriction(g, r, s, l) && Edge(g, s, l) && 0 <= t < |g| && t != s
    requires IsCappedDistance(r, s, t, d)
    ensures IsCostThrough(g, s, l, g[s][l], t, d)
  {
    forall p | IsPathAvoiding(g, p, l, t, s)
      ensures d <= g[s][l] + Cost(g, p)
    {
      AvoidingCostsAgree(g, r, s, l, p, l, t);
      PrependEdge(r, s, l, p, t);
    }
    if d < INF_DISTANCE {
      var p :| IsPath(r, p, s, t) && Cost(r, p) == d;
      var q := LastDeparture(r, p, s, t);
      assert q[0] == l;
      PrependEdge(r, s, l, q, t);
      AvoidingCostsAgree(g, r, s, l, q, l, t);
      assert IsPathAvoiding(g, q, l, t, s);
    }
  }

  /** Over all links out of s, the best cost through a link is the distance itself. */
  lemma BestLinkIsDistance(g: Matrix, s: int, t: int, d: nat, through: map<int, nat>)
    requires Square(g, |g|) && 0 <= s < |g| && 0 <= t < |g| && s != t
    requires IsCappedDistance(g, s, t, d)
    requires forall l :: l in through <==> Edge(g, s, l)
    requires forall l :: l in through ==> Edge(g, s, l) && IsCostThrough(g, s, l, g[s][l], t, through[l])
    ensures forall l :: l in through ==> d <= through[l]
    ensures d < INF_DISTANCE ==> exists l :: l in through && through[l] == d
  {
    forall l | l in through
      ensures d <= through[l]
    {
      if through[l] < INF_DISTANCE {
        var p :| IsPathAvoiding(g, p, l, t, s) && g[s][l] + Cost(g, p) == through[l];
        PrependEdge(g, s, l, p, t);
      }
    }
    if d < INF_DISTANCE {
      var p :| IsPath(g, p, s, t) && Cost(g, p) == d;
      var q := LastDeparture(g, p, s, t);
      assert through[q[0]] <= d;
    }
  }
}
