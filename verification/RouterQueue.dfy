/** The queue of routers a Dijkstra run works through, explored routers first, and the exchange
    sort that keeps its unexplored part in order. */
module RouterQueue {
  import opened Listings

  ghost predicate InRange(q: seq<int>, n: nat) {
    forall i :: 0 <= i < |q| ==> 0 <= q[i] < n
  }

  ghost predicate SortedBy(q: seq<int>, d: seq<nat>, lo: nat, hi: nat)
    requires hi <= |q| && InRange(q, |d|)
  {
    forall i, j :: lo <= i < j < hi ==> d[q[i]] <= d[q[j]]
  }

  /** Everything in the left part, from lo on, is no farther than anything in the right part. */
  ghost predicate AllNearer(left: seq<int>, right: seq<int>, d: seq<nat>, lo: nat) {
    && InRange(left, |d|) && InRange(right, |d|)
    && forall x, y :: lo <= x < |left| && 0 <= y < |right| ==> d[left[x]] <= d[right[y]]
  }

  lemma ExchangeKeepsNearer(q: seq<int>, i: nat, j: nat, d: seq<nat>, lo: nat)
    requires i < j < |q| && AllNearer(q[..i], q[i..], d, lo)
    ensures var r := q[j := q[i]][i := q[j]];
            r[..i] == q[..i] && AllNearer(r[..i], r[i..], d, lo)
  {
    var r := q[j := q[i]][i := q[j]];
    forall x, y | lo <= x < i && 0 <= y < |r[i..]|
      ensures d[r[..i][x]] <= d[r[i..][y]]
    {
      var y' := if y == 0 then j - i else if y == j - i then 0 else y;
      assert r[i..][y] == q[i..][y'];
      assert r[..i][x] == q[..i][x];
    }
    forall y | 0 <= y < |r[i..]|
      ensures 0 <= r[i..][y] < |d|
    {
      var y' := if y == 0 then j - i else if y == j - i then 0 else y;
      assert r[i..][y] == q[i..][y'];
    }
  }

  /** During the inner pass of the sort, with positions below j compared. */
  ghost predicate Passing(q: seq<int>, q0: seq<int>, d: seq<nat>, lo: nat, i: nat, j: nat, n: nat) {
    && |q| == |q0| == |d| == n && lo <= i < j <= n && InRange(q, n) && NoDuplicates(q)
    && multiset(q) == multiset(q0) && q[..i] == q0[..i]
    && AllNearer(q[..i], q[i..], d, lo)
    && forall y :: i <= y < j ==> d[q[i]] <= d[q[y]]
  }

  lemma PassStarts(q: seq<int>, d: seq<nat>, lo: nat, i: nat, n: nat)
    requires |q| == |d| == n && lo <= i < n && InRange(q, n) && NoDuplicates(q) && AllNearer(q[..i], q[i..], d, lo)
    ensures Passing(q, q, d, lo, i, i + 1, n)
  {
  }

  lemma PassStep(q: seq<int>, q0: seq<int>, d: seq<nat>, lo: nat, i: nat, j: nat, n: nat)
    requires Passing(q, q0, d, lo, i, j, n) && j < n
    ensures Passing(if d[q[j]] < d[q[i]] then q[j := q[i]][i := q[j]] else q, q0, d, lo, i, j + 1, n)
  {
    if d[q[j]] < d[q[i]] {
      var r := q[j := q[i]][i := q[j]];
      ExchangeKeeps(q, i, j, n);
      ExchangeKeepsNearer(q, i, j, d, lo);
      forall y | i <= y < j + 1
        ensures d[r[i]] <= d[r[y]]
      {
        assert r[i] == q[j] && (y == j ==> r[y] == q[i]);
        assert i < y < j ==> r[y] == q[y];
      }
    }
  }

  lemma ExtendSorted(q: seq<int>, q0: seq<int>, d: seq<nat>, lo: nat, i: nat)
    requires |q| == |q0| && lo <= i < |q| && InRange(q, |d|) && InRange(q0, |d|)
    requires q[..i] == q0[..i] && SortedBy(q0, d, lo, i) && AllNearer(q[..i], q[i..], d, lo)
    requires forall y :: i <= y < |q| ==> d[q[i]] <= d[q[y]]
    ensures SortedBy(q, d, lo, i + 1) && AllNearer(q[..i + 1], q[i + 1..], d, lo) && q[..lo] == q0[..lo]
  {
    assert forall x :: 0 <= x < i ==> q[x] == q[..i][x] == q0[..i][x] == q0[x];
    forall x, y | lo <= x < i <= y < |q|
      ensures d[q[x]] <= d[q[y]]
    {
      assert q[i..][y - i] == q[y];
    }
  }

  /** The queue is an arrangement of all routers, the explored ones first. */
  ghost predicate QueueSplits(q: seq<int>, n: nat, head: nat, explored: set<int>) {
    && |q| == n && head <= n && InRange(q, n) && NoDuplicates(q)
    && (forall v :: 0 <= v < n ==> v in multiset(q))
    && forall i :: 0 <= i < n ==> (q[i] in explored <==> i < head)
  }

  lemma QueueAdvance(q: seq<int>, n: nat, head: nat, explored: set<int>)
    requires QueueSplits(q, n, head, explored) && head < n
    ensures QueueSplits(q, n, head + 1, explored + {q[head]})
  {
    forall i | 0 <= i < n && i != head
      ensures q[i] != q[head]
    {
      if i < head { assert q[i] != q[head]; } else { assert q[head] != q[i]; }
    }
  }

  lemma QueueHeadIsNearest(q: seq<int>, n: nat, head: nat, explored: set<int>, d: seq<nat>)
    requires QueueSplits(q, n, head, explored) && head < n && |d| == n && SortedBy(q, d, head, n)
    ensures q[head] !in explored
    ensures forall v :: 0 <= v < n && v !in explored ==> d[q[head]] <= d[v]
  {
    forall v | 0 <= v < n && v !in explored
      ensures d[q[head]] <= d[v]
    {
      assert v in multiset(q);
      var i :| 0 <= i < n && q[i] == v;
    }
  }

  /** In the loop body, being outside the explored part and not at its head is being in the rest. */
  lemma QueueRest(q: seq<int>, n: nat, head: nat, explored: set<int>, v: int)
    requires QueueSplits(q, n, head, explored) && head < n && 0 <= v < n
    ensures v in q[head + 1..] <==> v !in explored + {q[head]}
  {
    QueueAdvance(q, n, head, explored);
    if v !in explored + {q[head]} {
      assert v in multiset(q);
      var i :| 0 <= i < n && q[i] == v;
      assert q[head + 1..][i - (head + 1)] == v;
    }
  }

  lemma Rearranged(q: seq<int>, r: seq<int>, n: nat, head: nat, explored: set<int>)
    requires QueueSplits(q, n, head, explored)
    requires |r| == n && multiset(r) == multiset(q) && r[..head] == q[..head] && NoDuplicates(r)
    ensures QueueSplits(r, n, head, explored)
  {
    forall i | 0 <= i < n
      ensures 0 <= r[i] < n && (r[i] in explored <==> i < head)
    {
      assert r[i] in multiset(q);
      var j :| 0 <= j < n && q[j] == r[i];
      if i < head {
        assert r[..head][i] == q[..head][i];
      } else if j < head {
        HeadsDiffer(q, r, head, j, i);
      }
    }
  }

  lemma HeadsDiffer(q: seq<int>, r: seq<int>, head: nat, j: nat, i: nat)
    requires |q| == |r| && j < head <= i < |r| && r[..head] == q[..head] && NoDuplicates(r)
    ensures r[i] != q[j]
  {
    assert r[..head][j] == q[..head][j];
    assert r[j] != r[i];
  }

  lemma ExchangeKeeps(q: seq<int>, i: nat, j: nat, n: nat)
    requires i < j < |q| && InRange(q, n) && NoDuplicates(q)
    ensures var r := q[j := q[i]][i := q[j]];
            InRange(r, n) && NoDuplicates(r) && multiset(r) == multiset(q)
  {
    var r := q[j := q[i]][i := q[j]];
    assert q == q[..i] + [q[i]] + q[i + 1..j] + [q[j]] + q[j + 1..];
    assert r == q[..i] + [q[j]] + q[i + 1..j] + [q[i]] + q[j + 1..];
  }

  lemma StartQueue(q: seq<int>, n: nat)
    requires |q| == n && forall j :: 0 <= j < n ==> q[j] == j
    ensures QueueSplits(q, n, 0, {})
  {
    forall v | 0 <= v < n
      ensures v in multiset(q)
    {
      assert q[v] == v;
    }
  }

  lemma AllExplored(q: seq<int>, n: nat, explored: set<int>)
    requires QueueSplits(q, n, n, explored)
    ensures forall v :: 0 <= v < n ==> v in explored
  {
    forall v | 0 <= v < n
      ensures v in explored
    {
      assert v in multiset(q);
      var i :| 0 <= i < n && q[i] == v;
    }
  }
}
