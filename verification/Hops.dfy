/** Next hops and the min-merging list of them (src/route/nexthop-list.cpp). */
module Hops {
  import opened Names

  datatype NextHop = NextHop(face: string, cost: nat)

  ghost function Faces(hops: seq<NextHop>): set<string> {
    set h | h in hops :: h.face
  }

  ghost predicate UniqueFaces(hops: seq<NextHop>) {
    forall i, j :: 0 <= i < j < |hops| ==> hops[i].face != hops[j].face
  }

  /** What a list says: the cost of each face in it (the first mention counts). */
  ghost function Costs(hops: seq<NextHop>): map<string, nat> {
    if hops == [] then map[] else Costs(hops[1..])[hops[0].face := hops[0].cost]
  }

  lemma UniqueHead(hops: seq<NextHop>)
    requires UniqueFaces(hops) && hops != []
    ensures Faces(hops) == Faces(hops[1..]) + {hops[0].face} && hops[0].face !in Faces(hops[1..])
    ensures forall h :: h in hops <==> h == hops[0] || h in hops[1..]
  {
    assert hops == [hops[0]] + hops[1..];
  }

  lemma {:induction false} CostsOfUnique(hops: seq<NextHop>)
    requires UniqueFaces(hops)
    ensures Costs(hops).Keys == Faces(hops)
    ensures forall h :: h in hops <==> h.face in Costs(hops) && Costs(hops)[h.face] == h.cost
  {
    if hops != [] {
      var rest := hops[1..];
      assert UniqueFaces(rest);
      CostsOfUnique(rest);
      UniqueHead(hops);
      assert Costs(hops) == Costs(rest)[hops[0].face := hops[0].cost];
    }
  }

  lemma {:induction false} CostsOfAppended(hops: seq<NextHop>, h: NextHop)
    requires h.face !in Faces(hops)
    ensures Costs(hops + [h]) == Costs(hops)[h.face := h.cost]
  {
    if hops != [] {
      assert (hops + [h])[1..] == hops[1..] + [h];
      assert hops[0] in hops;
      CostsOfAppended(hops[1..], h);
    }
  }

  /** Two duplicate-free lists with the same hops say the same. */
  lemma CostsByMembership(a: seq<NextHop>, b: seq<NextHop>)
    requires UniqueFaces(a) && UniqueFaces(b) && forall h :: h in a <==> h in b
    ensures Costs(a) == Costs(b) && Faces(a) == Faces(b)
  {
    CostsOfUnique(a);
    CostsOfUnique(b);
    forall f | f in Costs(a)
      ensures f in Costs(b) && Costs(b)[f] == Costs(a)[f]
    {
      assert NextHop(f, Costs(a)[f]) in b;
    }
    forall f | f in Costs(b)
      ensures f in Costs(a)
    {
      assert NextHop(f, Costs(b)[f]) in a;
    }
  }

  /** The lower of the stored and the offered cost. */
  ghost function MinCost(costs: map<string, nat>, h: NextHop): map<string, nat> {
    costs[h.face := if h.face in costs && costs[h.face] <= h.cost then costs[h.face] else h.cost]
  }

  /** Offering a whole list of hops, one after the other. */
  ghost function MinCosts(costs: map<string, nat>, hops: seq<NextHop>): map<string, nat> {
    if hops == [] then costs else MinCost(MinCosts(costs, hops[..|hops| - 1]), hops[|hops| - 1])
  }

  ghost predicate LeastOf(r: map<string, nat>, costs: map<string, nat>, hops: seq<NextHop>) {
    && r.Keys == costs.Keys + Faces(hops)
    && (forall f :: f in costs ==> r[f] <= costs[f])
    && (forall h :: h in hops ==> h.face in r && r[h.face] <= h.cost)
    && (forall f :: f in r ==> (f in costs && r[f] == costs[f]) || NextHop(f, r[f]) in hops)
  }

  lemma LeastOfStep(r: map<string, nat>, costs: map<string, nat>, hops: seq<NextHop>, h: NextHop)
    requires LeastOf(r, costs, hops)
    ensures LeastOf(MinCost(r, h), costs, hops + [h])
  {
    var r', hops' := MinCost(r, h), hops + [h];
    assert h in hops';
    assert forall x :: x in hops' <==> x in hops || x == h;
    assert Faces(hops') == Faces(hops) + {h.face};
    forall f | f in r'
      ensures (f in costs && r'[f] == costs[f]) || NextHop(f, r'[f]) in hops'
    {
      if f == h.face && r'[f] == h.cost { assert NextHop(f, r'[f]) == h; }
    }
  }

  /** Offering each of a list's hops in turn yields, per face, the least cost on offer. */
  lemma {:induction false} MinCostsAreLeast(costs: map<string, nat>, hops: seq<NextHop>)
    ensures LeastOf(MinCosts(costs, hops), costs, hops)
  {
    if hops != [] {
      var init, last := hops[..|hops| - 1], hops[|hops| - 1];
      var r := MinCosts(costs, init);
      assert hops == init + [last] && MinCosts(costs, hops) == MinCost(r, last);
      MinCostsAreLeast(costs, init);
      LeastOfStep(r, costs, init, last);
    }
  }

  lemma MinCostsSnoc(costs: map<string, nat>, hops: seq<NextHop>, h: NextHop)
    ensures MinCosts(costs, hops + [h]) == MinCost(MinCosts(costs, hops), h)
  {
    assert (hops + [h])[..|hops|] == hops;
  }

  /** Collecting a duplicate-free list into an empty one loses and changes nothing. */
  lemma {:induction false} MinCostsOfUnique(hops: seq<NextHop>)
    requires UniqueFaces(hops)
    ensures MinCosts(map[], hops) == Costs(hops)
  {
    MinCostsAreLeast(map[], hops);
    CostsOfUnique(hops);
    forall f | f in MinCosts(map[], hops)
      ensures f in Costs(hops) && Costs(hops)[f] == MinCosts(map[], hops)[f]
    {
      assert NextHop(f, MinCosts(map[], hops)[f]) in hops;
    }
  }

  // ----- order -----

  /** Lower cost first, then lower URI. */
  predicate Before(a: NextHop, b: NextHop) {
    a.cost < b.cost || (a.cost == b.cost && LexLess(a.face, b.face))
  }

  ghost predicate Sorted(hops: seq<NextHop>) {
    forall i, j :: 0 <= i < j < |hops| ==> !Before(hops[j], hops[i])
  }

  lemma BeforeIsStrictOrder(a: NextHop, b: NextHop, c: NextHop)
    ensures a == b || Before(a, b) || Before(b, a)
    ensures !Before(a, a) && !(Before(a, b) && Before(b, a))
    ensures !Before(b, a) && !Before(c, b) ==> !Before(c, a)
  {
    LexTotal(a.face, a.face);
    LexTotal(a.face, b.face);
    LexTotal(b.face, c.face);
    LexTotal(a.face, c.face);
    if LexLess(c.face, a.face) && LexLess(a.face, b.face) { LexTransitive(c.face, a.face, b.face); }
  }

  /** In a sorted list an earlier hop costs less than a later one, or as much over a face whose URI is no larger. */
  lemma SortedByCostThenUri(hops: seq<NextHop>, i: nat, j: nat)
    requires Sorted(hops) && i < j < |hops|
    ensures hops[i].cost <= hops[j].cost
    ensures hops[i].cost == hops[j].cost ==> hops[i].face == hops[j].face || LexLess(hops[i].face, hops[j].face)
  {
    BeforeIsStrictOrder(hops[i], hops[j], hops[j]);
  }

  function InsertSorted(h: NextHop, hops: seq<NextHop>): (r: seq<NextHop>)
    ensures multiset(r) == multiset{h} + multiset(hops)
  {
    if hops == [] || !Before(hops[0], h) then [h] + hops
    else
      assert hops == [hops[0]] + hops[1..];
      [hops[0]] + InsertSorted(h, hops[1..])
  }

  lemma {:induction false} InsertKeepsSorted(h: NextHop, hops: seq<NextHop>)
    requires Sorted(hops)
    ensures Sorted(InsertSorted(h, hops))
  {
    if hops != [] && Before(hops[0], h) {
      InsertKeepsSorted(h, hops[1..]);
      var rest := InsertSorted(h, hops[1..]);
      forall j | 0 <= j < |rest|
        ensures !Before(rest[j], hops[0])
      {
        assert rest[j] in multiset(rest);
        BeforeIsStrictOrder(hops[0], h, h);
        if rest[j] != h {
          assert rest[j] in hops[1..];
        }
      }
    } else if hops != [] {
      forall j | 0 <= j < |hops|
        ensures !Before(hops[j], h)
      {
        BeforeIsStrictOrder(h, hops[0], hops[j]);
      }
    }
  }

  /** The list in order. */
  function SortedHops(hops: seq<NextHop>): (r: seq<NextHop>)
    ensures multiset(r) == multiset(hops)
  {
    if hops == [] then []
    else
      assert hops == [hops[0]] + hops[1..];
      InsertSorted(hops[0], SortedHops(hops[1..]))
  }

  lemma {:induction false} SortingSorts(hops: seq<NextHop>)
    ensures Sorted(SortedHops(hops))
    ensures |SortedHops(hops)| == |hops|
    ensures forall h :: h in SortedHops(hops) <==> h in hops
    ensures UniqueFaces(hops) ==> UniqueFaces(SortedHops(hops))
  {
    var r := SortedHops(hops);
    assert |multiset(r)| == |multiset(hops)|;
    assert forall h :: h in r <==> h in multiset(r);
    if hops != [] {
      SortingSorts(hops[1..]);
      InsertKeepsSorted(hops[0], SortedHops(hops[1..]));
      if UniqueFaces(hops) {
        assert UniqueFaces(hops[1..]);
        forall h | h in SortedHops(hops[1..])
          ensures h.face != hops[0].face
        {
          assert h in hops[1..];
        }
        InsertKeepsUnique(hops[0], SortedHops(hops[1..]));
      }
    }
  }

  lemma {:induction false} InsertKeepsUnique(h: NextHop, hops: seq<NextHop>)
    requires UniqueFaces(hops) && forall x :: x in hops ==> x.face != h.face
    ensures UniqueFaces(InsertSorted(h, hops))
  {
    if hops != [] && Before(hops[0], h) {
      assert UniqueFaces(hops[1..]);
      InsertKeepsUnique(h, hops[1..]);
      var rest := InsertSorted(h, hops[1..]);
      forall j | 0 <= j < |rest|
        ensures rest[j].face != hops[0].face
      {
        assert rest[j] in multiset(rest);
        if rest[j] != h {
          assert rest[j] in hops[1..];
        }
      }
    }
  }

  lemma SortedHeadsAgree(a: seq<NextHop>, b: seq<NextHop>)
    requires Sorted(a) && Sorted(b) && multiset(a) == multiset(b) && a != []
    ensures b != [] && a[0] == b[0]
  {
    assert a[0] in multiset(b);
    var i :| 0 <= i < |b| && b[i] == a[0];
    assert b[0] in multiset(a);
    var j :| 0 <= j < |a| && a[j] == b[0];
    BeforeIsStrictOrder(a[0], b[0], b[0]);
  }

  /** A sorted arrangement is unique, so any correct sorting routine yields this one. */
  lemma {:induction false} SortedIsUnique(a: seq<NextHop>, b: seq<NextHop>)
    requires Sorted(a) && Sorted(b) && multiset(a) == multiset(b)
    ensures a == b
  {
    if a == [] {
      assert |multiset(b)| == |b|;
    } else {
      SortedHeadsAgree(a, b);
      var a', b' := a[1..], b[1..];
      assert a == [a[0]] + a' && b == [b[0]] + b';
      assert multiset(a') == multiset(a) - multiset{a[0]};
      assert multiset(b') == multiset(b) - multiset{b[0]};
      SortedIsUnique(a', b');
    }
  }

  // ----- the list object -----

  lemma AppendedIsMin(hops: seq<NextHop>, nh: NextHop)
    requires UniqueFaces(hops) && forall i :: 0 <= i < |hops| ==> hops[i].face != nh.face
    ensures UniqueFaces(hops + [nh]) && nh.face !in Faces(hops) && Costs(hops + [nh]) == MinCost(Costs(hops), nh)
  {
    CostsOfUnique(hops);
    CostsOfAppended(hops, nh);
  }

  lemma LoweredIsMin(hops: seq<NextHop>, i: nat, nh: NextHop)
    requires UniqueFaces(hops) && i < |hops| && hops[i].face == nh.face
    ensures nh.face in Faces(hops)
    ensures var after := if hops[i].cost > nh.cost then hops[i := hops[i].(cost := nh.cost)] else hops;
            UniqueFaces(after) && Costs(after) == MinCost(Costs(hops), nh)
  {
    CostsOfUnique(hops);
    assert hops[i] in hops;
    if hops[i].cost > nh.cost {
      var after := hops[i := hops[i].(cost := nh.cost)];
      ReplacedMembers(hops, i, nh);
      CostsOfUnique(after);
      CostsDetermined(after, MinCost(Costs(hops), nh));
    }
  }

  class NexthopList {
    var hops: seq<NextHop>

    constructor (initial: seq<NextHop>)
      ensures hops == initial
    {
      hops := initial;
    }

    /** A hop over a new face is appended; a known face keeps its place and the lower cost. */
    method AddNextHop(nh: NextHop)
      requires UniqueFaces(hops)
      modifies this
      ensures UniqueFaces(hops)
      ensures Costs(hops) == MinCost(old(Costs(hops)), nh)
      ensures |hops| == if nh.face in old(Faces(hops)) then old(|hops|) else old(|hops|) + 1
      ensures forall i :: 0 <= i < old(|hops|) ==> hops[i].face == old(hops)[i].face
      ensures |hops| > old(|hops|) ==> hops == old(hops) + [nh]
    {
      var i := 0;
      while i < |hops| && hops[i].face != nh.face
        invariant 0 <= i <= |hops|
        invariant forall j :: 0 <= j < i ==> hops[j].face != nh.face
      {
        i := i + 1;
      }
      if i == |hops| {
        AppendedIsMin(hops, nh);
        hops := hops + [nh];
      } else {
        LoweredIsMin(hops, i, nh);
        if hops[i].cost > nh.cost {
          hops := hops[i := hops[i].(cost := nh.cost)];
        }
      }
    }

    /** Only a hop with both the face and the cost given is removed. */
    method RemoveNextHop(nh: NextHop)
      requires UniqueFaces(hops)
      modifies this
      ensures UniqueFaces(hops)
      ensures Costs(hops) == if nh in old(hops) then old(Costs(hops)) - {nh.face} else old(Costs(hops))
    {
      var i := 0;
      while i < |hops| && hops[i] != nh
        invariant 0 <= i <= |hops|
        invariant nh !in hops[..i]
      {
        i := i + 1;
      }
      ghost var before := hops;
      CostsOfUnique(before);
      if i < |hops| {
        hops := hops[..i] + hops[i + 1..];
        CutMembers(before, i);
        CostsOfUnique(hops);
        CostsDetermined(hops, Costs(before) - {nh.face});
      } else {
        assert hops[..i] == hops;
      }
    }

    method Sort()
      requires UniqueFaces(hops)
      modifies this
      ensures UniqueFaces(hops) && Sorted(hops) && multiset(hops) == multiset(old(hops))
      ensures hops == SortedHops(old(hops))
      ensures Costs(hops) == old(Costs(hops)) && Faces(hops) == old(Faces(hops))
    {
      SortingSorts(hops);
      CostsByMembership(SortedHops(hops), hops);
      hops := SortedHops(hops);
    }
  }

  lemma CostsDetermined(hops: seq<NextHop>, m: map<string, nat>)
    requires UniqueFaces(hops)
    requires forall h :: h in hops <==> h.face in m && m[h.face] == h.cost
    ensures Costs(hops) == m
  {
    CostsOfUnique(hops);
    forall f | f in m
      ensures f in Costs(hops) && Costs(hops)[f] == m[f]
    {
      assert NextHop(f, m[f]) in hops;
    }
    forall f | f in Costs(hops)
      ensures f in m
    {
      assert NextHop(f, Costs(hops)[f]) in hops;
    }
  }

  lemma ReplacedMembers(hops: seq<NextHop>, i: nat, nh: NextHop)
    requires UniqueFaces(hops) && i < |hops| && hops[i].face == nh.face
    ensures UniqueFaces(hops[i := nh])
    ensures forall h :: h in hops[i := nh] <==> h == nh || (h in hops && h.face != nh.face)
  {
    var r := hops[i := nh];
    assert r[i] == nh;
    forall h | h in hops && h.face != nh.face
      ensures h in r
    {
      var k :| 0 <= k < |hops| && hops[k] == h;
      assert r[k] == h;
    }
  }

  lemma CutMembers(hops: seq<NextHop>, i: nat)
    requires UniqueFaces(hops) && i < |hops|
    ensures UniqueFaces(hops[..i] + hops[i + 1..])
    ensures forall h :: h in hops[..i] + hops[i + 1..] <==> h in hops && h.face != hops[i].face
  {
    var r := hops[..i] + hops[i + 1..];
    forall h | h in hops && h.face != hops[i].face
      ensures h in r
    {
      var k :| 0 <= k < |hops| && hops[k] == h;
      assert r[if k < i then k else k - 1] == h;
    }
  }
}
