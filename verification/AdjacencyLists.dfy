/** Neighbours as the database and the configuration keep them, lists with one entry per neighbour, and the
    comparison that decides whether an adjacency LSA says anything new (src/adjacent.hpp, src/adjacent.cpp,
    src/adjacency-list.cpp, AdjLsa::isEqualContent in src/lsa.cpp). */
module AdjacencyLists {
  import opened Names
  import opened Listings
  import opened RouterMaps

  /** std::numeric_limits<double>::epsilon(), 2 to the power -52. */
  const EPSILON: real := 1.0 / 4503599627370496.0

  function Abs(x: real): real {
    if x < 0.0 then -x else x
  }

  /** A cost as configured: no double but those below the epsilon has a smaller fraction than it. */
  type ConfiguredCost = c: real | c >= 0.0 && (c == c.Floor as real || c - c.Floor as real >= EPSILON)

  /** getLinkCost: whoever reads a cost gets it rounded up. */
  function GetLinkCost(c: ConfiguredCost): nat {
    if c == c.Floor as real then c.Floor else c.Floor + 1
  }

  datatype Adjacent = Adjacent(name: Name, face: string, linkCost: ConfiguredCost)

  function Read(a: Adjacent): Adjacency {
    Adjacency(a.name, a.face, GetLinkCost(a.linkCost))
  }

  /** operator==: compares the own cost with the other's as read. */
  predicate Same(a: Adjacent, b: Adjacent) {
    a.name == b.name && a.face == b.face && Abs(a.linkCost - GetLinkCost(b.linkCost) as real) < EPSILON
  }

  /** Rounding up changes the cost by less than the epsilon. */
  predicate NearWhole(c: ConfiguredCost) {
    GetLinkCost(c) as real - c < EPSILON
  }

  /** The comparison is equality of what is read, of adjacencies whose own cost is nearly whole; one with a
      fractional cost is not even the same as itself. */
  lemma SameExactly(a: Adjacent, b: Adjacent)
    ensures Same(a, b) <==> Read(a) == Read(b) && NearWhole(a.linkCost)
  {
    var m, n := GetLinkCost(a.linkCost), GetLinkCost(b.linkCost);
    if m < n {
      assert n as real - a.linkCost >= 1.0;
    } else if n < m {
      assert a.linkCost.Floor >= n;
    }
  }

  /** A fraction of a half, or of as much as 2 to the power -52 below a whole number, and one of half that. */
  lemma FractionIsNotItself()
    ensures !Same(Adjacent("n", "f", 1.5), Adjacent("n", "f", 1.5))
    ensures var c := 2.0 - 1.0 / 4503599627370496.0; !Same(Adjacent("n", "f", c), Adjacent("n", "f", c))
    ensures var c := 2.0 - 1.0 / 9007199254740992.0; Same(Adjacent("n", "f", c), Adjacent("n", "f", c))
  {
    SameExactly(Adjacent("n", "f", 1.5), Adjacent("n", "f", 1.5));
  }

  /** What is read is the least whole number that is not below the configured cost. */
  lemma ReadRoundsUp(a: Adjacent, n: nat)
    ensures Read(a).name == a.name && Read(a).face == a.face
    ensures a.linkCost <= Read(a).cost as real && (a.linkCost <= n as real ==> Read(a).cost <= n)
  {
    if a.linkCost <= n as real && a.linkCost != a.linkCost.Floor as real {
      assert a.linkCost.Floor < n;
    }
  }

  function ReadAll(s: seq<Adjacent>): (r: seq<Adjacency>)
    ensures |r| == |s| && forall i :: 0 <= i < |r| ==> r[i] == Read(s[i])
  {
    seq(|s|, i requires 0 <= i < |s| => Read(s[i]))
  }

  ghost function LinksRead(s: seq<Adjacent>): set<Adjacency> {
    set a | a in s :: Read(a)
  }

  lemma LinksOfAll(s: seq<Adjacent>)
    ensures LinksIn(ReadAll(s)) == LinksRead(s)
  {
    forall i | 0 <= i < |s|
      ensures Read(s[i]) in LinksIn(ReadAll(s)) && Read(s[i]) in LinksRead(s)
    {
      assert ReadAll(s)[i] in ReadAll(s) && s[i] in s;
    }
    forall x | x in LinksIn(ReadAll(s))
      ensures x in LinksRead(s)
    {
      var i :| 0 <= i < |s| && ReadAll(s)[i] == x;
    }
  }

  function NameOf(a: Adjacent): Name { a.name }

  /** No neighbour twice. */
  ghost predicate NoneTwice(s: seq<Adjacent>) {
    DistinctKeys(s, NameOf)
  }

  ghost predicate AllNearWhole(s: seq<Adjacent>) {
    forall a :: a in s ==> NearWhole(a.linkCost)
  }

  ghost predicate ByName(s: seq<Adjacent>) {
    forall i, j :: 0 <= i < j < |s| ==> LexLess(s[i].name, s[j].name)
  }

  function InsertByName(a: Adjacent, s: seq<Adjacent>): (r: seq<Adjacent>)
    ensures |r| == |s| + 1
  {
    if s == [] || !LexLess(s[0].name, a.name) then [a] + s else [s[0]] + InsertByName(a, s[1..])
  }

  function SortedByName(s: seq<Adjacent>): (r: seq<Adjacent>)
    ensures |r| == |s|
  {
    if s == [] then [] else InsertByName(s[0], SortedByName(s[1..]))
  }

  lemma {:induction false} InsertOrdered(a: Adjacent, s: seq<Adjacent>)
    requires ByName(s) && forall x :: x in s ==> x.name != a.name
    ensures ByName(InsertByName(a, s)) && forall x :: x in InsertByName(a, s) <==> x in s || x == a
  {
    if s != [] && LexLess(s[0].name, a.name) {
      InsertOrdered(a, s[1..]);
      var rest := InsertByName(a, s[1..]);
      assert s == [s[0]] + s[1..];
      forall j | 0 <= j < |rest|
        ensures LexLess(s[0].name, rest[j].name)
      {
        assert rest[j] in rest;
        if rest[j] != a {
          assert rest[j] in s[1..];
        }
      }
    } else if s != [] {
      LexTotal(a.name, s[0].name);
      assert s[0] in s;
      forall j | 0 <= j < |s|
        ensures LexLess(a.name, s[j].name)
      {
        if j > 0 { LexTransitive(a.name, s[0].name, s[j].name); }
      }
    }
  }

  lemma {:induction false} SortingKeeps(s: seq<Adjacent>)
    requires NoneTwice(s)
    ensures ByName(SortedByName(s)) && NoneTwice(SortedByName(s)) && forall x :: x in SortedByName(s) <==> x in s
  {
    if s != [] {
      assert NoneTwice(s[1..]);
      SortingKeeps(s[1..]);
      var rest := SortedByName(s[1..]);
      forall x | x in rest
        ensures x.name != s[0].name
      {
        var j :| 0 <= j < |s[1..]| && s[1..][j] == x;
        assert NameOf(s[0]) != NameOf(s[j + 1]);
      }
      InsertOrdered(s[0], rest);
      assert s == [s[0]] + s[1..];
    }
    OrderedNoneTwice(SortedByName(s));
  }

  lemma OrderedNoneTwice(s: seq<Adjacent>)
    requires ByName(s)
    ensures NoneTwice(s)
  {
    forall i, j | 0 <= i < j < |s|
      ensures NameOf(s[i]) != NameOf(s[j])
    {
      LexTotal(s[i].name, s[j].name);
    }
  }

  lemma SameMembers(s: seq<Adjacent>, t: seq<Adjacent>)
    requires forall x :: x in s <==> x in t
    ensures LinksRead(s) == LinksRead(t) && (AllNearWhole(s) <==> AllNearWhole(t))
  {
  }

  lemma OrderedHeads(a: seq<Adjacent>, b: seq<Adjacent>)
    requires ByName(a) && ByName(b) && LinksRead(a) == LinksRead(b) && a != []
    ensures b != [] && Read(a[0]) == Read(b[0]) && LinksRead(a[1..]) == LinksRead(b[1..])
  {
    assert Read(a[0]) in LinksRead(b);
    var i :| 0 <= i < |b| && Read(b[i]) == Read(a[0]);
    assert Read(b[0]) in LinksRead(a);
    var j :| 0 <= j < |a| && Read(a[j]) == Read(b[0]);
    LexTotal(a[0].name, b[0].name);
    HeadApart(a);
    HeadApart(b);
  }

  /** In an ordered list nothing else reads like the first entry. */
  lemma HeadApart(a: seq<Adjacent>)
    requires ByName(a) && a != []
    ensures LinksRead(a[1..]) == LinksRead(a) - {Read(a[0])}
  {
    assert a == [a[0]] + a[1..];
    forall x | x in a[1..]
      ensures Read(x) != Read(a[0])
    {
      LexTotal(a[0].name, x.name);
    }
  }

  /** Ordered lists that read the same are the same list, as read. */
  lemma {:induction false} OrderedAreEqual(a: seq<Adjacent>, b: seq<Adjacent>)
    requires ByName(a) && ByName(b) && LinksRead(a) == LinksRead(b)
    ensures ReadAll(a) == ReadAll(b)
  {
    if a == [] {
      if b != [] {
        OrderedHeads(b, a);
      }
    } else {
      OrderedHeads(a, b);
      OrderedAreEqual(a[1..], b[1..]);
      assert ReadAll(a) == [Read(a[0])] + ReadAll(a[1..]);
      assert ReadAll(b) == [Read(b[0])] + ReadAll(b[1..]);
    }
  }

  /** Comparing two ordered lists side by side. */
  ghost predicate SideBySide(a: seq<Adjacent>, b: seq<Adjacent>) {
    |a| == |b| && forall i :: 0 <= i < |a| ==> Same(a[i], b[i])
  }

  lemma SideBySideExactly(a: seq<Adjacent>, b: seq<Adjacent>)
    requires ByName(a) && ByName(b)
    ensures SideBySide(a, b) <==> LinksRead(a) == LinksRead(b) && AllNearWhole(a)
  {
    forall i | 0 <= i < |a| && i < |b|
      ensures Same(a[i], b[i]) <==> ReadAll(a)[i] == ReadAll(b)[i] && NearWhole(a[i].linkCost)
    {
      SameExactly(a[i], b[i]);
    }
    if SideBySide(a, b) {
      assert ReadAll(a) == ReadAll(b);
      LinksOfAll(a);
      LinksOfAll(b);
    }
    if LinksRead(a) == LinksRead(b) && AllNearWhole(a) {
      OrderedAreEqual(a, b);
      assert |ReadAll(a)| == |ReadAll(b)|;
    }
  }

  class AdjacencyList {
    var adjacents: seq<Adjacent>

    constructor (initial: seq<Adjacent>)
      ensures adjacents == initial
    {
      adjacents := initial;
    }

    method Insert(a: Adjacent) returns (r: int)
      requires NoneTwice(adjacents)
      modifies this
      ensures NoneTwice(adjacents)
      ensures r == 0 ==> adjacents == old(adjacents) + [a] && forall x :: x in old(adjacents) ==> x.name != a.name
      ensures r != 0 ==> r == -1 && adjacents == old(adjacents) && exists x :: x in adjacents && x.name == a.name
    {
      for i := 0 to |adjacents|
        invariant adjacents == old(adjacents) && forall j :: 0 <= j < i ==> adjacents[j].name != a.name
      {
        if adjacents[i].name == a.name {
          assert adjacents[i] in adjacents;
          return -1;
        }
      }
      adjacents := adjacents + [a];
      r := 0;
    }

    /** Copies another list into this one, which has been emptied. */
    method AddAdjacents(adl: seq<Adjacent>)
      requires adjacents == [] && NoneTwice(adl)
      modifies this
      ensures adjacents == adl
    {
      for i := 0 to |adl|
        invariant adjacents == adl[..i]
      {
        assert adl[..i + 1] == adl[..i] + [adl[i]];
        assert forall j :: 0 <= j < i ==> NameOf(adl[j]) != NameOf(adl[i]);
        var r := Insert(adl[i]);
      }
      assert adl[..|adl|] == adl;
    }

    /** operator==: sorts both lists in place and compares them side by side. On lists with one entry per
        neighbour this is equality of the sets of links read, provided that all costs of this list are
        nearly whole: a list with a fractional cost equals no list, not even itself. */
    method Equals(other: AdjacencyList) returns (equal: bool)
      requires other != this && NoneTwice(adjacents) && NoneTwice(other.adjacents)
      modifies this, other
      ensures equal <==> LinksRead(old(adjacents)) == LinksRead(old(other.adjacents)) && AllNearWhole(old(adjacents))
      ensures NoneTwice(adjacents) && forall x :: x in adjacents <==> x in old(adjacents)
      ensures NoneTwice(other.adjacents) && forall x :: x in other.adjacents <==> x in old(other.adjacents)
    {
      ghost var a, b := SortedByName(adjacents), SortedByName(other.adjacents);
      SortingKeeps(adjacents);
      SortingKeeps(other.adjacents);
      SameMembers(adjacents, a);
      SameMembers(other.adjacents, b);
      SideBySideExactly(a, b);
      if |adjacents| != |other.adjacents| {
        return false;
      }
      adjacents := SortedByName(adjacents);
      other.adjacents := SortedByName(other.adjacents);
      equal := CompareSorted(other);
    }

    method CompareSorted(other: AdjacencyList) returns (equal: bool)
      requires |adjacents| == |other.adjacents|
      ensures equal <==> SideBySide(adjacents, other.adjacents)
    {
      var equalAdjCount := 0;
      while equalAdjCount < |adjacents| && Same(adjacents[equalAdjCount], other.adjacents[equalAdjCount])
        invariant 0 <= equalAdjCount <= |adjacents|
        invariant forall i :: 0 <= i < equalAdjCount ==> Same(adjacents[i], other.adjacents[i])
      {
        equalAdjCount := equalAdjCount + 1;
      }
      equal := equalAdjCount == |adjacents|;
    }
  }
}
