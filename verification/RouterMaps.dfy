/** Adjacency LSAs as the route calculation reads them, and the numbering of routers
    (src/route/map.cpp). */
module RouterMaps {
  import opened Names
  import opened Listings

  datatype Adjacency = Adjacency(name: Name, face: string, cost: nat)
  datatype AdjLsa = AdjLsa(origin: Name, adjacents: seq<Adjacency>)
  datatype MapEntry = MapEntry(router: Name, mappingNo: int)

  const NO_MAPPING_NUM := -1

  /** Every router an LSA mentions, as its origin or as a neighbour. */
  ghost function Mentioned(lsdb: seq<AdjLsa>): set<Name> {
    if lsdb == [] then {}
    else
      var last := lsdb[|lsdb| - 1];
      Mentioned(lsdb[..|lsdb| - 1]) + {last.origin} + Neighbours(last.adjacents)
  }

  ghost function Neighbours(adjacents: seq<Adjacency>): set<Name> {
    if adjacents == [] then {}
    else Neighbours(adjacents[..|adjacents| - 1]) + {adjacents[|adjacents| - 1].name}
  }

  lemma {:induction false} MentionedMembers(lsdb: seq<AdjLsa>, i: nat)
    requires i < |lsdb|
    ensures lsdb[i].origin in Mentioned(lsdb)
    ensures Neighbours(lsdb[i].adjacents) <= Mentioned(lsdb)
    decreases |lsdb|
  {
    if i < |lsdb| - 1 {
      MentionedMembers(lsdb[..|lsdb| - 1], i);
    }
  }

  lemma {:induction false} NeighbourMembers(adjacents: seq<Adjacency>, i: nat)
    requires i < |adjacents|
    ensures adjacents[i].name in Neighbours(adjacents)
    decreases |adjacents|
  {
    if i < |adjacents| - 1 {
      NeighbourMembers(adjacents[..|adjacents| - 1], i);
    }
  }

  ghost function LinksIn(s: seq<Adjacency>): set<Adjacency> {
    set a | a in s
  }

  /** No neighbour twice. */
  ghost predicate OnePerNeighbour(s: seq<Adjacency>) {
    forall i, j :: 0 <= i < j < |s| ==> s[i].name != s[j].name
  }

  class RouterMap {
    var table: seq<MapEntry>
    var mappingIndex: nat

    /** The i-th router in the table has number i, and no router is there twice. */
    ghost predicate Valid()
      reads this
    {
      && |table| == mappingIndex
      && (forall i :: 0 <= i < |table| ==> table[i].mappingNo == i)
      && forall i, j :: 0 <= i < j < |table| ==> table[i].router != table[j].router
    }

    /** The routers in number order. */
    ghost function Routers(): (names: seq<Name>)
      reads this
      ensures |names| == |table| && forall i :: 0 <= i < |names| ==> names[i] == table[i].router
    {
      seq(|table|, i requires 0 <= i < |table| reads this => table[i].router)
    }

    constructor ()
      ensures Valid() && Routers() == []
    {
      table := [];
      mappingIndex := 0;
    }

    method AddEntry(router: Name)
      requires Valid()
      modifies this
      ensures Valid()
      ensures Routers() == if router in old(Routers()) then old(Routers()) else old(Routers()) + [router]
    {
      var no := GetMappingNoByRouterName(router);
      if no == NO_MAPPING_NUM {
        table := table + [MapEntry(router, mappingIndex)];
        mappingIndex := mappingIndex + 1;
      }
    }

    method GetMappingNoByRouterName(router: Name) returns (no: int)
      requires Valid()
      ensures no == NO_MAPPING_NUM <==> router !in Routers()
      ensures no != NO_MAPPING_NUM ==> 0 <= no < |Routers()| && Routers()[no] == router
    {
      var i := 0;
      while i < |table| && table[i].router != router
        invariant 0 <= i <= |table|
        invariant forall j :: 0 <= j < i ==> table[j].router != router
      {
        i := i + 1;
      }
      no := NO_MAPPING_NUM;
      if i < |table| {
        no := table[i].mappingNo;
        assert Routers()[i] == router;
      }
    }

    /** The name of a router number; the empty name for a number not handed out. */
    method GetRouterNameByMappingNo(no: int) returns (router: Name)
      requires Valid()
      ensures router == if 0 <= no < |Routers()| then Routers()[no] else ""
    {
      var i := 0;
      while i < |table| && table[i].mappingNo != no
        invariant 0 <= i <= |table|
        invariant forall j :: 0 <= j < i ==> table[j].mappingNo != no
      {
        i := i + 1;
      }
      router := if i < |table| then table[i].router else "";
    }

    /** Numbers exactly the routers the LSAs mention, each once: with the two lookups above,
        a bijection between those names and 0 .. n-1. */
    method CreateFromAdjLsdb(lsdb: seq<AdjLsa>)
      requires Valid() && Routers() == []
      modifies this
      ensures Valid() && NoDuplicates(Routers())
      ensures forall r :: r in Routers() <==> r in Mentioned(lsdb)
    {
      for k := 0 to |lsdb|
        invariant Valid()
        invariant forall r :: r in Routers() <==> r in Mentioned(lsdb[..k])
      {
        AddEntry(lsdb[k].origin);
        var adl := lsdb[k].adjacents;
        for m := 0 to |adl|
          invariant Valid()
          invariant forall r :: r in Routers() <==> r in Mentioned(lsdb[..k]) + {lsdb[k].origin} + Neighbours(adl[..m])
        {
          assert adl[..m + 1][..m] == adl[..m];
          AddEntry(adl[m].name);
        }
        assert adl[..|adl|] == adl;
        assert lsdb[..k + 1][..k] == lsdb[..k];
      }
      assert lsdb[..|lsdb|] == lsdb;
    }
  }
}
