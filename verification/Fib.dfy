/** The forwarding table and the commands it sends to the forwarder (src/route/fib.cpp). */
module Fibs {
  import opened Names
  import opened Hops
  import opened Listings

  /** Register and unregister commands, in the order they are issued. Every face URI is taken to
      resolve to its own face. */
  datatype Command = Register(name: Name, face: string, cost: nat) | Unregister(name: Name, face: string)

  /** The forwarder's routes: for each name, the cost registered for each face. */
  type Rib = map<Name, map<string, nat>>

  ghost function RoutesOf(rib: Rib, name: Name): map<string, nat> {
    if name in rib then rib[name] else map[]
  }

  ghost function Obey(rib: Rib, c: Command): Rib {
    rib[c.name := if c.Register? then RoutesOf(rib, c.name)[c.face := c.cost] else RoutesOf(rib, c.name) - {c.face}]
  }

  ghost function Replay(commands: seq<Command>): Rib {
    if commands == [] then map[] else Obey(Replay(commands[..|commands| - 1]), commands[|commands| - 1])
  }

  /** An entry with its expiration event. */
  datatype FibEntry = FibEntry(name: Name, hops: seq<NextHop>, seqNo: nat, event: nat)

  /** How many hops a name may have: all if the limit is 0. */
  function MaxFaces(limit: nat, count: nat): nat {
    if limit == 0 || count < limit then count else limit
  }

  /** The hops chosen for installation: the first ones in order of cost, then URI. */
  ghost function Chosen(hops: seq<NextHop>, limit: nat): (r: seq<NextHop>)
    ensures |r| <= |SortedHops(hops)|
  {
    SortedHops(hops)[..MaxFaces(limit, |SortedHops(hops)|)]
  }

  lemma ChosenIsUnique(hops: seq<NextHop>, limit: nat)
    requires UniqueFaces(hops)
    ensures UniqueFaces(Chosen(hops, limit)) && (Chosen(hops, limit) == [] <==> hops == [])
    ensures Sorted(Chosen(hops, limit)) && forall h :: h in Chosen(hops, limit) ==> h in hops
  {
    SortingSorts(hops);
  }

  /** No more are chosen than the limit allows, and no fewer than there are; a limit of 0 allows all. */
  lemma ChosenAreAsMany(hops: seq<NextHop>, limit: nat)
    ensures limit == 0 ==> |Chosen(hops, limit)| == |hops|
    ensures limit != 0 ==> |Chosen(hops, limit)| <= limit && (|Chosen(hops, limit)| == limit || |Chosen(hops, limit)| == |hops|)
  {
    SortingSorts(hops);
  }

  /** Whatever is left out costs more than anything chosen, or as much over a face with the larger URI; and
      something is left out only if as many are chosen as the limit allows. */
  lemma ChosenAreBest(hops: seq<NextHop>, limit: nat, a: NextHop, b: NextHop)
    requires UniqueFaces(hops) && a in Chosen(hops, limit) && b in hops && b !in Chosen(hops, limit)
    ensures a.cost < b.cost || (a.cost == b.cost && LexLess(a.face, b.face))
    ensures limit != 0 && |Chosen(hops, limit)| == limit
  {
    SortingSorts(hops);
    var s := SortedHops(hops);
    var i :| 0 <= i < |Chosen(hops, limit)| && Chosen(hops, limit)[i] == a;
    assert b in s;
    var j :| 0 <= j < |s| && s[j] == b;
    assert j >= |Chosen(hops, limit)|;
    assert !Before(s[j], s[i]);
    BeforeIsStrictOrder(a, b, b);
  }

  // ----- effect of the commands -----

  ghost function Registers(name: Name, hops: seq<NextHop>): seq<Command> {
    if hops == [] then []
    else Registers(name, hops[..|hops| - 1]) + [Register(name, hops[|hops| - 1].face, hops[|hops| - 1].cost)]
  }

  ghost function Unregisters(name: Name, faces: seq<string>): seq<Command> {
    if faces == [] then [] else Unregisters(name, faces[..|faces| - 1]) + [Unregister(name, faces[|faces| - 1])]
  }

  lemma ReplayOne(sent: seq<Command>, c: Command)
    ensures Replay(sent + [c]) == Obey(Replay(sent), c)
  {
    assert (sent + [c])[..|sent|] == sent;
  }

  lemma {:induction false} ReplayRegisters(sent: seq<Command>, name: Name, hops: seq<NextHop>, other: Name)
    requires UniqueFaces(hops)
    ensures RoutesOf(Replay(sent + Registers(name, hops)), other) ==
            if other == name then RoutesOf(Replay(sent), name) + Costs(hops) else RoutesOf(Replay(sent), other)
  {
    if hops == [] {
      assert sent + [] == sent;
      assert RoutesOf(Replay(sent), name) + map[] == RoutesOf(Replay(sent), name);
    } else {
      var init, last := hops[..|hops| - 1], hops[|hops| - 1];
      assert UniqueFaces(init);
      ReplayRegisters(sent, name, init, other);
      var before := sent + Registers(name, init);
      assert sent + Registers(name, hops) == before + [Register(name, last.face, last.cost)];
      ReplayOne(before, Register(name, last.face, last.cost));
      LastRegistered(RoutesOf(Replay(sent), name), hops);
    }
  }

  lemma LastRegistered(routes: map<string, nat>, hops: seq<NextHop>)
    requires UniqueFaces(hops) && hops != []
    ensures var init, last := hops[..|hops| - 1], hops[|hops| - 1];
            UniqueFaces(init) && (routes + Costs(init))[last.face := last.cost] == routes + Costs(hops)
  {
    var init, last := hops[..|hops| - 1], hops[|hops| - 1];
    assert hops == init + [last];
    forall h | h in init
      ensures h.face != last.face
    {
      var i :| 0 <= i < |init| && init[i] == h;
      assert hops[i].face != hops[|init|].face;
    }
    CostsOfAppended(init, last);
  }

  lemma UnregistersNext(name: Name, faces: seq<string>, face: string)
    ensures Unregisters(name, faces + [face]) == Unregisters(name, faces) + [Unregister(name, face)]
  {
    assert (faces + [face])[..|faces|] == faces;
  }

  lemma OneMoreTold(start: seq<Command>, name: Name, faces: seq<string>, face: string)
    ensures start + Unregisters(name, faces) + [Unregister(name, face)] == start + Unregisters(name, faces + [face])
  {
    UnregistersNext(name, faces, face);
  }

  ghost function FacesOfSeq(faces: seq<string>): set<string> {
    set f | f in faces
  }

  lemma OneLess(routes: map<string, nat>, faces: seq<string>, face: string)
    ensures routes - FacesOfSeq(faces + [face]) == routes - FacesOfSeq(faces) - {face}
  {
    assert FacesOfSeq(faces + [face]) == FacesOfSeq(faces) + {face};
  }

  lemma {:induction false} ReplayUnregisters(sent: seq<Command>, name: Name, faces: seq<string>, other: Name)
    ensures RoutesOf(Replay(sent + Unregisters(name, faces)), other) ==
            if other == name then RoutesOf(Replay(sent), name) - FacesOfSeq(faces) else RoutesOf(Replay(sent), other)
  {
    if faces == [] {
      assert sent + [] == sent;
      assert RoutesOf(Replay(sent), name) - FacesOfSeq([]) == RoutesOf(Replay(sent), name);
    } else {
      var init, last := faces[..|faces| - 1], faces[|faces| - 1];
      ReplayUnregisters(sent, name, init, other);
      assert faces == init + [last];
      UnregistersNext(name, init, last);
      var so := sent + Unregisters(name, init);
      assert sent + (Unregisters(name, init) + [Unregister(name, last)]) == so + [Unregister(name, last)];
      ReplayOne(so, Unregister(name, last));
      OneLess(RoutesOf(Replay(sent), name), init, last);
    }
  }

  // ----- the table's invariant -----

  /** An entry has the faces of the hops last chosen for its name. Its recorded costs may be lower, left over
      from an earlier and cheaper choice. */
  ghost predicate EntryOk(e: FibEntry, chosen: seq<NextHop>) {
    && UniqueFaces(e.hops) && UniqueFaces(chosen) && chosen != []
    && Costs(e.hops).Keys == Costs(chosen).Keys
    && forall f :: f in Costs(e.hops) ==> Costs(e.hops)[f] <= Costs(chosen)[f]
  }

  function EntryName(e: FibEntry): Name { e.name }

  ghost predicate TableOk(table: seq<FibEntry>, installed: map<Name, seq<NextHop>>) {
    && DistinctKeys(table, EntryName)
    && Index(table, EntryName).Keys == installed.Keys
    && forall n :: n in installed ==> EntryOk(Index(table, EntryName)[n], installed[n])
  }

  /** The costs an entry records for chosen hops: a face it had already keeps the lower of both costs. */
  ghost function LowerCosts(was: map<string, nat>, chosen: map<string, nat>): map<string, nat> {
    map f | f in chosen :: if f in was && was[f] < chosen[f] then was[f] else chosen[f]
  }

  /** The recorded costs are the chosen, and so the registered, ones exactly if no chosen face was recorded at
      a lower cost before. */
  lemma RecordedAsChosen(was: map<string, nat>, chosen: map<string, nat>)
    ensures LowerCosts(was, chosen) == chosen <==> forall f :: f in chosen && f in was ==> was[f] >= chosen[f]
  {
    if f :| f in chosen && f in was && was[f] < chosen[f] {
      assert LowerCosts(was, chosen)[f] == was[f];
    } else {
      assert LowerCosts(was, chosen) == chosen;
    }
  }

  /** A face whose cost rises from 1 to 2 stays recorded at 1. */
  lemma RisenCostIsNotRecorded()
    ensures var was, chosen := [NextHop("f", 1)], [NextHop("f", 2)];
            LowerCosts(Costs(was), Costs(chosen)) == Costs(was) != Costs(chosen)
  {
    var was, chosen := [NextHop("f", 1)], [NextHop("f", 2)];
    CostsOfUnique(was);
    CostsOfUnique(chosen);
    assert was[0] in was && chosen[0] in chosen;
    assert Costs(was)["f"] == 1 && Costs(chosen)["f"] == 2;
    RecordedAsChosen(Costs(was), Costs(chosen));
  }

  lemma NothingLower(chosen: map<string, nat>)
    ensures LowerCosts(map[], chosen) == chosen
  {
  }

  ghost function Recorded(index: map<Name, FibEntry>): map<Name, map<string, nat>> {
    map n | n in index :: Costs(index[n].hops)
  }

  lemma RecordedPut(index: map<Name, FibEntry>, e: FibEntry)
    ensures Recorded(index[e.name := e]) == Recorded(index)[e.name := Costs(e.hops)]
  {
  }

  lemma RecordedDropped(index: map<Name, FibEntry>, name: Name)
    ensures Recorded(index - {name}) == Recorded(index) - {name}
  {
  }

  lemma TablePut(table: seq<FibEntry>, installed: map<Name, seq<NextHop>>, table': seq<FibEntry>, e: FibEntry, chosen: seq<NextHop>)
    requires TableOk(table, installed) && EntryOk(e, chosen)
    requires DistinctKeys(table', EntryName) && Index(table', EntryName) == Index(table, EntryName)[e.name := e]
    ensures TableOk(table', installed[e.name := chosen])
  {
  }

  lemma TableDropped(table: seq<FibEntry>, installed: map<Name, seq<NextHop>>, table': seq<FibEntry>, name: Name)
    requires TableOk(table, installed)
    requires DistinctKeys(table', EntryName) && Index(table', EntryName) == Index(table, EntryName) - {name}
    ensures TableOk(table', installed - {name})
  {
  }

  ghost function RecordedFor(recorded: map<Name, map<string, nat>>, name: Name): map<string, nat> {
    if name in recorded then recorded[name] else map[]
  }

  /** Each entry has exactly one pending expiration, and each pending expiration is an entry's. */
  ghost predicate EventsOk(index: map<Name, FibEntry>, pending: map<nat, Name>, nextEvent: nat) {
    && (forall n :: n in index ==> index[n].event in pending && pending[index[n].event] == n)
    && forall id :: id in pending ==> id < nextEvent && pending[id] in index && index[pending[id]].event == id
  }

  lemma EventPut(index: map<Name, FibEntry>, pending: map<nat, Name>, nextEvent: nat, e: FibEntry)
    requires EventsOk(index, pending, nextEvent) && e.event == nextEvent
    ensures var rest := if e.name in index then pending - {index[e.name].event} else pending;
            EventsOk(index[e.name := e], rest[nextEvent := e.name], nextEvent + 1)
  {
  }

  lemma EventDropped(index: map<Name, FibEntry>, pending: map<nat, Name>, nextEvent: nat, name: Name)
    requires EventsOk(index, pending, nextEvent) && name in index
    ensures EventsOk(index - {name}, pending - {index[name].event}, nextEvent)
  {
  }

  lemma EntryDropped(table: seq<FibEntry>, installed: map<Name, seq<NextHop>>, pending: map<nat, Name>, nextEvent: nat, at: nat)
    requires TableOk(table, installed) && EventsOk(Index(table, EntryName), pending, nextEvent) && at < |table|
    ensures var e, rest := table[at], Dropped(table, at);
            && TableOk(rest, installed - {e.name}) && EventsOk(Index(rest, EntryName), pending - {e.event}, nextEvent)
            && Recorded(Index(rest, EntryName)) == Recorded(Index(table, EntryName)) - {e.name}
  {
    var e, index := table[at], Index(table, EntryName);
    IndexAt(table, EntryName, at);
    IndexDropped(table, EntryName, at);
    TableDropped(table, installed, Dropped(table, at), e.name);
    EventDropped(index, pending, nextEvent, e.name);
    RecordedDropped(index, e.name);
  }

  /** The forwarder holds exactly the hops last chosen, at their costs, for every name with an entry that is
      not a neighbour's, and nothing else. */
  ghost predicate Mirrors(sent: seq<Command>, installed: map<Name, seq<NextHop>>, neighbours: set<Name>) {
    forall n :: RoutesOf(Replay(sent), n) == if n in installed && n !in neighbours then Costs(installed[n]) else map[]
  }

  /** Dropping a name: its faces are unregistered and its entry goes. */
  lemma MirrorsRemoval(sent: seq<Command>, installed: map<Name, seq<NextHop>>, neighbours: set<Name>, name: Name, faces: seq<string>)
    requires Mirrors(sent, installed, neighbours) && name in installed
    requires FacesOfSeq(faces) == Costs(installed[name]).Keys
    ensures Mirrors(sent + if name in neighbours then [] else Unregisters(name, faces), installed - {name}, neighbours)
  {
    var after := sent + if name in neighbours then [] else Unregisters(name, faces);
    forall n
      ensures RoutesOf(Replay(after), n) == if n in installed - {name} && n !in neighbours then Costs(installed[n]) else map[]
    {
      ReplayUnregisters(sent, name, faces, n);
      assert sent + [] == sent;
    }
  }

  /** Installing a choice: its hops are registered, and faces of the entry not among them unregistered. */
  lemma MirrorsChoice(sent: seq<Command>, installed: map<Name, seq<NextHop>>, neighbours: set<Name>, name: Name,
                      chosen: seq<NextHop>, gone: seq<string>)
    requires Mirrors(sent, installed, neighbours) && UniqueFaces(chosen)
    requires FacesOfSeq(gone) !! Costs(chosen).Keys
    requires name in installed ==> Costs(installed[name]).Keys <= Costs(chosen).Keys + FacesOfSeq(gone)
    ensures Mirrors(sent + if name in neighbours then [] else Registers(name, chosen) + Unregisters(name, gone),
                    installed[name := chosen], neighbours)
  {
    forall n
      ensures RoutesOf(Replay(sent + if name in neighbours then [] else Registers(name, chosen) + Unregisters(name, gone)), n) ==
              if n in installed[name := chosen] && n !in neighbours then Costs(installed[name := chosen][n]) else map[]
    {
      assert sent + [] == sent;
      RoutesAfterChoice(sent, name, chosen, gone, n);
      if n == name && name !in neighbours {
        LeftAfterChoice(RoutesOf(Replay(sent), name), Costs(chosen), FacesOfSeq(gone));
      }
    }
  }

  lemma RoutesAfterChoice(sent: seq<Command>, name: Name, chosen: seq<NextHop>, gone: seq<string>, n: Name)
    requires UniqueFaces(chosen)
    ensures RoutesOf(Replay(sent + (Registers(name, chosen) + Unregisters(name, gone))), n) ==
            if n == name then RoutesOf(Replay(sent), name) + Costs(chosen) - FacesOfSeq(gone) else RoutesOf(Replay(sent), n)
  {
    ReplayRegisters(sent, name, chosen, n);
    ReplayUnregisters(sent + Registers(name, chosen), name, gone, n);
    assert sent + Registers(name, chosen) + Unregisters(name, gone) == sent + (Registers(name, chosen) + Unregisters(name, gone));
  }

  lemma LeftAfterChoice(routes: map<string, nat>, chosen: map<string, nat>, gone: set<string>)
    requires gone !! chosen.Keys && routes.Keys <= chosen.Keys + gone
    ensures routes + chosen - gone == chosen
  {
  }

  /** Replaying the commands of any run gives the forwarder, for each entry that is not a neighbour's,
      exactly the entry's faces, at the costs of the hops last chosen; without an entry, nothing. */
  lemma ForwarderFollowsTable(table: seq<FibEntry>, sent: seq<Command>, installed: map<Name, seq<NextHop>>, neighbours: set<Name>, name: Name)
    requires TableOk(table, installed) && Mirrors(sent, installed, neighbours)
    ensures var index, routes := Index(table, EntryName), RoutesOf(Replay(sent), name);
            if name in index && name !in neighbours
            then routes.Keys == Faces(index[name].hops) && name in installed && routes == Costs(installed[name])
            else routes == map[]
  {
    if name in installed {
      assert EntryOk(Index(table, EntryName)[name], installed[name]);
      CostsOfUnique(Index(table, EntryName)[name].hops);
    }
  }

  class Fib {
    const neighbours: set<Name>
    const maxFacesPerPrefix: nat
    var table: seq<FibEntry>
    /** Every command sent so far. */
    var sent: seq<Command>
    /** For each name with an entry, the hops last chosen for it. */
    ghost var installed: map<Name, seq<NextHop>>
    /** The scheduled expirations, each with the name it removes. */
    var pending: map<nat, Name>
    var nextEvent: nat

    ghost predicate Valid()
      reads this
    {
      && TableOk(table, installed) && Mirrors(sent, installed, neighbours)
      && EventsOk(Index(table, EntryName), pending, nextEvent)
    }

    /** For each name with an entry, the costs recorded in it. */
    ghost function Entries(): map<Name, map<string, nat>>
      reads this
    {
      Recorded(Index(table, EntryName))
    }

    constructor (neighbours: set<Name>, maxFaces: nat)
      ensures Valid() && installed == map[] && table == [] && sent == []
      ensures this.neighbours == neighbours && maxFacesPerPrefix == maxFaces
    {
      this.neighbours := neighbours;
      maxFacesPerPrefix := maxFaces;
      table := [];
      sent := [];
      installed := map[];
      pending := map[];
      nextEvent := 0;
    }

    predicate IsPrefixUpdatable(name: Name) {
      name !in neighbours
    }

    method FindEntry(name: Name) returns (at: int)
      requires TableOk(table, installed)
      ensures -1 <= at < |table| && (at == -1 <==> name !in installed)
      ensures at != -1 ==> table[at].name == name && EntryOk(table[at], installed[name])
      ensures at != -1 ==> name in Index(table, EntryName) && Index(table, EntryName)[name] == table[at]
    {
      IndexKeys(table, EntryName, name);
      at := 0;
      while at < |table| && table[at].name != name
        invariant 0 <= at <= |table|
        invariant forall i :: 0 <= i < at ==> table[i].name != name
      {
        at := at + 1;
      }
      if at == |table| {
        at := -1;
      } else {
        IndexAt(table, EntryName, at);
      }
    }

    /** An entry's expiration comes due: the name is removed. */
    method Expire(id: nat)
      requires Valid() && id in pending
      modifies this
      ensures Valid() && installed == old(installed) - {old(pending[id])} && Entries() == old(Entries()) - {old(pending[id])}
    {
      Remove(pending[id]);
    }

    /** Drops a name: unregisters all its faces, unless it is a neighbour's name, cancels its expiration, and
        forgets the entry. */
    method Remove(name: Name)
      requires Valid()
      modifies this
      ensures Valid() && installed == old(installed) - {name} && Entries() == old(Entries()) - {name}
    {
      var at := FindEntry(name);
      if at != -1 {
        DropEntry(at);
      } else {
        assert installed - {name} == installed && Entries() - {name} == Entries();
      }
    }

    method DropEntry(at: nat)
      requires Valid() && at < |table| && table[at].name in installed && EntryOk(table[at], installed[table[at].name])
      modifies this
      ensures Valid() && installed == old(installed) - {old(table[at].name)} && Entries() == old(Entries()) - {old(table[at].name)}
      ensures pending == old(pending) - {old(table[at].event)}
    {
      var name := table[at].name;
      ghost var before := sent;
      ghost var faces := UnregisterAll(name, table[at].hops);
      CostsOfUnique(table[at].hops);
      MirrorsRemoval(before, installed, neighbours, name, faces);
      EraseEntry(at);
    }

    method EraseEntry(at: nat)
      requires TableOk(table, installed) && EventsOk(Index(table, EntryName), pending, nextEvent) && at < |table|
      modifies this`pending, this`table, this`installed
      ensures TableOk(table, installed) && EventsOk(Index(table, EntryName), pending, nextEvent)
      ensures installed == old(installed) - {old(table[at].name)} && Entries() == old(Entries()) - {old(table[at].name)}
      ensures pending == old(pending) - {old(table[at].event)}
    {
      var e := table[at];
      EntryDropped(table, installed, pending, nextEvent, at);
      pending, table, installed := pending - {e.event}, Dropped(table, at), installed - {e.name};
    }

    method UnregisterAll(name: Name, hops: seq<NextHop>) returns (ghost faces: seq<string>)
      modifies this`sent
      ensures FacesOfSeq(faces) == Faces(hops)
      ensures sent == old(sent) + if name in neighbours then [] else Unregisters(name, faces)
    {
      faces := [];
      for i := 0 to |hops|
        invariant |faces| == i && forall k :: 0 <= k < i ==> faces[k] == hops[k].face
        invariant sent == old(sent) + if name in neighbours then [] else Unregisters(name, faces)
      {
        ghost var wider := faces + [hops[i].face];
        assert wider[..i] == faces;
        if IsPrefixUpdatable(name) {
          sent := sent + [Unregister(name, hops[i].face)];
        }
        faces := wider;
      }
      AllFaces(hops, faces);
    }

    /** Merges the chosen hops into an entry and registers them. */
    method AddNextHopsToFibEntryAndNfd(entry: FibEntry, hopsToAdd: seq<NextHop>) returns (e: FibEntry)
      requires UniqueFaces(entry.hops) && UniqueFaces(hopsToAdd)
      modifies this`sent
      ensures e.name == entry.name && e.seqNo == entry.seqNo && UniqueFaces(e.hops) && Sorted(e.hops)
      ensures Costs(e.hops) == MinCosts(Costs(entry.hops), hopsToAdd)
      ensures sent == old(sent) + if entry.name in neighbours then [] else Registers(entry.name, hopsToAdd)
    {
      var list := new NexthopList(entry.hops);
      for i := 0 to |hopsToAdd|
        invariant UniqueFaces(list.hops) && Costs(list.hops) == MinCosts(Costs(entry.hops), hopsToAdd[..i])
        invariant sent == old(sent) + if entry.name in neighbours then [] else Registers(entry.name, hopsToAdd[..i])
      {
        assert hopsToAdd[..i + 1][..i] == hopsToAdd[..i];
        list.AddNextHop(hopsToAdd[i]);
        if IsPrefixUpdatable(entry.name) {
          sent := sent + [Register(entry.name, hopsToAdd[i].face, hopsToAdd[i].cost)];
        }
      }
      assert hopsToAdd[..|hopsToAdd|] == hopsToAdd;
      list.Sort();
      e := entry.(hops := list.hops);
    }

    /** Unregisters and drops the entry's hops over faces not among those just installed. */
    method RemoveOldNextHopsFromFibEntryAndNfd(entry: FibEntry, installedHops: seq<NextHop>)
        returns (e: FibEntry, ghost gone: seq<string>)
      requires UniqueFaces(entry.hops)
      modifies this`sent
      ensures e.name == entry.name && e.seqNo == entry.seqNo && UniqueFaces(e.hops)
      ensures FacesOfSeq(gone) == Faces(entry.hops) - Faces(installedHops)
      ensures Costs(e.hops) == Costs(entry.hops) - FacesOfSeq(gone)
      ensures sent == old(sent) + if entry.name in neighbours then [] else Unregisters(entry.name, gone)
    {
      ghost var start := sent;
      var list := new NexthopList(entry.hops);
      gone := [];
      CostsOfUnique(entry.hops);
      for i := 0 to |entry.hops|
        invariant UniqueFaces(list.hops) && Costs(list.hops) == Costs(entry.hops) - FacesOfSeq(gone)
        invariant FacesOfSeq(gone) == Faces(entry.hops[..i]) - Faces(installedHops)
        invariant sent == start + if entry.name in neighbours then [] else Unregisters(entry.name, gone)
      {
        var hop := entry.hops[i];
        FacesOfNext(entry.hops, i);
        var found := HasFace(installedHops, hop.face);
        if !found {
          OneMoreGone(entry.hops, gone, installedHops, i);
          StillThere(list.hops, entry.hops, gone, i);
          Withdraw(list, entry.name, hop);
          OneMoreTold(start, entry.name, gone, hop.face);
          OneLess(Costs(entry.hops), gone, hop.face);
          gone := gone + [hop.face];
        }
      }
      assert entry.hops[..|entry.hops|] == entry.hops;
      e := entry.(hops := list.hops);
    }

    method Withdraw(list: NexthopList, name: Name, hop: NextHop)
      requires UniqueFaces(list.hops) && hop in list.hops
      modifies list, this`sent
      ensures UniqueFaces(list.hops) && Costs(list.hops) == old(Costs(list.hops)) - {hop.face}
      ensures sent == old(sent) + if name in neighbours then [] else [Unregister(name, hop.face)]
    {
      if IsPrefixUpdatable(name) {
        sent := sent + [Unregister(name, hop.face)];
      }
      list.RemoveNextHop(hop);
    }

    static method HasFace(hops: seq<NextHop>, face: string) returns (found: bool)
      ensures found <==> face in Faces(hops)
    {
      found := false;
      for i := 0 to |hops|
        invariant !found && face !in Faces(hops[..i])
      {
        if hops[i].face == face {
          assert hops[i] in hops;
          found := true;
          return;
        }
        FacesOfNext(hops, i);
      }
      assert hops[..|hops|] == hops;
    }

    method GetNumberOfFacesForName(hops: seq<NextHop>) returns (n: nat)
      ensures maxFacesPerPrefix == 0 ==> n == |hops|
      ensures maxFacesPerPrefix != 0 ==> n <= |hops| && n <= maxFacesPerPrefix && (n == |hops| || n == maxFacesPerPrefix)
    {
      if maxFacesPerPrefix == 0 {
        n := |hops|;
      } else {
        n := if |hops| < maxFacesPerPrefix then |hops| else maxFacesPerPrefix;
      }
    }

    /** Sorts the offered hops in place and copies the first few: as many as the configuration allows. */
    method ChooseHops(allHops: NexthopList) returns (hopsToAdd: seq<NextHop>)
      requires UniqueFaces(allHops.hops)
      modifies allHops
      ensures UniqueFaces(allHops.hops) && allHops.hops == SortedHops(old(allHops.hops))
      ensures hopsToAdd == Chosen(old(allHops.hops), maxFacesPerPrefix)
    {
      allHops.Sort();
      var maxFaces := GetNumberOfFacesForName(allHops.hops);
      var list := new NexthopList([]);
      var sorted := allHops.hops;
      for nFaces := 0 to maxFaces
        invariant UniqueFaces(list.hops) && list.hops == sorted[..nFaces] && allHops.hops == sorted
      {
        NotYetListed(sorted, nFaces);
        list.AddNextHop(sorted[nFaces]);
      }
      hopsToAdd := list.hops;
    }

    /** Makes the entry's faces, and the forwarder's routes, the best of the offered hops. With nothing on
        offer the name is dropped, or not entered in the first place. */
    method Update(name: Name, allHops: NexthopList)
      requires Valid() && UniqueFaces(allHops.hops)
      modifies this, allHops
      ensures Valid() && UniqueFaces(allHops.hops) && allHops.hops == SortedHops(old(allHops.hops))
      ensures installed == if old(allHops.hops) == [] then old(installed) - {name}
                           else old(installed)[name := Chosen(old(allHops.hops), maxFacesPerPrefix)]
      ensures Entries() == if old(allHops.hops) == [] then old(Entries()) - {name}
                           else old(Entries())[name := LowerCosts(RecordedFor(old(Entries()), name),
                                                                  Costs(Chosen(old(allHops.hops), maxFacesPerPrefix)))]
    {
      ChosenIsUnique(allHops.hops, maxFacesPerPrefix);
      var hopsToAdd := ChooseHops(allHops);
      var at := FindEntry(name);
      if at == -1 {
        if |hopsToAdd| == 0 {
          AbsentDropped(installed, name);
          AbsentDropped(Entries(), name);
          return;
        }
        assert RecordedFor(Entries(), name) == map[];
        NothingLower(Costs(hopsToAdd));
        CreateEntry(name, hopsToAdd);
      } else if |hopsToAdd| == 0 {
        Remove(name);
      } else {
        RefreshEntry(at, hopsToAdd);
      }
    }

    method CreateEntry(name: Name, hopsToAdd: seq<NextHop>)
      requires Valid() && name !in installed && UniqueFaces(hopsToAdd) && hopsToAdd != []
      modifies this
      ensures Valid() && installed == old(installed)[name := hopsToAdd]
      ensures Entries() == old(Entries())[name := Costs(hopsToAdd)]
    {
      ghost var before := sent;
      var entry := AddNextHopsToFibEntryAndNfd(FibEntry(name, [], 0, 0), hopsToAdd);
      MinCostsOfUnique(hopsToAdd);
      assert before + Registers(name, hopsToAdd) == before + (Registers(name, hopsToAdd) + Unregisters(name, []));
      MirrorsChoice(before, installed, neighbours, name, hopsToAdd, []);
      assert before + [] == before;
      CostsOfUnique(hopsToAdd);
      entry := entry.(seqNo := 1, event := nextEvent);
      InsertEntry(entry, hopsToAdd);
    }

    method InsertEntry(entry: FibEntry, ghost chosen: seq<NextHop>)
      requires TableOk(table, installed) && EventsOk(Index(table, EntryName), pending, nextEvent)
      requires entry.name !in installed && EntryOk(entry, chosen) && entry.event == nextEvent
      modifies this`pending, this`nextEvent, this`table, this`installed
      ensures TableOk(table, installed) && EventsOk(Index(table, EntryName), pending, nextEvent)
      ensures installed == old(installed)[entry.name := chosen] && Entries() == old(Entries())[entry.name := Costs(entry.hops)]
    {
      ghost var index := Index(table, EntryName);
      IndexAppended(table, EntryName, entry);
      TablePut(table, installed, table + [entry], entry, chosen);
      EventPut(index, pending, nextEvent, entry);
      RecordedPut(index, entry);
      ScheduleEntryExpiration(entry.name);
      table, installed := table + [entry], installed[entry.name := chosen];
    }

    method ScheduleEntryExpiration(name: Name)
      modifies this`pending, this`nextEvent
      ensures pending == old(pending)[old(nextEvent) := name] && nextEvent == old(nextEvent) + 1
    {
      pending := pending[nextEvent := name];
      nextEvent := nextEvent + 1;
    }

    method RefreshEntry(at: nat, hopsToAdd: seq<NextHop>)
      requires Valid() && at < |table| && UniqueFaces(hopsToAdd) && hopsToAdd != []
      requires table[at].name in installed && EntryOk(table[at], installed[table[at].name])
      modifies this
      ensures Valid() && installed == old(installed)[old(table[at].name) := hopsToAdd]
      ensures Entries() == old(Entries())[old(table[at].name) := LowerCosts(old(Costs(table[at].hops)), Costs(hopsToAdd))]
    {
      ghost var before, name := sent, table[at].name;
      var entry;
      ghost var gone;
      IndexAt(table, EntryName, at);
      entry, gone := ReviseEntry(table[at], hopsToAdd, installed[name]);
      MirrorsChoice(before, installed, neighbours, name, hopsToAdd, gone);
      entry := entry.(seqNo := entry.seqNo + 1, event := nextEvent);
      ReplaceEntry(at, entry, hopsToAdd);
    }

    method ReplaceEntry(at: nat, entry: FibEntry, ghost chosen: seq<NextHop>)
      requires TableOk(table, installed) && EventsOk(Index(table, EntryName), pending, nextEvent)
      requires at < |table| && entry.name == table[at].name && EntryOk(entry, chosen) && entry.event == nextEvent
      modifies this`pending, this`nextEvent, this`table, this`installed
      ensures TableOk(table, installed) && EventsOk(Index(table, EntryName), pending, nextEvent)
      ensures installed == old(installed)[entry.name := chosen] && Entries() == old(Entries())[entry.name := Costs(entry.hops)]
    {
      ghost var index := Index(table, EntryName);
      IndexAt(table, EntryName, at);
      IndexReplaced(table, EntryName, at, entry);
      TablePut(table, installed, table[at := entry], entry, chosen);
      EventPut(index, pending, nextEvent, entry);
      RecordedPut(index, entry);
      pending := pending - {table[at].event};
      ScheduleEntryExpiration(entry.name);
      table, installed := table[at := entry], installed[entry.name := chosen];
    }

    method ReviseEntry(was: FibEntry, hopsToAdd: seq<NextHop>, ghost chosen0: seq<NextHop>) returns (e: FibEntry, ghost gone: seq<string>)
      requires EntryOk(was, chosen0) && UniqueFaces(hopsToAdd) && hopsToAdd != []
      modifies this`sent
      ensures e.name == was.name && e.seqNo == was.seqNo && EntryOk(e, hopsToAdd)
      ensures Costs(e.hops) == LowerCosts(Costs(was.hops), Costs(hopsToAdd))
      ensures FacesOfSeq(gone) !! Costs(hopsToAdd).Keys && Costs(chosen0).Keys <= Costs(hopsToAdd).Keys + FacesOfSeq(gone)
      ensures sent == old(sent) + if was.name in neighbours then [] else Registers(was.name, hopsToAdd) + Unregisters(was.name, gone)
    {
      var merged := AddNextHopsToFibEntryAndNfd(was, hopsToAdd);
      e, gone := RemoveOldNextHopsFromFibEntryAndNfd(merged, hopsToAdd);
      MergedEntry(was, chosen0, hopsToAdd, merged.hops, e, gone);
      CostsOfUnique(merged.hops);
      LeastIsLower(Costs(was.hops), hopsToAdd, Costs(merged.hops), FacesOfSeq(gone));
    }
  }

  lemma OneMoreGone(hops: seq<NextHop>, gone: seq<string>, kept: seq<NextHop>, i: nat)
    requires i < |hops| && FacesOfSeq(gone) == Faces(hops[..i]) - Faces(kept) && hops[i].face !in Faces(kept)
    ensures var wider := gone + [hops[i].face];
            && FacesOfSeq(wider) == Faces(hops[..i + 1]) - Faces(kept)
            && Costs(hops) - FacesOfSeq(gone) - {hops[i].face} == Costs(hops) - FacesOfSeq(wider)
            && wider[..|gone|] == gone
  {
    FacesOfNext(hops, i);
    FacesOfAppended(gone, hops[i].face);
    WithoutBoth(Costs(hops), FacesOfSeq(gone), hops[i].face);
  }

  lemma FacesOfAppended(faces: seq<string>, face: string)
    ensures FacesOfSeq(faces + [face]) == FacesOfSeq(faces) + {face}
  {
  }

  lemma WithoutBoth(costs: map<string, nat>, faces: set<string>, face: string)
    ensures costs - faces - {face} == costs - (faces + {face})
  {
  }

  lemma FacesOfNext(hops: seq<NextHop>, i: nat)
    requires i < |hops|
    ensures Faces(hops[..i + 1]) == Faces(hops[..i]) + {hops[i].face}
  {
    assert hops[..i + 1] == hops[..i] + [hops[i]];
    assert forall h :: h in hops[..i + 1] <==> h in hops[..i] || h == hops[i];
  }

  lemma NotYetListed(hops: seq<NextHop>, i: nat)
    requires UniqueFaces(hops) && i < |hops|
    ensures hops[i].face !in Faces(hops[..i]) && hops[..i] + [hops[i]] == hops[..i + 1] && UniqueFaces(hops[..i])
  {
    forall h | h in hops[..i]
      ensures h.face != hops[i].face
    {
      var k :| 0 <= k < i && hops[k] == h;
    }
  }

  /** A hop of the entry that has not been dropped is still in the shrinking list. */
  lemma StillThere(list: seq<NextHop>, hops: seq<NextHop>, gone: seq<string>, i: nat)
    requires UniqueFaces(list) && UniqueFaces(hops) && i < |hops|
    requires Costs(list) == Costs(hops) - FacesOfSeq(gone) && FacesOfSeq(gone) <= Faces(hops[..i])
    ensures hops[i] in list
  {
    NotYetListed(hops, i);
    CostsOfUnique(list);
    CostsOfUnique(hops);
    assert hops[i] in hops;
  }

  /** After merging the chosen hops and dropping the others the entry has exactly the chosen faces. */
  lemma MergedEntry(was: FibEntry, chosen0: seq<NextHop>, chosen: seq<NextHop>, merged: seq<NextHop>, e: FibEntry, gone: seq<string>)
    requires EntryOk(was, chosen0) && UniqueFaces(chosen) && chosen != [] && UniqueFaces(merged) && UniqueFaces(e.hops)
    requires Costs(merged) == MinCosts(Costs(was.hops), chosen)
    requires FacesOfSeq(gone) == Faces(merged) - Faces(chosen) && Costs(e.hops) == Costs(merged) - FacesOfSeq(gone)
    ensures EntryOk(e, chosen)
    ensures FacesOfSeq(gone) !! Costs(chosen).Keys && Costs(chosen0).Keys <= Costs(chosen).Keys + FacesOfSeq(gone)
  {
    MinCostsAreLeast(Costs(was.hops), chosen);
    CostsOfUnique(chosen);
    CostsOfUnique(merged);
    forall f | f in Costs(e.hops)
      ensures Costs(e.hops)[f] <= Costs(chosen)[f]
    {
      assert NextHop(f, Costs(chosen)[f]) in chosen;
    }
  }

  lemma LeastIsLower(costs: map<string, nat>, hops: seq<NextHop>, merged: map<string, nat>, gone: set<string>)
    requires UniqueFaces(hops) && merged == MinCosts(costs, hops) && gone == merged.Keys - Faces(hops)
    ensures merged - gone == LowerCosts(costs, Costs(hops))
  {
    MinCostsAreLeast(costs, hops);
    CostsOfUnique(hops);
    forall f | f in Costs(hops)
      ensures f in merged && merged[f] == LowerCosts(costs, Costs(hops))[f]
    {
      assert NextHop(f, Costs(hops)[f]) in hops;
    }
  }

  lemma AllFaces(hops: seq<NextHop>, faces: seq<string>)
    requires |faces| == |hops| && forall k :: 0 <= k < |hops| ==> faces[k] == hops[k].face
    ensures FacesOfSeq(faces) == Faces(hops)
  {
    forall f | f in Faces(hops)
      ensures f in faces
    {
      var h :| h in hops && h.face == f;
      var k :| 0 <= k < |hops| && hops[k] == h;
      assert faces[k] == f;
    }
    forall f | f in faces
      ensures f in Faces(hops)
    {
      var k :| 0 <= k < |faces| && faces[k] == f;
      assert hops[k] in hops;
    }
  }
}
