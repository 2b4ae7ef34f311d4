/** What a router asks for when the sync protocol reports another router's number
    (src/communication/sync-logic-handler.cpp). */
module SyncUpdates {
  import opened Names
  import opened LsaLists
  import opened Sequencing
  import opened Lsdbs

  datatype Kind = NameKind | AdjacencyKind | CoordinateKind

  /** An LSA to be fetched. */
  datatype Wanted = Wanted(kind: Kind, number: nat)

  /** The numbers of the LSAs a database stores for one router. */
  datatype Known = Known(name: Option<nat>, adj: Option<nat>, cor: Option<nat>)

  ghost function NumberOf<C>(st: State<C>, origin: Name): Option<nat> {
    if origin in st.index then Some(st.index[origin].number) else None
  }

  ghost function KnownOf(known: Known, k: Kind): Option<nat> {
    match k
    case NameKind => known.name
    case AdjacencyKind => known.adj
    case CoordinateKind => known.cor
  }

  function Counter(c: Counters, k: Kind): nat {
    match k
    case NameKind => c.name
    case AdjacencyKind => c.adj
    case CoordinateKind => c.cor
  }

  /** Anything counts as new if nothing is stored, number 0 included. */
  predicate IsNew(known: Option<nat>, no: nat) {
    known.None? || known.value < no
  }

  /** An LSA of this origin and number, whatever it says, would be installed. */
  ghost predicate WouldInstall<C(!new)>(st: State<C>, origin: Name, no: nat) {
    no < 0x1_0000_0000 && forall c :: Delivered(st, origin, no, c) != st
  }

  /** Exactly the LSAs that are new would be installed. */
  lemma NewWouldInstall<C(!new)>(st: State<C>, origin: Name, no: nat)
    requires no < 0x1_0000_0000
    ensures WouldInstall(st, origin, no) <==> IsNew(NumberOf(st, origin), no)
  {
    if !IsNew(NumberOf(st, origin), no) {
      assert Delivered(st, origin, no, st.index[origin].content) == st;
    }
  }

  method IsLsaNew<C(!new)>(lsas: LsaList<C>, origin: Name, no: nat) returns (r: bool)
    requires lsas.Valid()
    ensures r <==> IsNew(NumberOf(lsas.St(), origin), no)
    ensures no < 0x1_0000_0000 ==> (r <==> WouldInstall(lsas.St(), origin, no))
  {
    if no < 0x1_0000_0000 { NewWouldInstall(lsas.St(), origin, no); }
    var at := lsas.Find(origin);
    r := at == -1 || lsas.lsas[at].number < no;
  }

  /** The LSAs to fetch, each at most once: of another router, those that would be installed under its part of the
      reported number, which has the Name part above bit 40, the coordinate part above bit 20 and the adjacency
      part below. */
  method ProcessUpdateFromSync(lsdb: Lsdb, origin: Name, seqNo: nat) returns (wanted: seq<Wanted>)
    requires lsdb.ListsOk() && seqNo < 0x1_0000_0000_0000_0000
    ensures forall no :: Wanted(NameKind, no) in wanted <==>
              origin != lsdb.thisRouter && no == seqNo / 0x100_0000_0000 && WouldInstall(lsdb.Names(), origin, no)
    ensures forall no :: Wanted(AdjacencyKind, no) in wanted <==>
              origin != lsdb.thisRouter && no == seqNo % 0x10_0000 && WouldInstall(lsdb.Adjs(), origin, no)
    ensures forall no :: Wanted(CoordinateKind, no) in wanted <==>
              origin != lsdb.thisRouter && no == seqNo / 0x10_0000 % 0x10_0000 && WouldInstall(lsdb.Cors(), origin, no)
    ensures forall i, j :: 0 <= i < j < |wanted| ==> wanted[i] != wanted[j]
  {
    wanted := [];
    if origin != lsdb.thisRouter {
      PartsOfNumber(seqNo);
      var update := new SequencingManager(seqNo);
      var c := Counters(update.nameLsaSeq, update.adjLsaSeq, update.corLsaSeq);
      var isNameNew, isAdjNew, isCorNew := NewKinds(lsdb, origin, c);
      wanted := ExpressInterests(c, isNameNew, isAdjNew, isCorNew);
    }
  }

  lemma PartsOfNumber(n: nat)
    requires n < 0x1_0000_0000_0000_0000
    ensures Split(n) == Counters(n / 0x100_0000_0000, n % 0x10_0000, n / 0x10_0000 % 0x10_0000)
  {
    assert n / 0x100_0000_0000 < 0x100_0000;
  }

  method NewKinds(lsdb: Lsdb, origin: Name, c: Counters) returns (isNameNew: bool, isAdjNew: bool, isCorNew: bool)
    requires lsdb.ListsOk() && c.name < 0x1_0000_0000 && c.adj < 0x1_0000_0000 && c.cor < 0x1_0000_0000
    ensures isNameNew <==> WouldInstall(lsdb.Names(), origin, c.name)
    ensures isAdjNew <==> WouldInstall(lsdb.Adjs(), origin, c.adj)
    ensures isCorNew <==> WouldInstall(lsdb.Cors(), origin, c.cor)
  {
    isNameNew := IsLsaNew(lsdb.nameLsas, origin, c.name);
    isAdjNew := IsLsaNew(lsdb.adjLsas, origin, c.adj);
    isCorNew := IsLsaNew(lsdb.corLsas, origin, c.cor);
  }

  method ExpressInterests(c: Counters, isNameNew: bool, isAdjNew: bool, isCorNew: bool) returns (wanted: seq<Wanted>)
    ensures forall k, no :: Wanted(k, no) in wanted <==>
                            && no == Counter(c, k)
                            && match k case NameKind => isNameNew case AdjacencyKind => isAdjNew case CoordinateKind => isCorNew
    ensures forall i, j :: 0 <= i < j < |wanted| ==> wanted[i] != wanted[j]
  {
    wanted := [];
    if isNameNew {
      wanted := wanted + [Wanted(NameKind, c.name)];
    }
    if isAdjNew {
      wanted := wanted + [Wanted(AdjacencyKind, c.adj)];
    }
    if isCorNew {
      wanted := wanted + [Wanted(CoordinateKind, c.cor)];
    }
  }

  /** Publishing and processing together: while the publisher's counters are in range, a receiver's question
      whether an LSA is new is answered by the publisher's own counter of that kind. */
  lemma UpdateTellsCounters(c: Counters, known: Known, k: Kind)
    requires InRange(c)
    ensures Combined(c) < 0x1_0000_0000_0000_0000
    ensures Combined(c) / 0x100_0000_0000 == c.name && Combined(c) / 0x10_0000 % 0x10_0000 == c.cor && Combined(c) % 0x10_0000 == c.adj
    ensures IsNew(KnownOf(known, k), Counter(Split(Combined(c)), k)) <==> IsNew(KnownOf(known, k), Counter(c, k))
  {
    SplitUndoesCombine(c);
    CombinedInRange(c);
  }

  /** Once an LSA has been installed under the number asked for, neither the same report nor an older one asks
      for it again, whatever else is delivered. */
  lemma NotAskedAgain<C>(st: State<C>, o: Name, no: Number, p: Name, delivered: Number, d: C)
    ensures p == o && delivered == no ==> !IsNew(NumberOf(Delivered(st, p, delivered, d), o), no)
    ensures !IsNew(NumberOf(st, o), no) ==> !IsNew(NumberOf(Delivered(st, p, delivered, d), o), no)
  {
  }

  /** An LSA that arrives. */
  datatype Arrival<C> = Arrival(origin: Name, number: Number, content: C)

  ghost function DeliveredAll<C>(st: State<C>, arrivals: seq<Arrival<C>>): State<C> {
    if arrivals == [] then st
    else var last := arrivals[|arrivals| - 1]; Delivered(DeliveredAll(st, arrivals[..|arrivals| - 1]), last.origin, last.number, last.content)
  }

  /** However much arrives, in whatever order, nothing that has arrived is asked for again under its number. */
  lemma {:induction false} ArrivedNotAskedAgain<C>(st: State<C>, arrivals: seq<Arrival<C>>, i: nat)
    requires i < |arrivals|
    ensures !IsNew(NumberOf(DeliveredAll(st, arrivals), arrivals[i].origin), arrivals[i].number)
    decreases |arrivals|
  {
    var init, last := arrivals[..|arrivals| - 1], arrivals[|arrivals| - 1];
    if i < |init| {
      ArrivedNotAskedAgain(st, init, i);
    }
    NotAskedAgain(DeliveredAll(st, init), arrivals[i].origin, arrivals[i].number, last.origin, last.number, last.content);
  }
}
