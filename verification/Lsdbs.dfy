/** The link-state database: installing, removing, refreshing and expiring LSAs, and what that does to the
    name prefix table (src/lsdb.cpp). */
module Lsdbs {
  import opened Names
  import opened Listings
  import opened NameLists
  import opened RouterMaps
  import opened AdjacencyLists
  import opened RoutingTables
  import opened NamePrefixes
  import opened LsaLists
  import opened Sequencing
  import opened Convergence

  // ----- which router is listed under which prefix -----

  ghost predicate Lists(listed: Prefixes, p: Name, r: Name) {
    p in listed && r in listed[p]
  }

  lemma RelistedLists(listed: Prefixes, n: Name, d: Name, costs: map<string, nat>)
    ensures forall p, r :: Lists(Relisted(listed, n, d, costs), p, r) <==> Lists(listed, p, r) || (p == n && r == d)
  {
  }

  lemma DelistedLists(listed: Prefixes, n: Name, d: Name)
    ensures forall p, r :: Lists(Delisted(listed, n, d), p, r) <==> Lists(listed, p, r) && !(p == n && r == d)
  {
    if n in listed {
      forall r | r in listed[n] && r != d
        ensures Lists(Delisted(listed, n, d), n, r)
      {
        assert r in listed[n] - {d};
      }
    }
  }

  lemma RelistedCurrent(listed: Prefixes, n: Name, d: Name, view: View)
    requires IsCurrent(listed, view)
    ensures IsCurrent(Relisted(listed, n, d, Towards(view, d)), view)
  {
  }

  lemma DelistedCurrent(listed: Prefixes, n: Name, d: Name, view: View)
    requires IsCurrent(listed, view)
    ensures IsCurrent(Delisted(listed, n, d), view)
  {
  }

  /** The routers whose LSA of each kind is stored. */
  datatype Keepers = Keepers(names: set<Name>, adjs: set<Name>, cors: set<Name>)

  /** Some LSA of the router is stored. */
  ghost predicate Stores(k: Keepers, r: Name) {
    r in k.names || r in k.adjs || r in k.cors
  }

  /** An LSA of the router has been stored. */
  ghost predicate Grown(stored: Keepers, after: Keepers, r: Name) {
    forall x :: Stores(after, x) <==> Stores(stored, x) || x == r
  }

  /** An LSA of the router has been removed; others of it may stay. */
  ghost predicate Shrunk(stored: Keepers, after: Keepers, r: Name) {
    forall x :: (Stores(after, x) ==> Stores(stored, x)) && (Stores(stored, x) && x != r ==> Stores(after, x))
  }

  /** The prefix table against the database. A remote router is listed under a prefix, other than its own and
      this router's, exactly if its stored Name LSA has it; under its own prefix only if some LSA of it is
      stored; and this router is neither a prefix nor an origin. */
  ghost predicate ListingOk(listed: Prefixes, advertised: map<Name, set<Name>>, stored: Keepers, own: Name) {
    && (forall p, r :: r != own && p != r && p != own ==> (Lists(listed, p, r) <==> r in advertised && p in advertised[r]))
    && (forall r :: Lists(listed, r, r) ==> Stores(stored, r))
    && forall p, r :: p == own || r == own ==> !Lists(listed, p, r)
  }

  /** Each remote router is listed under its own prefix exactly if some LSA of it is stored. */
  ghost predicate SelfListed(listed: Prefixes, stored: Keepers, own: Name) {
    forall r :: r != own ==> (Lists(listed, r, r) <==> Stores(stored, r))
  }

  /** The router, if remote, has been entered under its own prefix and under the names. */
  ghost predicate RouterListed(after: Prefixes, listed: Prefixes, own: Name, r: Name, names: set<Name>) {
    forall p, x :: Lists(after, p, x) <==> Lists(listed, p, x) || (r != own && x == r && (p == r || (p != own && p in names)))
  }

  ghost predicate RouterUnlisted(after: Prefixes, listed: Prefixes, own: Name, r: Name, names: set<Name>) {
    forall p, x :: Lists(after, p, x) <==> Lists(listed, p, x) && !(r != own && x == r && (p == r || (p != own && p in names)))
  }

  /** The router, if remote, has been entered under the names gained and then taken off those lost. */
  ghost predicate RouterRelisted(after: Prefixes, listed: Prefixes, own: Name, r: Name, gained: set<Name>, lost: set<Name>) {
    forall p, x :: Lists(after, p, x) <==>
                   (Lists(listed, p, x) || (r != own && x == r && p != own && p in gained))
                   && !(r != own && x == r && p != own && p in lost)
  }

  /** The timer removes an LSA of another router, of which other LSAs stay. */
  ghost predicate Orphans<C>(st: State<C>, t: Timer, own: Name, after: Keepers) {
    Concerns(st, t) && t.origin != own && Stores(after, t.origin)
  }

  lemma NothingListed(own: Name)
    ensures ListingOk(map[], map[], Keepers({}, {}, {}), own) && SelfListed(map[], Keepers({}, {}, {}), own)
  {
  }

  lemma FirstNames(listed: Prefixes, after: Prefixes, advertised: map<Name, set<Name>>, stored: Keepers, stored': Keepers,
                   own: Name, r: Name, names: set<Name>)
    requires ListingOk(listed, advertised, stored, own) && r !in advertised
    requires RouterListed(after, listed, own, r, names) && Grown(stored, stored', r)
    ensures ListingOk(after, advertised[r := names], stored', own)
    ensures SelfListed(listed, stored, own) ==> SelfListed(after, stored', own)
  {
  }

  /** A Name LSA that loses its router's own name takes the router off its own prefix. */
  lemma ChangedNames(listed: Prefixes, after: Prefixes, advertised: map<Name, set<Name>>, stored: Keepers, own: Name, r: Name,
                     names: set<Name>, gained: set<Name>, lost: set<Name>)
    requires ListingOk(listed, advertised, stored, own) && r in advertised && Stores(stored, r)
    requires gained == names - advertised[r] && lost == advertised[r] - names
    requires RouterRelisted(after, listed, own, r, gained, lost)
    ensures ListingOk(after, advertised[r := names], stored, own)
    ensures SelfListed(listed, stored, own) ==> (SelfListed(after, stored, own) <==> r == own || r !in lost)
  {
    if r != own && r in lost {
      assert !Lists(after, r, r);
    }
  }

  lemma NamesGone(listed: Prefixes, after: Prefixes, advertised: map<Name, set<Name>>, stored: Keepers, stored': Keepers,
                  own: Name, r: Name)
    requires ListingOk(listed, advertised, stored, own) && r in advertised
    requires RouterUnlisted(after, listed, own, r, advertised[r]) && Shrunk(stored, stored', r)
    ensures ListingOk(after, advertised - {r}, stored', own) && !Lists(after, r, r)
    ensures SelfListed(listed, stored, own) ==> (SelfListed(after, stored', own) <==> r == own || !Stores(stored', r))
  {
    assert !Lists(after, r, r);
  }

  lemma RouterEntered(listed: Prefixes, after: Prefixes, advertised: map<Name, set<Name>>, stored: Keepers, stored': Keepers,
                      own: Name, r: Name)
    requires ListingOk(listed, advertised, stored, own)
    requires RouterListed(after, listed, own, r, {}) && Grown(stored, stored', r)
    ensures ListingOk(after, advertised, stored', own)
    ensures SelfListed(listed, stored, own) ==> SelfListed(after, stored', own)
  {
  }

  /** When one LSA of a router goes, the router leaves its own prefix, and so the own prefixes are listed right
      afterwards if and only if no other LSA of it stays. */
  lemma RouterLeft(listed: Prefixes, after: Prefixes, advertised: map<Name, set<Name>>, stored: Keepers, stored': Keepers,
                   own: Name, r: Name)
    requires ListingOk(listed, advertised, stored, own)
    requires RouterUnlisted(after, listed, own, r, {}) && Shrunk(stored, stored', r)
    ensures ListingOk(after, advertised, stored', own) && !Lists(after, r, r)
    ensures SelfListed(listed, stored, own) ==> (SelfListed(after, stored', own) <==> r == own || !Stores(stored', r))
  {
    assert !Lists(after, r, r);
  }

  /** A router with a Name LSA and an adjacency LSA, of which the latter goes: it is stored but not listed. */
  lemma OnePrefixForAll()
    ensures var listed: Prefixes := map["b" := map["b" := map[]]];
            var stored, stored' := Keepers({"b"}, {"b"}, {}), Keepers({"b"}, {}, {});
            && SelfListed(listed, stored, "a") && Shrunk(stored, stored', "b")
            && RouterUnlisted(map[], listed, "a", "b", {}) && !SelfListed(map[], stored', "a")
  {
    var listed: Prefixes := map["b" := map["b" := map[]]];
    var stored, stored' := Keepers({"b"}, {"b"}, {}), Keepers({"b"}, {}, {});
    assert forall p, x :: Lists(listed, p, x) <==> p == "b" && x == "b";
    assert "b" != "a" && Stores(stored', "b") && !Lists(map[], "b", "b");
  }

  type Coordinates = (real, real)

  predicate CloseTo(a: Coordinates, b: Coordinates) {
    Abs(a.0 - b.0) < EPSILON && Abs(a.1 - b.1) < EPSILON
  }

  ghost function AdvertisedBy(index: map<Name, Stored<seq<Name>>>): map<Name, set<Name>> {
    map r | r in index :: NamesOf(index[r].content)
  }

  ghost function HeldNames(index: map<Name, Stored<seq<Name>>>): map<Name, Held<set<Name>>> {
    map r | r in index :: Held(index[r].number, NamesOf(index[r].content))
  }

  ghost function HeldLinks(index: map<Name, Stored<seq<Adjacent>>>): map<Name, Held<set<Adjacency>>> {
    map r | r in index :: Held(index[r].number, LinksRead(index[r].content))
  }

  /** The delivered LSA is the router's first, or a newer one that compares unequal: its links are others than
      the stored ones, or one of these has a fractional cost. */
  ghost predicate CountsAsChanged(st: State<seq<Adjacent>>, r: Name, no: Number, links: set<Adjacency>) {
    r !in st.index
    || (st.index[r].number < no && !(LinksRead(st.index[r].content) == links && AllNearWhole(st.index[r].content)))
  }

  /** Other links than before, or a router's first LSA, always count as changed; and only a stored cost that rounding
      raises by the epsilon or more makes the same links count too. */
  lemma ChangeCounts(before: State<seq<Adjacent>>, after: State<seq<Adjacent>>, r: Name, no: Number, content: seq<Adjacent>)
    requires r in after.index && after == Delivered(before, r, no, after.index[r].content)
    requires r !in before.index || before.index[r].number < no ==> LinksRead(after.index[r].content) == LinksRead(content)
    ensures var differ := r !in before.index || LinksRead(before.index[r].content) != LinksRead(after.index[r].content);
            && (differ ==> CountsAsChanged(before, r, no, LinksRead(content)))
            && (CountsAsChanged(before, r, no, LinksRead(content)) ==>
                  differ || exists a :: a in before.index[r].content && GetLinkCost(a.linkCost) as real - a.linkCost >= 1.0 / 4503599627370496.0)
  {
  }

  /** Stored coordinates stay exactly if the delivered ones differ from them by less than 2 to the power -52 each, and
      otherwise give way to them. */
  ghost predicate IsCoordinateUpdate(stored: Coordinates, delivered: Coordinates, result: Coordinates) {
    var e := 1.0 / 4503599627370496.0;
    result == if -e < stored.0 - delivered.0 < e && -e < stored.1 - delivered.1 < e then stored else delivered
  }

  /** A radius alone, or an angle alone, that is off by the epsilon has the coordinates replaced; half of it does not. */
  lemma CoordinateUpdates(x: real, y: real, result: Coordinates)
    ensures var e := 1.0 / 4503599627370496.0;
            && (IsCoordinateUpdate((x, y), (x + e, y), result) ==> result == (x + e, y))
            && (IsCoordinateUpdate((x, y), (x, y - e), result) ==> result == (x, y - e))
            && (IsCoordinateUpdate((x, y), (x + e / 2.0, y - e / 2.0), result) ==> result == (x, y))
  {
  }

  /** The own LSA built from these links under the next number counts as changed. */
  ghost predicate CountsAsNew(run: Run<seq<Adjacent>>, own: Name, links: set<Adjacency>) {
    CountsAsChanged(run.st, own, Truncated(run.counter + 1), links)
  }

  /** The delivered Name LSA is a newer one of another router and no longer has that router's own name. */
  ghost predicate LosesOwnName(st: State<seq<Name>>, own: Name, r: Name, no: Number, names: set<Name>) {
    r != own && r in st.index && st.index[r].number < no && r in NamesOf(st.index[r].content) - names
  }

  lemma NamesInstalled(before: State<seq<Name>>, r: Name, no: Number, content: seq<Name>, after: State<seq<Name>>)
    requires r in after.index && after == Delivered(before, r, no, after.index[r].content)
    requires r !in before.index || before.index[r].number < no ==> NamesOf(after.index[r].content) == NamesOf(content)
    ensures HeldNames(after.index) == Install(HeldNames(before.index), Delivery(r, no, NamesOf(content)))
  {
  }

  lemma LinksInstalled(before: State<seq<Adjacent>>, r: Name, no: Number, content: seq<Adjacent>, after: State<seq<Adjacent>>)
    requires r in after.index && after == Delivered(before, r, no, after.index[r].content)
    requires r !in before.index || before.index[r].number < no ==> LinksRead(after.index[r].content) == LinksRead(content)
    ensures HeldLinks(after.index) == Install(HeldLinks(before.index), Delivery(r, no, LinksRead(content)))
  {
  }

  ghost predicate NamesClean(index: map<Name, Stored<seq<Name>>>) {
    forall r :: r in index ==> NoDuplicates(index[r].content)
  }

  ghost predicate LinksClean(index: map<Name, Stored<seq<Adjacent>>>) {
    forall r :: r in index ==> NoneTwice(index[r].content)
  }

  lemma NamesPut(index: map<Name, Stored<seq<Name>>>, r: Name, s: Stored<seq<Name>>)
    requires NamesClean(index) && NoDuplicates(s.content)
    ensures NamesClean(index[r := s]) && AdvertisedBy(index[r := s]) == AdvertisedBy(index)[r := NamesOf(s.content)]
  {
  }

  lemma NamesDropped(index: map<Name, Stored<seq<Name>>>, r: Name)
    requires NamesClean(index)
    ensures NamesClean(index - {r}) && AdvertisedBy(index - {r}) == AdvertisedBy(index) - {r}
  {
  }

  /** The own LSA's number, which was the counter's, moves on by one, and the counter with it. */
  lemma RefreshKeepsGrowing(published: seq<nat>, c: Counters, c': Counters)
    requires || (c.name < TWO32 && c' == c.(name := Succ(c.name)))
             || (c.adj < TWO32 && c' == c.(adj := Succ(c.adj)))
             || (c.cor < TWO32 && c' == c.(cor := Succ(c.cor)))
    ensures KeepsGrowing(published, c, published + [Combined(c')], c')
  {
    if InRange(c) {
      MoveKeepsGrowing(published, c, c');
    }
  }

  lemma NamesRenumbered(st: State<seq<Name>>, r: Name)
    requires r in st.index && NamesClean(st.index)
    ensures NamesClean(Refreshed(st, r).index) && AdvertisedBy(Refreshed(st, r).index) == AdvertisedBy(st.index)
  {
  }

  lemma LinksPut(index: map<Name, Stored<seq<Adjacent>>>, r: Name, s: Stored<seq<Adjacent>>)
    requires LinksClean(index) && NoneTwice(s.content)
    ensures LinksClean(index[r := s])
  {
  }

  lemma LinksDropped(index: map<Name, Stored<seq<Adjacent>>>, r: Name)
    requires LinksClean(index)
    ensures LinksClean(index - {r})
  {
  }

  class Lsdb {
    const thisRouter: Name
    const npt: NamePrefixTable
    const nameLsas: LsaList<seq<Name>>
    const adjLsas: LsaList<seq<Adjacent>>
    const corLsas: LsaList<Coordinates>
    const seqs: SequencingManager
    const due: CalculationSchedule
    /** The combined numbers handed to the sync protocol. */
    var published: seq<nat>

    ghost function Names(): State<seq<Name>> reads nameLsas { nameLsas.St() }
    ghost function Adjs(): State<seq<Adjacent>> reads adjLsas { adjLsas.St() }
    ghost function Cors(): State<Coordinates> reads corLsas { corLsas.St() }

    ghost function StoredOrigins(): Keepers
      reads nameLsas, adjLsas, corLsas
    {
      Keepers(Names().index.Keys, Adjs().index.Keys, Cors().index.Keys)
    }

    /** Each remote router is listed under its own prefix exactly if some LSA of it is stored. */
    ghost predicate OwnPrefixesMatch()
      reads npt, nameLsas, adjLsas, corLsas
    {
      SelfListed(npt.Listed(), StoredOrigins(), thisRouter)
    }

    ghost predicate ListingMatches()
      reads npt, nameLsas, adjLsas, corLsas
    {
      ListingOk(npt.Listed(), AdvertisedBy(Names().index), StoredOrigins(), thisRouter)
    }

    ghost predicate TableOk()
      reads npt, npt.rt, npt.fib
    {
      npt.Valid() && IsCurrent(npt.Listed(), ViewOf(npt.rt.entries))
    }

    ghost predicate ListsOk()
      reads nameLsas, adjLsas, corLsas
    {
      && nameLsas.Valid() && adjLsas.Valid() && corLsas.Valid()
      && NamesClean(Names().index) && LinksClean(Adjs().index)
    }

    ghost predicate Valid()
      reads npt, npt.rt, npt.fib, nameLsas, adjLsas, corLsas
    {
      ListsOk() && TableOk() && ListingMatches()
    }

    constructor (thisRouter: Name, npt: NamePrefixTable, seqs: SequencingManager)
      requires npt.Valid() && npt.Listed() == map[]
      ensures Valid() && this.thisRouter == thisRouter && this.npt == npt && this.seqs == seqs && published == []
      ensures fresh(nameLsas) && fresh(adjLsas) && fresh(corLsas) && fresh(due)
      ensures due.Valid() && !due.isRouteCalculationScheduled
      ensures Names() == State(map[], map[], 0) && Adjs() == State(map[], map[], 0) && Cors() == State(map[], map[], 0)
      ensures OwnPrefixesMatch()
    {
      this.thisRouter := thisRouter;
      this.npt := npt;
      this.seqs := seqs;
      due := new CalculationSchedule();
      nameLsas := new LsaList<seq<Name>>();
      adjLsas := new LsaList<seq<Adjacent>>();
      corLsas := new LsaList<Coordinates>();
      published := [];
      NothingListed(thisRouter);
    }

    // ----- the prefix table's part -----

    method ListOrigin(p: Name, r: Name)
      requires TableOk()
      modifies npt, npt.fib
      ensures TableOk()
      ensures forall x, y :: Lists(npt.Listed(), x, y) <==> Lists(old(npt.Listed()), x, y) || (x == p && y == r)
    {
      RelistedLists(npt.Listed(), p, r, Towards(ViewOf(npt.rt.entries), r));
      RelistedCurrent(npt.Listed(), p, r, ViewOf(npt.rt.entries));
      npt.AddOrigin(p, r);
    }

    method DelistOrigin(p: Name, r: Name)
      requires TableOk()
      modifies npt, npt.fib
      ensures TableOk()
      ensures forall x, y :: Lists(npt.Listed(), x, y) <==> Lists(old(npt.Listed()), x, y) && !(x == p && y == r)
    {
      DelistedLists(npt.Listed(), p, r);
      DelistedCurrent(npt.Listed(), p, r, ViewOf(npt.rt.entries));
      npt.RemoveOrigin(p, r);
    }

    /** Lists the router under each name but this router's. */
    method ListNames(names: seq<Name>, r: Name)
      requires TableOk()
      modifies npt, npt.fib
      ensures TableOk()
      ensures forall p, x :: Lists(npt.Listed(), p, x) <==> Lists(old(npt.Listed()), p, x) || (x == r && p != thisRouter && p in names)
    {
      for i := 0 to |names|
        invariant TableOk()
        invariant forall p, x :: Lists(npt.Listed(), p, x) <==> Lists(old(npt.Listed()), p, x) || (x == r && p != thisRouter && p in names[..i])
      {
        assert names[..i + 1] == names[..i] + [names[i]];
        if names[i] != thisRouter {
          ListOrigin(names[i], r);
        }
      }
      assert names[..|names|] == names;
    }

    method DelistNames(names: seq<Name>, r: Name)
      requires TableOk()
      modifies npt, npt.fib
      ensures TableOk()
      ensures forall p, x :: Lists(npt.Listed(), p, x) <==> Lists(old(npt.Listed()), p, x) && !(x == r && p != thisRouter && p in names)
    {
      for i := 0 to |names|
        invariant TableOk()
        invariant forall p, x :: Lists(npt.Listed(), p, x) <==> Lists(old(npt.Listed()), p, x) && !(x == r && p != thisRouter && p in names[..i])
      {
        assert names[..i + 1] == names[..i] + [names[i]];
        if names[i] != thisRouter {
          DelistOrigin(names[i], r);
        }
      }
      assert names[..|names|] == names;
    }

    // ----- Name LSAs -----

    /** The two-way difference by which a stored list of names is brought to the delivered one. */
    static method UpdatedNames(stored: seq<Name>, delivered: seq<Name>)
        returns (result: seq<Name>, nameToAdd: seq<Name>, nameToRemove: seq<Name>)
      requires NoDuplicates(stored) && NoDuplicates(delivered)
      ensures NoDuplicates(result) && NamesOf(result) == NamesOf(delivered)
      ensures NamesOf(nameToAdd) == NamesOf(delivered) - NamesOf(stored)
      ensures NamesOf(nameToRemove) == NamesOf(stored) - NamesOf(delivered)
    {
      var chk := new NamePrefixList(stored);
      var npl := new NamePrefixList(delivered);
      chk.Sort();
      npl.Sort();
      nameToAdd := Difference(npl.names, chk.names);
      DifferenceExact(npl.names, chk.names);
      for i := 0 to |nameToAdd|
        invariant NoDuplicates(chk.names) && NamesOf(chk.names) == NamesOf(stored) + NamesOf(nameToAdd[..i])
        invariant Increasing(npl.names) && NamesOf(npl.names) == NamesOf(delivered)
      {
        assert NamesOf(nameToAdd[..i + 1]) == NamesOf(nameToAdd[..i]) + {nameToAdd[i]};
        var inserted := chk.Insert(nameToAdd[i]);
      }
      assert nameToAdd[..|nameToAdd|] == nameToAdd;
      chk.Sort();
      nameToRemove := Difference(chk.names, npl.names);
      DifferenceExact(chk.names, npl.names);
      ghost var all := NamesOf(chk.names);
      for i := 0 to |nameToRemove|
        invariant NoDuplicates(chk.names) && NamesOf(chk.names) == all - NamesOf(nameToRemove[..i])
      {
        assert NamesOf(nameToRemove[..i + 1]) == NamesOf(nameToRemove[..i]) + {nameToRemove[i]};
        var removed := chk.Remove(nameToRemove[i]);
      }
      assert nameToRemove[..|nameToRemove|] == nameToRemove;
      result := chk.names;
    }

    method InstallNameLsa(r: Name, no: Number, content: seq<Name>)
      requires Valid() && NoDuplicates(content)
      modifies nameLsas, npt, npt.fib
      ensures Valid()
      ensures r in Names().index && Names() == Delivered(old(Names()), r, no, Names().index[r].content)
      ensures r !in old(Names()).index || old(Names()).index[r].number < no ==> NamesOf(Names().index[r].content) == NamesOf(content)
      ensures HeldNames(Names().index) == Install(HeldNames(old(Names()).index), Delivery(r, no, NamesOf(content)))
      ensures old(OwnPrefixesMatch()) ==> (OwnPrefixesMatch() <==> !LosesOwnName(old(Names()), thisRouter, r, no, NamesOf(content)))
    {
      var at := nameLsas.Find(r);
      if at == -1 {
        AddNameLsa(r, no, content);
      } else if nameLsas.lsas[at].number < no {
        RenewNameLsa(at, no, content);
      }
      NamesInstalled(old(Names()), r, no, content, Names());
    }

    method AddNameLsa(r: Name, no: Number, content: seq<Name>)
      requires Valid() && NoDuplicates(content) && r !in Names().index
      modifies nameLsas, npt, npt.fib
      ensures Valid() && Names() == Added(old(Names()), r, no, content)
      ensures old(OwnPrefixesMatch()) ==> OwnPrefixesMatch()
    {
      ghost var listed, advertised, stored := npt.Listed(), AdvertisedBy(Names().index), StoredOrigins();
      NamesPut(Names().index, r, Stored(r, no, content, None));
      nameLsas.Add(r, no, content);
      AddNptEntries(r, content);
      FirstNames(listed, npt.Listed(), advertised, stored, StoredOrigins(), thisRouter, r, NamesOf(content));
    }

    method RenewNameLsa(at: nat, no: Number, content: seq<Name>)
      requires Valid() && NoDuplicates(content) && at < |nameLsas.lsas|
      modifies nameLsas, npt, npt.fib
      ensures Valid()
      ensures var r := old(nameLsas.lsas[at].origin);
              && r in old(Names()).index && r in Names().index && NamesOf(Names().index[r].content) == NamesOf(content)
              && Names() == Renewed(old(Names()), r, no, Names().index[r].content)
              && (old(OwnPrefixesMatch()) ==>
                    (OwnPrefixesMatch() <==> r == thisRouter || r !in NamesOf(old(Names()).index[r].content) - NamesOf(content)))
    {
      var r := nameLsas.lsas[at].origin;
      IndexAt(nameLsas.lsas, Origin, at);
      ghost var listed, advertised, stored := npt.Listed(), AdvertisedBy(Names().index), StoredOrigins();
      var result, nameToAdd, nameToRemove := UpdatedNames(nameLsas.lsas[at].content, content);
      ReplaceNames(at, no, result);
      ChangeNptEntries(r, nameToAdd, nameToRemove);
      ChangedNames(listed, npt.Listed(), advertised, stored, thisRouter, r, NamesOf(content), NamesOf(nameToAdd), NamesOf(nameToRemove));
    }

    method ReplaceNames(at: nat, no: Number, result: seq<Name>)
      requires ListsOk() && NoDuplicates(result) && at < |nameLsas.lsas|
      modifies nameLsas
      ensures ListsOk() && StoredOrigins() == old(StoredOrigins())
      ensures var r := old(nameLsas.lsas[at].origin);
              && r in old(Names()).index && r in Names().index && Names().index[r].content == result
              && Names() == Renewed(old(Names()), r, no, result)
              && AdvertisedBy(Names().index) == old(AdvertisedBy(Names().index))[r := NamesOf(result)]
    {
      var r := nameLsas.lsas[at].origin;
      IndexAt(nameLsas.lsas, Origin, at);
      ghost var stored := StoredOrigins();
      NamesPut(Names().index, r, Stored(r, no, result, Some(nameLsas.nextId)));
      nameLsas.Renew(at, no, result);
      assert StoredOrigins() == stored;
    }

    method RemoveNameLsa(r: Name)
      requires Valid()
      modifies nameLsas, npt, npt.fib
      ensures Valid() && Names() == Erased(old(Names()), r)
      ensures r in old(Names()).index && r != thisRouter ==> !Lists(npt.Listed(), r, r)
      ensures old(OwnPrefixesMatch()) ==>
                (OwnPrefixesMatch() <==> r == thisRouter || r !in old(Names()).index || !Stores(StoredOrigins(), r))
    {
      var at := nameLsas.Find(r);
      if at != -1 {
        ghost var listed, advertised, stored := npt.Listed(), AdvertisedBy(Names().index), StoredOrigins();
        var content := nameLsas.lsas[at].content;
        NamesDropped(Names().index, r);
        nameLsas.Erase(at);
        RemoveNptEntries(r, content);
        NamesGone(listed, npt.Listed(), advertised, stored, StoredOrigins(), thisRouter, r);
      } else {
        assert Names().index - {r} == Names().index;
      }
    }

    /** Lists a remote router under its own prefix and each of its names. */
    method AddNptEntries(r: Name, names: seq<Name>)
      requires TableOk()
      modifies npt, npt.fib
      ensures TableOk() && RouterListed(npt.Listed(), old(npt.Listed()), thisRouter, r, NamesOf(names))
    {
      if r != thisRouter {
        ListOrigin(r, r);
        ListNames(names, r);
      }
    }

    method RemoveNptEntries(r: Name, names: seq<Name>)
      requires TableOk()
      modifies npt, npt.fib
      ensures TableOk() && RouterUnlisted(npt.Listed(), old(npt.Listed()), thisRouter, r, NamesOf(names))
    {
      if r != thisRouter {
        DelistOrigin(r, r);
        DelistNames(names, r);
      }
    }

    method ChangeNptEntries(r: Name, nameToAdd: seq<Name>, nameToRemove: seq<Name>)
      requires TableOk()
      modifies npt, npt.fib
      ensures TableOk()
      ensures RouterRelisted(npt.Listed(), old(npt.Listed()), thisRouter, r, NamesOf(nameToAdd), NamesOf(nameToRemove))
    {
      if r != thisRouter {
        ListNames(nameToAdd, r);
        DelistNames(nameToRemove, r);
      }
    }

    // ----- adjacency LSAs -----

    /** A calculation is asked for if the LSA is new or counts as changed. */
    method InstallAdjLsa(r: Name, no: Number, content: seq<Adjacent>)
      requires Valid() && NoneTwice(content)
      modifies adjLsas, npt, npt.fib, due
      ensures Valid()
      ensures r in Adjs().index && Adjs() == Delivered(old(Adjs()), r, no, Adjs().index[r].content)
      ensures r !in old(Adjs()).index || old(Adjs()).index[r].number < no ==> LinksRead(Adjs().index[r].content) == LinksRead(content)
      ensures HeldLinks(Adjs().index) == Install(HeldLinks(old(Adjs()).index), Delivery(r, no, LinksRead(content)))
      ensures old(OwnPrefixesMatch()) ==> OwnPrefixesMatch()
      ensures due.isRouteCalculationScheduled <==> old(due.isRouteCalculationScheduled) || CountsAsChanged(old(Adjs()), r, no, LinksRead(content))
      ensures old(due.Valid()) ==> due.Valid()
    {
      var changed := PutAdjLsa(r, no, content);
      if changed {
        due.ScheduleRoutingTableCalculation();
      }
      LinksInstalled(old(Adjs()), r, no, content, Adjs());
    }

    method PutAdjLsa(r: Name, no: Number, content: seq<Adjacent>) returns (changed: bool)
      requires Valid() && NoneTwice(content)
      modifies adjLsas, npt, npt.fib
      ensures Valid()
      ensures r in Adjs().index && Adjs() == Delivered(old(Adjs()), r, no, Adjs().index[r].content)
      ensures r !in old(Adjs()).index || old(Adjs()).index[r].number < no ==> LinksRead(Adjs().index[r].content) == LinksRead(content)
      ensures changed <==> CountsAsChanged(old(Adjs()), r, no, LinksRead(content))
      ensures old(OwnPrefixesMatch()) ==> OwnPrefixesMatch()
    {
      var at := adjLsas.Find(r);
      changed := false;
      if at == -1 {
        AddAdjLsa(r, no, content);
        changed := true;
      } else if adjLsas.lsas[at].number < no {
        changed := RenewAdjLsa(at, no, content);
      }
    }

    method AddAdjLsa(r: Name, no: Number, content: seq<Adjacent>)
      requires Valid() && NoneTwice(content) && r !in Adjs().index
      modifies adjLsas, npt, npt.fib
      ensures Valid() && Adjs() == Added(old(Adjs()), r, no, content)
      ensures old(OwnPrefixesMatch()) ==> OwnPrefixesMatch()
    {
      ghost var listed, stored := npt.Listed(), StoredOrigins();
      LinksPut(Adjs().index, r, Stored(r, no, content, None));
      adjLsas.Add(r, no, content);
      AddNptEntries(r, []);
      RouterEntered(listed, npt.Listed(), AdvertisedBy(Names().index), stored, StoredOrigins(), thisRouter, r);
    }

    /** The stored links are replaced only if they compare unequal to the delivered ones. */
    method RenewAdjLsa(at: nat, no: Number, content: seq<Adjacent>) returns (changed: bool)
      requires Valid() && NoneTwice(content) && at < |adjLsas.lsas|
      modifies adjLsas
      ensures Valid()
      ensures var r := old(adjLsas.lsas[at].origin);
              && r in old(Adjs()).index && r in Adjs().index && LinksRead(Adjs().index[r].content) == LinksRead(content)
              && Adjs() == Renewed(old(Adjs()), r, no, Adjs().index[r].content)
              && (changed <==> !(LinksRead(old(Adjs()).index[r].content) == LinksRead(content)
                                 && AllNearWhole(old(Adjs()).index[r].content)))
      ensures old(OwnPrefixesMatch()) ==> OwnPrefixesMatch()
    {
      var r := adjLsas.lsas[at].origin;
      IndexAt(adjLsas.lsas, Origin, at);
      ghost var stored := StoredOrigins();
      var result;
      result, changed := UpdatedLinks(adjLsas.lsas[at].content, content);
      LinksPut(Adjs().index, r, Stored(r, no, result, Some(adjLsas.nextId)));
      adjLsas.Renew(at, no, result);
      assert StoredOrigins() == stored;
    }

    static method UpdatedLinks(stored: seq<Adjacent>, delivered: seq<Adjacent>) returns (result: seq<Adjacent>, changed: bool)
      requires NoneTwice(stored) && NoneTwice(delivered)
      ensures NoneTwice(result) && LinksRead(result) == LinksRead(delivered)
      ensures changed <==> !(LinksRead(stored) == LinksRead(delivered) && AllNearWhole(stored))
    {
      var chk := new AdjacencyList(stored);
      var adl := new AdjacencyList(delivered);
      var equal := chk.Equals(adl);
      SameMembers(stored, chk.adjacents);
      SameMembers(delivered, adl.adjacents);
      if !equal {
        chk := new AdjacencyList([]);
        chk.AddAdjacents(adl.adjacents);
      }
      result, changed := chk.adjacents, !equal;
    }

    method RemoveAdjLsa(r: Name)
      requires Valid()
      modifies adjLsas, npt, npt.fib
      ensures Valid() && Adjs() == Erased(old(Adjs()), r)
      ensures r in old(Adjs()).index && r != thisRouter ==> !Lists(npt.Listed(), r, r)
      ensures old(OwnPrefixesMatch()) ==>
                (OwnPrefixesMatch() <==> r == thisRouter || r !in old(Adjs()).index || !Stores(StoredOrigins(), r))
    {
      var at := adjLsas.Find(r);
      if at != -1 {
        ghost var listed, stored := npt.Listed(), StoredOrigins();
        RemoveNptEntries(r, []);
        DropAdjLsa(at);
        RouterLeft(listed, npt.Listed(), AdvertisedBy(Names().index), stored, StoredOrigins(), thisRouter, r);
      } else {
        assert Adjs().index - {r} == Adjs().index;
      }
    }

    method DropAdjLsa(at: nat)
      requires ListsOk() && at < |adjLsas.lsas|
      modifies adjLsas
      ensures ListsOk() && Adjs() == Erased(old(Adjs()), old(adjLsas.lsas[at].origin))
      ensures Shrunk(old(StoredOrigins()), StoredOrigins(), old(adjLsas.lsas[at].origin))
    {
      LinksDropped(Adjs().index, adjLsas.lsas[at].origin);
      adjLsas.Erase(at);
    }

    // ----- coordinate LSAs -----

    /** A newer number may leave the stored coordinates a rounding error away from the delivered ones. */
    method InstallCoordinateLsa(r: Name, no: Number, content: Coordinates)
      requires Valid()
      modifies corLsas, npt, npt.fib
      ensures Valid()
      ensures r in Cors().index && Cors() == Delivered(old(Cors()), r, no, Cors().index[r].content)
      ensures r !in old(Cors()).index ==> Cors().index[r].content == content
      ensures r in old(Cors()).index && old(Cors()).index[r].number < no ==>
                IsCoordinateUpdate(old(Cors()).index[r].content, content, Cors().index[r].content)
      ensures old(OwnPrefixesMatch()) ==> OwnPrefixesMatch()
    {
      var at := corLsas.Find(r);
      if at == -1 {
        AddCoordinateLsa(r, no, content);
      } else if corLsas.lsas[at].number < no {
        RenewCoordinateLsa(at, no, content);
      }
    }

    method AddCoordinateLsa(r: Name, no: Number, content: Coordinates)
      requires Valid() && r !in Cors().index
      modifies corLsas, npt, npt.fib
      ensures Valid() && Cors() == Added(old(Cors()), r, no, content)
      ensures old(OwnPrefixesMatch()) ==> OwnPrefixesMatch()
    {
      ghost var listed, stored := npt.Listed(), StoredOrigins();
      corLsas.Add(r, no, content);
      AddNptEntries(r, []);
      RouterEntered(listed, npt.Listed(), AdvertisedBy(Names().index), stored, StoredOrigins(), thisRouter, r);
    }

    method RenewCoordinateLsa(at: nat, no: Number, content: Coordinates)
      requires Valid() && at < |corLsas.lsas|
      modifies corLsas
      ensures Valid()
      ensures var r := old(corLsas.lsas[at].origin);
              && r in old(Cors()).index && r in Cors().index 
              && IsCoordinateUpdate(old(Cors()).index[r].content, content, Cors().index[r].content)
              && Cors() == Renewed(old(Cors()), r, no, Cors().index[r].content)
      ensures old(OwnPrefixesMatch()) ==> OwnPrefixesMatch()
    {
      IndexAt(corLsas.lsas, Origin, at);
      ghost var stored := StoredOrigins();
      var c := corLsas.lsas[at].content;
      corLsas.Renew(at, no, if CloseTo(c, content) then c else content);
      assert StoredOrigins() == stored;
    }

    method RemoveCoordinateLsa(r: Name)
      requires Valid()
      modifies corLsas, npt, npt.fib
      ensures Valid() && Cors() == Erased(old(Cors()), r)
      ensures r in old(Cors()).index && r != thisRouter ==> !Lists(npt.Listed(), r, r)
      ensures old(OwnPrefixesMatch()) ==>
                (OwnPrefixesMatch() <==> r == thisRouter || r !in old(Cors()).index || !Stores(StoredOrigins(), r))
    {
      var at := corLsas.Find(r);
      if at != -1 {
        ghost var listed, stored := npt.Listed(), StoredOrigins();
        RemoveNptEntries(r, []);
        corLsas.Erase(at);
        RouterLeft(listed, npt.Listed(), AdvertisedBy(Names().index), stored, StoredOrigins(), thisRouter, r);
      } else {
        assert Cors().index - {r} == Cors().index;
      }
    }

    // ----- this router's own LSAs -----

    ghost function NameRun(): Run<seq<Name>> reads nameLsas, seqs { Run(Names(), seqs.nameLsaSeq) }
    ghost function AdjRun(): Run<seq<Adjacent>> reads adjLsas, seqs { Run(Adjs(), seqs.adjLsaSeq) }
    ghost function CorRun(): Run<Coordinates> reads corLsas, seqs { Run(Cors(), seqs.corLsaSeq) }

    /** Writes the file and hands the number to the sync protocol. */
    method PublishRoutingUpdate()
      modifies this`published, seqs`file
      ensures published == old(published) + [seqs.combinedSeqNo] && seqs.file == Some(seqs.combinedSeqNo)
    {
      seqs.WriteSeqNoToFile();
      published := published + [seqs.combinedSeqNo];
    }

    method NextNameLsaNumber() returns (no: Number)
      modifies seqs
      ensures seqs.Valid() && seqs.State() == old(seqs.State()).(name := old(seqs.nameLsaSeq) + 1)
      ensures KeepsGrowing(old(published), old(seqs.State()), published, seqs.State())
      ensures no == Truncated(old(seqs.nameLsaSeq) + 1)
    {
      no := Truncated(seqs.nameLsaSeq + 1);
      MoveKeepsGrowing(published, seqs.State(), seqs.State().(name := seqs.nameLsaSeq + 1));
      seqs.IncreaseNameLsaSeq();
    }

    method BuildAndInstallOwnNameLsa(prefixes: seq<Name>)
      requires Valid() && NoDuplicates(prefixes)
      modifies nameLsas, npt, npt.fib, seqs
      ensures old(OwnPrefixesMatch()) ==> OwnPrefixesMatch()
      ensures Valid() && seqs.Valid()
      ensures seqs.State() == old(seqs.State()).(name := old(seqs.nameLsaSeq) + 1)
      ensures KeepsGrowing(old(published), old(seqs.State()), published, seqs.State())
      ensures IsBuild(old(NameRun()), thisRouter, NameRun())
      ensures NextIsNewer(old(NameRun()), thisRouter) ==> NamesOf(Names().index[thisRouter].content) == NamesOf(prefixes)
    {
      ghost var before := NameRun();
      var no := NextNameLsaNumber();
      InstallOwnNameLsa(no, prefixes, before);
    }

    method InstallOwnNameLsa(no: Number, prefixes: seq<Name>, ghost before: Run<seq<Name>>)
      requires Valid() && NoDuplicates(prefixes) && Names() == before.st && no == Truncated(before.counter + 1)
      modifies nameLsas, npt, npt.fib
      ensures old(OwnPrefixesMatch()) ==> OwnPrefixesMatch()
      ensures Valid() && IsBuild(before, thisRouter, Run(Names(), before.counter + 1))
      ensures NextIsNewer(before, thisRouter) ==> NamesOf(Names().index[thisRouter].content) == NamesOf(prefixes)
    {
      InstallNameLsa(thisRouter, no, prefixes);
      DeliveredIsBuild(before, thisRouter, Run(Names(), before.counter + 1));
    }

    method NextAdjLsaNumber() returns (no: Number)
      modifies this`published, seqs
      ensures seqs.Valid() && seqs.State() == old(seqs.State()).(adj := old(seqs.adjLsaSeq) + 1)
      ensures KeepsGrowing(old(published), old(seqs.State()), published, seqs.State())
      ensures published == old(published) + [Combined(seqs.State())] && no == Truncated(old(seqs.adjLsaSeq) + 1)
    {
      no := Truncated(seqs.adjLsaSeq + 1);
      MoveKeepsGrowing(published, seqs.State(), seqs.State().(adj := seqs.adjLsaSeq + 1));
      seqs.IncreaseAdjLsaSeq();
      PublishRoutingUpdate();
    }

    /** Builds the adjacency LSA from the given (active) links, and publishes its number before it is stored. */
    method BuildAndInstallOwnAdjLsa(links: seq<Adjacent>)
      requires Valid() && NoneTwice(links)
      modifies this`published, adjLsas, npt, npt.fib, seqs, due
      ensures old(OwnPrefixesMatch()) ==> OwnPrefixesMatch()
      ensures Valid() && seqs.Valid()
      ensures seqs.State() == old(seqs.State()).(adj := old(seqs.adjLsaSeq) + 1)
      ensures KeepsGrowing(old(published), old(seqs.State()), published, seqs.State())
      ensures published == old(published) + [Combined(seqs.State())]
      ensures IsBuild(old(AdjRun()), thisRouter, AdjRun())
      ensures NextIsNewer(old(AdjRun()), thisRouter) ==> LinksRead(Adjs().index[thisRouter].content) == LinksRead(links)
      ensures due.isRouteCalculationScheduled <==> old(due.isRouteCalculationScheduled) || CountsAsNew(old(AdjRun()), thisRouter, LinksRead(links))
      ensures old(due.Valid()) ==> due.Valid()
    {
      ghost var before := AdjRun();
      var no := NextAdjLsaNumber();
      InstallOwnAdjLsa(no, links, before);
    }

    method InstallOwnAdjLsa(no: Number, links: seq<Adjacent>, ghost before: Run<seq<Adjacent>>)
      requires Valid() && NoneTwice(links) && Adjs() == before.st && no == Truncated(before.counter + 1)
      modifies adjLsas, npt, npt.fib, due
      ensures old(OwnPrefixesMatch()) ==> OwnPrefixesMatch()
      ensures Valid() && IsBuild(before, thisRouter, Run(Adjs(), before.counter + 1))
      ensures NextIsNewer(before, thisRouter) ==> LinksRead(Adjs().index[thisRouter].content) == LinksRead(links)
      ensures due.isRouteCalculationScheduled <==> old(due.isRouteCalculationScheduled) || CountsAsNew(before, thisRouter, LinksRead(links))
      ensures old(due.Valid()) ==> due.Valid()
    {
      InstallAdjLsa(thisRouter, no, links);
      DeliveredIsBuild(before, thisRouter, Run(Adjs(), before.counter + 1));
    }

    method NextCorLsaNumber() returns (no: Number)
      modifies seqs
      ensures seqs.Valid() && seqs.State() == old(seqs.State()).(cor := old(seqs.corLsaSeq) + 1)
      ensures KeepsGrowing(old(published), old(seqs.State()), published, seqs.State())
      ensures no == Truncated(old(seqs.corLsaSeq) + 1)
    {
      no := Truncated(seqs.corLsaSeq + 1);
      MoveKeepsGrowing(published, seqs.State(), seqs.State().(cor := seqs.corLsaSeq + 1));
      seqs.IncreaseCorLsaSeq();
    }

    method BuildAndInstallOwnCoordinateLsa(c: Coordinates)
      requires Valid()
      modifies corLsas, npt, npt.fib, seqs
      ensures old(OwnPrefixesMatch()) ==> OwnPrefixesMatch()
      ensures Valid() && seqs.Valid()
      ensures seqs.State() == old(seqs.State()).(cor := old(seqs.corLsaSeq) + 1)
      ensures KeepsGrowing(old(published), old(seqs.State()), published, seqs.State())
      ensures IsBuild(old(CorRun()), thisRouter, CorRun())
      ensures NextIsNewer(old(CorRun()), thisRouter) ==> CloseTo(Cors().index[thisRouter].content, c)
    {
      ghost var before := CorRun();
      var no := NextCorLsaNumber();
      InstallOwnCoordinateLsa(no, c, before);
    }

    method InstallOwnCoordinateLsa(no: Number, c: Coordinates, ghost before: Run<Coordinates>)
      requires Valid() && Cors() == before.st && no == Truncated(before.counter + 1)
      modifies corLsas, npt, npt.fib
      ensures old(OwnPrefixesMatch()) ==> OwnPrefixesMatch()
      ensures Valid() && IsBuild(before, thisRouter, Run(Cors(), before.counter + 1))
      ensures NextIsNewer(before, thisRouter) ==> CloseTo(Cors().index[thisRouter].content, c)
    {
      InstallCoordinateLsa(thisRouter, no, c);
      DeliveredIsBuild(before, thisRouter, Run(Cors(), before.counter + 1));
    }

    // ----- timers -----

    /** A Name LSA timer fires: this router's own LSA is renumbered, published and rescheduled, another
        router's removed, if the timer still matches. */
    method ExpireOrRefreshNameLsa(id: nat)
      requires Valid() && seqs.Valid() && id in nameLsas.pending
      modifies this`published, nameLsas, npt, npt.fib, seqs
      ensures Valid() && seqs.Valid()
      ensures old(OwnPrefixesMatch()) ==> (OwnPrefixesMatch() <==> !Orphans(old(Names()), old(nameLsas.pending[id]), thisRouter, StoredOrigins()))
      ensures NameRun() == After(old(NameRun()), thisRouter, Fire(id))
      ensures seqs.State() == old(seqs.State()).(name := seqs.nameLsaSeq)
      ensures published == old(published) || published == old(published) + [Combined(seqs.State())]
      ensures seqs.nameLsaSeq != old(seqs.nameLsaSeq) ==> published != old(published)
      ensures Numbered(old(Names()), thisRouter, old(seqs.nameLsaSeq)) ==>
                KeepsGrowing(old(published), old(seqs.State()), published, seqs.State())
    {
      FiredCases(NameRun(), thisRouter, id);
      var t, at := nameLsas.TakeTimer(id);
      if at != -1 {
        if t.origin == thisRouter {
          RefreshNameLsa(at);
        } else {
          RemoveNameLsa(t.origin);
        }
      }
    }

    method RefreshNameLsa(at: nat)
      requires Valid() && seqs.Valid() && at < |nameLsas.lsas| && nameLsas.lsas[at].origin == thisRouter
      modifies this`published, nameLsas, seqs
      ensures Valid() && seqs.Valid()
      ensures old(OwnPrefixesMatch()) ==> OwnPrefixesMatch()
      ensures thisRouter in old(Names()).index && Names() == Refreshed(old(Names()), thisRouter)
      ensures seqs.State() == old(seqs.State()).(name := Names().index[thisRouter].number)
      ensures published == old(published) + [Combined(seqs.State())]
      ensures old(nameLsas.lsas[at].number) == old(seqs.nameLsaSeq) ==>
                KeepsGrowing(old(published), old(seqs.State()), published, seqs.State())
    {
      ghost var was := nameLsas.lsas[at].number;
      var no := RenumberNameLsa(at);
      PublishNameLsaNumber(no, was);
    }

    method RenumberNameLsa(at: nat) returns (no: Number)
      requires Valid() && at < |nameLsas.lsas| && nameLsas.lsas[at].origin == thisRouter
      modifies nameLsas
      ensures Valid() && no == Succ(old(nameLsas.lsas[at].number))
      ensures old(OwnPrefixesMatch()) ==> OwnPrefixesMatch()
      ensures thisRouter in old(Names()).index && old(Names()).index[thisRouter] == old(nameLsas.lsas[at])
      ensures Names() == Refreshed(old(Names()), thisRouter)
    {
      IndexAt(nameLsas.lsas, Origin, at);
      ghost var stored := StoredOrigins();
      NamesRenumbered(Names(), thisRouter);
      nameLsas.Refresh(at);
      assert StoredOrigins() == stored;
      no := nameLsas.lsas[at].number;
    }

    method PublishNameLsaNumber(no: Number, ghost was: Number)
      requires no == Succ(was)
      modifies this`published, seqs
      ensures seqs.Valid() && seqs.State() == old(seqs.State()).(name := no)
      ensures published == old(published) + [Combined(seqs.State())]
      ensures was == old(seqs.nameLsaSeq) ==> KeepsGrowing(old(published), old(seqs.State()), published, seqs.State())
    {
      if was == seqs.nameLsaSeq { RefreshKeepsGrowing(published, seqs.State(), seqs.State().(name := no)); }
      seqs.SetNameLsaSeq(no);
      PublishRoutingUpdate();
    }

    method ExpireOrRefreshAdjLsa(id: nat)
      requires Valid() && seqs.Valid() && id in adjLsas.pending
      modifies this`published, adjLsas, npt, npt.fib, seqs, due
      ensures Valid() && seqs.Valid()
      ensures old(OwnPrefixesMatch()) ==> (OwnPrefixesMatch() <==> !Orphans(old(Adjs()), old(adjLsas.pending[id]), thisRouter, StoredOrigins()))
      ensures AdjRun() == After(old(AdjRun()), thisRouter, Fire(id))
      ensures seqs.State() == old(seqs.State()).(adj := seqs.adjLsaSeq)
      ensures published == old(published) || published == old(published) + [Combined(seqs.State())]
      ensures seqs.adjLsaSeq != old(seqs.adjLsaSeq) ==> published != old(published)
      ensures Numbered(old(Adjs()), thisRouter, old(seqs.adjLsaSeq)) ==>
                KeepsGrowing(old(published), old(seqs.State()), published, seqs.State())
      ensures due.isRouteCalculationScheduled <==>
                old(due.isRouteCalculationScheduled) || Concerns(old(Adjs()), old(adjLsas.pending[id]))
      ensures old(due.Valid()) ==> due.Valid()
    {
      var matched := SettleAdjLsa(id);
      if matched {
        due.ScheduleRoutingTableCalculation();
      }
    }

    method SettleAdjLsa(id: nat) returns (matched: bool)
      requires Valid() && seqs.Valid() && id in adjLsas.pending
      modifies this`published, adjLsas, npt, npt.fib, seqs
      ensures Valid() && seqs.Valid()
      ensures old(OwnPrefixesMatch()) ==> (OwnPrefixesMatch() <==> !Orphans(old(Adjs()), old(adjLsas.pending[id]), thisRouter, StoredOrigins()))
      ensures AdjRun() == After(old(AdjRun()), thisRouter, Fire(id))
      ensures seqs.State() == old(seqs.State()).(adj := seqs.adjLsaSeq)
      ensures published == old(published) || published == old(published) + [Combined(seqs.State())]
      ensures seqs.adjLsaSeq != old(seqs.adjLsaSeq) ==> published != old(published)
      ensures Numbered(old(Adjs()), thisRouter, old(seqs.adjLsaSeq)) ==>
                KeepsGrowing(old(published), old(seqs.State()), published, seqs.State())
      ensures matched <==> Concerns(old(Adjs()), old(adjLsas.pending[id]))
    {
      FiredCases(AdjRun(), thisRouter, id);
      var t, at := adjLsas.TakeTimer(id);
      matched := at != -1;
      if at != -1 {
        if t.origin == thisRouter {
          RefreshAdjLsa(at);
        } else {
          RemoveAdjLsa(t.origin);
        }
      }
    }

    method RefreshAdjLsa(at: nat)
      requires Valid() && seqs.Valid() && at < |adjLsas.lsas| && adjLsas.lsas[at].origin == thisRouter
      modifies this`published, adjLsas, seqs
      ensures Valid() && seqs.Valid()
      ensures old(OwnPrefixesMatch()) ==> OwnPrefixesMatch()
      ensures thisRouter in old(Adjs()).index && Adjs() == Refreshed(old(Adjs()), thisRouter)
      ensures seqs.State() == old(seqs.State()).(adj := Adjs().index[thisRouter].number)
      ensures published == old(published) + [Combined(seqs.State())]
      ensures old(adjLsas.lsas[at].number) == old(seqs.adjLsaSeq) ==>
                KeepsGrowing(old(published), old(seqs.State()), published, seqs.State())
    {
      ghost var was := adjLsas.lsas[at].number;
      var no := RenumberAdjLsa(at);
      PublishAdjLsaNumber(no, was);
    }

    method RenumberAdjLsa(at: nat) returns (no: Number)
      requires Valid() && at < |adjLsas.lsas| && adjLsas.lsas[at].origin == thisRouter
      modifies adjLsas
      ensures Valid() && no == Succ(old(adjLsas.lsas[at].number))
      ensures old(OwnPrefixesMatch()) ==> OwnPrefixesMatch()
      ensures thisRouter in old(Adjs()).index && old(Adjs()).index[thisRouter] == old(adjLsas.lsas[at])
      ensures Adjs() == Refreshed(old(Adjs()), thisRouter)
    {
      IndexAt(adjLsas.lsas, Origin, at);
      ghost var stored := StoredOrigins();
      adjLsas.Refresh(at);
      assert StoredOrigins() == stored;
      no := adjLsas.lsas[at].number;
    }

    method PublishAdjLsaNumber(no: Number, ghost was: Number)
      requires no == Succ(was)
      modifies this`published, seqs
      ensures seqs.Valid() && seqs.State() == old(seqs.State()).(adj := no)
      ensures published == old(published) + [Combined(seqs.State())]
      ensures was == old(seqs.adjLsaSeq) ==> KeepsGrowing(old(published), old(seqs.State()), published, seqs.State())
    {
      if was == seqs.adjLsaSeq { RefreshKeepsGrowing(published, seqs.State(), seqs.State().(adj := no)); }
      seqs.SetAdjLsaSeq(no);
      PublishRoutingUpdate();
    }

    method ExpireOrRefreshCoordinateLsa(id: nat)
      requires Valid() && seqs.Valid() && id in corLsas.pending
      modifies this`published, corLsas, npt, npt.fib, seqs
      ensures Valid() && seqs.Valid()
      ensures old(OwnPrefixesMatch()) ==> (OwnPrefixesMatch() <==> !Orphans(old(Cors()), old(corLsas.pending[id]), thisRouter, StoredOrigins()))
      ensures CorRun() == After(old(CorRun()), thisRouter, Fire(id))
      ensures seqs.State() == old(seqs.State()).(cor := seqs.corLsaSeq)
      ensures published == old(published) || published == old(published) + [Combined(seqs.State())]
      ensures seqs.corLsaSeq != old(seqs.corLsaSeq) ==> published != old(published)
      ensures Numbered(old(Cors()), thisRouter, old(seqs.corLsaSeq)) ==>
                KeepsGrowing(old(published), old(seqs.State()), published, seqs.State())
    {
      FiredCases(CorRun(), thisRouter, id);
      var t, at := corLsas.TakeTimer(id);
      if at != -1 {
        if t.origin == thisRouter {
          RefreshCoordinateLsa(at);
        } else {
          RemoveCoordinateLsa(t.origin);
        }
      }
    }

    method RefreshCoordinateLsa(at: nat)
      requires Valid() && seqs.Valid() && at < |corLsas.lsas| && corLsas.lsas[at].origin == thisRouter
      modifies this`published, corLsas, seqs
      ensures Valid() && seqs.Valid()
      ensures old(OwnPrefixesMatch()) ==> OwnPrefixesMatch()
      ensures thisRouter in old(Cors()).index && Cors() == Refreshed(old(Cors()), thisRouter)
      ensures seqs.State() == old(seqs.State()).(cor := Cors().index[thisRouter].number)
      ensures published == old(published) + [Combined(seqs.State())]
      ensures old(corLsas.lsas[at].number) == old(seqs.corLsaSeq) ==>
                KeepsGrowing(old(published), old(seqs.State()), published, seqs.State())
    {
      ghost var was := corLsas.lsas[at].number;
      var no := RenumberCoordinateLsa(at);
      PublishCorLsaNumber(no, was);
    }

    method RenumberCoordinateLsa(at: nat) returns (no: Number)
      requires Valid() && at < |corLsas.lsas| && corLsas.lsas[at].origin == thisRouter
      modifies corLsas
      ensures Valid() && no == Succ(old(corLsas.lsas[at].number))
      ensures old(OwnPrefixesMatch()) ==> OwnPrefixesMatch()
      ensures thisRouter in old(Cors()).index && old(Cors()).index[thisRouter] == old(corLsas.lsas[at])
      ensures Cors() == Refreshed(old(Cors()), thisRouter)
    {
      IndexAt(corLsas.lsas, Origin, at);
      ghost var stored := StoredOrigins();
      corLsas.Refresh(at);
      assert StoredOrigins() == stored;
      no := corLsas.lsas[at].number;
    }

    method PublishCorLsaNumber(no: Number, ghost was: Number)
      requires no == Succ(was)
      modifies this`published, seqs
      ensures seqs.Valid() && seqs.State() == old(seqs.State()).(cor := no)
      ensures published == old(published) + [Combined(seqs.State())]
      ensures was == old(seqs.corLsaSeq) ==> KeepsGrowing(old(published), old(seqs.State()), published, seqs.State())
    {
      if was == seqs.corLsaSeq { RefreshKeepsGrowing(published, seqs.State(), seqs.State().(cor := no)); }
      seqs.SetCorLsaSeq(no);
      PublishRoutingUpdate();
    }
  }
}
