/** One of the LSA lists of the database together with its pending timers: first installs, renewals,
    refreshes and expiry (the install, remove and exprireOrRefresh functions of src/lsdb.cpp, which differ
    between the three kinds of LSA only in how content is compared and copied). */
module LsaLists {
  import opened Names
  import opened Listings

  const TWO31: nat := 0x8000_0000
  const TWO32: nat := 0x1_0000_0000
  const TWO64: nat := 0x1_0000_0000_0000_0000

  /** LSA numbers are 32-bit words. */
  type Number = n: nat | n < 0x1_0000_0000

  function Truncated(n: nat): Number {
    n % TWO32
  }

  /** Numbers that fit stay as they are, and beyond that they repeat. */
  lemma NumbersWrap(n: nat)
    ensures n < 0x1_0000_0000 ==> Truncated(n) == n
    ensures Truncated(n + 0x1_0000_0000) == Truncated(n)
  {
  }

  function Succ(n: Number): Number {
    Truncated(n + 1)
  }

  /** A stored LSA. Its event id names the timer a renewal cancels; a first install stores none. */
  datatype Stored<C> = Stored(origin: Name, number: Number, content: C, event: Option<nat>)

  /** A timer is set up with the LSA's key and number. */
  datatype Timer = Timer(origin: Name, number: Number)

  /** The number a timer compares with when it fires: it passed through a signed 32-bit parameter on its
      way to an unsigned 64-bit one. */
  function Carried(n: Number): nat {
    if n < TWO31 then n else n + (TWO64 - TWO32)
  }

  /** Timers recognise the number they were set up with exactly below 2^31. */
  lemma CarriedExact(n: Number, m: Number)
    ensures Carried(n) == m <==> n == m && n < 0x8000_0000
  {
  }

  datatype State<C> = State(index: map<Name, Stored<C>>, pending: map<nat, Timer>, nextId: nat)

  ghost function Scheduled<C>(st: State<C>, t: Timer): State<C> {
    st.(pending := st.pending[st.nextId := t], nextId := st.nextId + 1)
  }

  ghost function Cancelled<C>(st: State<C>, event: Option<nat>): State<C> {
    if event.Some? then st.(pending := st.pending - {event.value}) else st
  }

  /** A first install: the list holds a copy made before the event id was known. */
  ghost function Added<C>(st: State<C>, o: Name, no: Number, c: C): State<C> {
    Scheduled(st.(index := st.index[o := Stored(o, no, c, None)]), Timer(o, no))
  }

  /** A newer number for a stored LSA: the timer it knows of is cancelled and replaced. */
  ghost function Renewed<C>(st: State<C>, o: Name, no: Number, c: C): State<C>
    requires o in st.index
  {
    Scheduled(Cancelled(st, st.index[o].event).(index := st.index[o := Stored(o, no, c, Some(st.nextId))]), Timer(o, no))
  }

  ghost function Delivered<C>(st: State<C>, o: Name, no: Number, c: C): State<C> {
    if o !in st.index then Added(st, o, no, c)
    else if st.index[o].number < no then Renewed(st, o, no, c)
    else st
  }

  ghost function Refreshed<C>(st: State<C>, o: Name): State<C>
    requires o in st.index
  {
    var no := Succ(st.index[o].number);
    Scheduled(st.(index := st.index[o := st.index[o].(number := no, event := Some(st.nextId))]), Timer(o, no))
  }

  ghost function Erased<C>(st: State<C>, o: Name): State<C> {
    st.(index := st.index - {o})
  }

  /** A pending timer fires: it is spent, and if it matches the stored number, this router's own LSA is
      refreshed and any other removed. */
  ghost function Fired<C>(st: State<C>, own: Name, id: nat): State<C>
    requires id in st.pending
  {
    var t, rest := st.pending[id], st.(pending := st.pending - {id});
    if Concerns(st, t)
    then (if t.origin == own then Refreshed(rest, own) else Erased(rest, t.origin))
    else rest
  }

  // ----- what every run keeps -----

  ghost predicate HasTimer<C>(st: State<C>, o: Name)
    requires o in st.index
  {
    exists id :: id in st.pending && st.pending[id] == Timer(o, st.index[o].number)
  }

  /** Ids are fresh, a stored event id never names another LSA's timer, and every LSA numbered below 2^31
      has a pending timer with its key and current number. */
  ghost predicate TimersOk<C>(st: State<C>) {
    && (forall id :: id in st.pending ==> id < st.nextId)
    && (forall o :: o in st.index ==> EventOk(st, o))
    && forall o :: o in st.index && st.index[o].number < TWO31 ==> HasTimer(st, o)
  }

  ghost predicate EventOk<C>(st: State<C>, o: Name)
    requires o in st.index
  {
    && st.index[o].origin == o
    && (st.index[o].event.Some? ==>
          st.index[o].event.value < st.nextId
          && (st.index[o].event.value in st.pending ==> st.pending[st.index[o].event.value].origin == o))
  }

  ghost predicate Numbered<C>(st: State<C>, own: Name, counter: nat) {
    own in st.index ==> st.index[own].number == counter
  }

  /** The own LSA's number is the counter's; no own timer is ahead of the counter; and at most one own timer
      carries the current number. */
  ghost predicate OwnOk<C>(st: State<C>, own: Name, counter: nat) {
    && Numbered(st, own, counter)
    && (forall id :: id in st.pending && st.pending[id].origin == own ==> st.pending[id].number <= counter)
    && forall i, j ::
         (own in st.index && i in st.pending && j in st.pending && st.pending[i] == st.pending[j]
          && st.pending[i].origin == own && st.pending[i].number == counter) ==> i == j
  }

  lemma AddedOk<C>(st: State<C>, o: Name, no: Number, c: C)
    requires TimersOk(st) && o !in st.index
    ensures TimersOk(Added(st, o, no, c))
  {
    var after := Added(st, o, no, c);
    assert after.pending[st.nextId] == Timer(o, no);
    forall x | x in after.index && after.index[x].number < TWO31
      ensures HasTimer(after, x)
    {
      if x != o {
        var id :| id in st.pending && st.pending[id] == Timer(x, st.index[x].number);
        assert after.pending[id] == Timer(x, after.index[x].number);
      }
    }
    forall x | x in after.index
      ensures EventOk(after, x)
    {
      if x != o { assert EventOk(st, x); }
    }
  }

  lemma RenewedOk<C>(st: State<C>, o: Name, no: Number, c: C)
    requires TimersOk(st) && o in st.index
    ensures TimersOk(Renewed(st, o, no, c))
  {
    var after := Renewed(st, o, no, c);
    assert EventOk(st, o);
    assert after.pending[st.nextId] == Timer(o, no);
    forall x | x in after.index && after.index[x].number < TWO31
      ensures HasTimer(after, x)
    {
      if x != o {
        var id :| id in st.pending && st.pending[id] == Timer(x, st.index[x].number);
        assert after.pending[id] == Timer(x, after.index[x].number);
      }
    }
    forall x | x in after.index
      ensures EventOk(after, x)
    {
      assert EventOk(st, x);
    }
  }

  lemma DeliveredOk<C>(st: State<C>, o: Name, no: Number, c: C)
    requires TimersOk(st)
    ensures TimersOk(Delivered(st, o, no, c))
  {
    if o !in st.index {
      AddedOk(st, o, no, c);
    } else if st.index[o].number < no {
      RenewedOk(st, o, no, c);
    }
  }

  lemma ErasedOk<C>(st: State<C>, o: Name)
    requires TimersOk(st)
    ensures TimersOk(Erased(st, o))
  {
    var after := Erased(st, o);
    forall x | x in after.index
      ensures EventOk(after, x) && (after.index[x].number < TWO31 ==> HasTimer(after, x))
    {
      assert EventOk(st, x);
      if after.index[x].number < TWO31 {
        var id :| id in st.pending && st.pending[id] == Timer(x, st.index[x].number);
      }
    }
  }

  /** Firing spends a timer an LSA may still need only by refreshing or removing that LSA. */
  lemma FiredOk<C>(st: State<C>, own: Name, id: nat)
    requires TimersOk(st) && id in st.pending
    ensures TimersOk(Fired(st, own, id))
  {
    var t, after := st.pending[id], Fired(st, own, id);
    forall x | x in after.index
      ensures EventOk(after, x)
    {
      assert EventOk(st, x);
    }
    forall x | x in after.index && after.index[x].number < TWO31
      ensures HasTimer(after, x)
    {
      if x in st.index && after.index[x] == st.index[x] {
        var k :| k in st.pending && st.pending[k] == Timer(x, st.index[x].number);
        assert k != id by { CarriedExact(t.number, st.index[x].number); }
        assert after.pending[k] == Timer(x, after.index[x].number);
      } else {
        assert after.pending[st.nextId] == Timer(x, after.index[x].number);
      }
    }
  }

  /** A timer set up for an older (or any other) number changes nothing in the list. */
  lemma OtherTimersDoNothing<C>(st: State<C>, own: Name, id: nat)
    requires id in st.pending
    requires st.pending[id].origin in st.index ==> st.index[st.pending[id].origin].number != st.pending[id].number
    ensures Fired(st, own, id).index == st.index
  {
    if st.pending[id].origin in st.index {
      CarriedExact(st.pending[id].number, st.index[st.pending[id].origin].number);
    }
  }

  /** The pending timers of the router that its stored LSA does not know of. */
  ghost function Untracked<C>(st: State<C>, o: Name): set<nat> {
    set id | id in st.pending && st.pending[id].origin == o && !(o in st.index && st.index[o].event == Some(id))
  }

  /** A first install leaves its timer untracked. A renewal leaves no more timers untracked than there were, because
      it cancels the one it knows of, and tracks the new one, which is set up for the new number. */
  lemma RenewalsCancel<C>(st: State<C>, o: Name, no: Number, c: C)
    requires TimersOk(st)
    ensures o !in st.index ==> Untracked(Delivered(st, o, no, c), o) == Untracked(st, o) + {st.nextId}
    ensures o in st.index ==> Untracked(Delivered(st, o, no, c), o) == Untracked(st, o)
    ensures o in st.index && st.index[o].number < no ==>
              var after := Delivered(st, o, no, c);
              && after.index[o] == Stored(o, no, c, Some(st.nextId)) && after.pending[st.nextId] == Timer(o, no)
              && forall id :: id in st.pending && st.index[o].event != Some(id) ==> id in after.pending && after.pending[id] == st.pending[id]
  {
    if o in st.index { assert EventOk(st, o); }
  }

  /** The own LSA's timer, while it recognises it, moves its number on by one and sets up and records a timer for
      that, spending itself and touching no other timer or LSA. */
  lemma OwnTimerRefreshes<C>(st: State<C>, own: Name, id: nat)
    requires TimersOk(st) && own in st.index && id in st.pending && st.pending[id] == Timer(own, st.index[own].number)
    requires st.index[own].number < 0x8000_0000
    ensures var after, no := Fired(st, own, id), st.index[own].number + 1;
            && after.index == st.index[own := Stored(own, no, st.index[own].content, Some(st.nextId))]
            && after.pending == (st.pending - {id})[st.nextId := Timer(own, no)]
  {
    assert EventOk(st, own);
  }

  /** No timer removes this router's own LSA. */
  lemma TimersKeepOwn<C>(st: State<C>, own: Name, id: nat)
    requires id in st.pending && own in st.index
    ensures own in Fired(st, own, id).index && Fired(st, own, id).index[own].content == st.index[own].content
  {
  }

  /** From 2^31 on the property fails: the LSA's timer does not recognise it, and once it has fired the LSA
      stays for good. */
  lemma LargeNumbersNeverExpire<C>(st: State<C>, own: Name, id: nat, o: Name)
    requires id in st.pending && o in st.index && st.pending[id] == Timer(o, st.index[o].number) && o != own
    ensures Fired(st, own, id).index == (if st.index[o].number < 0x8000_0000 then st.index - {o} else st.index)
  {
    CarriedExact(st.pending[id].number, st.index[o].number);
  }

  /** A timer changes what is stored exactly if it concerns a stored LSA. */
  lemma FiringChanges<C>(st: State<C>, own: Name, id: nat)
    requires id in st.pending
    ensures Fired(st, own, id).index != st.index <==> Concerns(st, st.pending[id])
  {
    var o := st.pending[id].origin;
    if Concerns(st, st.pending[id]) && o == own {
      assert Fired(st, own, id).index[o].number != st.index[o].number;
    }
  }

  // ----- runs -----

  /** Another router's LSA arrives, the own one is built anew, the own one is withdrawn, or a timer fires. */
  datatype Event<C> = Arrive(origin: Name, number: Number, content: C) | Build(newContent: C) | Withdraw | Fire(id: nat)

  datatype Run<C> = Run(st: State<C>, counter: nat)

  ghost predicate CanHappen<C>(r: Run<C>, own: Name, e: Event<C>) {
    match e
    case Arrive(o, _, _) => o != own
    case Fire(id) => id in r.st.pending
    case _ => true
  }

  /** A build takes the next number from the counter; a refresh puts the refreshed number back into it. */
  ghost function After<C>(r: Run<C>, own: Name, e: Event<C>): Run<C>
    requires CanHappen(r, own, e)
  {
    match e
    case Arrive(o, no, c) => Run(Delivered(r.st, o, no, c), r.counter)
    case Build(c) => Run(Delivered(r.st, own, Truncated(r.counter + 1), c), r.counter + 1)
    case Withdraw => Run(Erased(r.st, own), r.counter)
    case Fire(id) =>
      var st := Fired(r.st, own, id);
      var refreshed := own in r.st.index && own in st.index && st.index[own] != r.st.index[own];
      Run(st, if refreshed then st.index[own].number else r.counter)
  }

  /** The next number of the counter counts as newer than the stored own LSA's. */
  ghost predicate NextIsNewer<C>(r: Run<C>, own: Name) {
    own !in r.st.index || r.st.index[own].number < Truncated(r.counter + 1)
  }

  /** It does exactly below 2^32, while the stored own LSA carries the counter's number. */
  lemma CurrentIsNewer<C>(r: Run<C>, own: Name)
    requires Numbered(r.st, own, r.counter)
    ensures NextIsNewer(r, own) <==> own !in r.st.index || r.counter + 1 < 0x1_0000_0000
  {
  }

  /** The own LSA has been built anew, its content now being what is stored. */
  ghost predicate IsBuild<C>(before: Run<C>, own: Name, after: Run<C>) {
    own in after.st.index && after == After(before, own, Build(after.st.index[own].content))
  }

  lemma DeliveredIsBuild<C>(before: Run<C>, own: Name, after: Run<C>)
    requires own in after.st.index && after.counter == before.counter + 1
    requires after.st == Delivered(before.st, own, Truncated(before.counter + 1), after.st.index[own].content)
    ensures IsBuild(before, own, after)
  {
  }

  ghost predicate Concerns<C>(st: State<C>, t: Timer) {
    t.origin in st.index && st.index[t.origin].number == Carried(t.number)
  }

  lemma FiredCases<C>(r: Run<C>, own: Name, id: nat)
    requires id in r.st.pending
    ensures var t, rest, after := r.st.pending[id], r.st.(pending := r.st.pending - {id}), After(r, own, Fire(id));
            if !Concerns(rest, t) then after == Run(rest, r.counter)
            else if t.origin == own then after == Run(Refreshed(rest, own), Refreshed(rest, own).index[own].number)
            else after == Run(Erased(rest, t.origin), r.counter)
  {
  }

  ghost predicate RunOk<C>(r: Run<C>, own: Name) {
    TimersOk(r.st) && OwnOk(r.st, own, r.counter)
  }

  lemma ArriveOwnOk<C>(st: State<C>, own: Name, counter: nat, o: Name, no: Number, c: C)
    requires TimersOk(st) && OwnOk(st, own, counter) && o != own
    ensures OwnOk(Delivered(st, o, no, c), own, counter)
  {
    if o in st.index { assert EventOk(st, o); }
  }

  lemma BuildOwnOk<C>(st: State<C>, own: Name, counter: nat, c: C)
    requires TimersOk(st) && OwnOk(st, own, counter) && counter + 1 < TWO31
    ensures OwnOk(Delivered(st, own, counter + 1, c), own, counter + 1)
    ensures var after := Delivered(st, own, counter + 1, c); own in after.index && after.index[own].content == c
  {
    var after := Delivered(st, own, counter + 1, c);
    forall i | i in after.pending && after.pending[i].origin == own && i != st.nextId
      ensures after.pending[i].number <= counter
    {
      assert st.pending[i].origin == own;
    }
  }

  lemma FireOwnOk<C>(st: State<C>, own: Name, counter: nat, id: nat)
    requires TimersOk(st) && OwnOk(st, own, counter) && id in st.pending && counter + 1 < TWO31
    ensures var after := Fired(st, own, id);
            OwnOk(after, own, if own in st.index && after.index[own] != st.index[own] then after.index[own].number else counter)
  {
    TimersKeepOwnIfAny(st, own, id);
    var t, after := st.pending[id], Fired(st, own, id);
    if t.origin in st.index { CarriedExact(t.number, st.index[t.origin].number); }
    if t.origin == own && own in st.index && st.index[own].number == Carried(t.number) {
      assert after.index[own].number == counter + 1;
      forall i | i in after.pending && after.pending[i].origin == own && i != st.nextId
        ensures after.pending[i].number <= counter
      {
        assert st.pending[i].origin == own;
      }
      assert after.index[own] != st.index[own];
    }
  }

  lemma TimersKeepOwnIfAny<C>(st: State<C>, own: Name, id: nat)
    requires id in st.pending
    ensures own in st.index ==> own in Fired(st, own, id).index
  {
  }

  lemma BuildKeeps<C>(r: Run<C>, own: Name, c: C)
    requires RunOk(r, own) && r.counter + 1 < TWO31
    ensures RunOk(After(r, own, Build(c)), own)
  {
    var no := r.counter + 1;
    assert After(r, own, Build(c)) == Run(Delivered(r.st, own, no, c), no);
    DeliveredOk(r.st, own, no, c);
    BuildOwnOk(r.st, own, r.counter, c);
  }

  lemma FireKeeps<C>(r: Run<C>, own: Name, id: nat)
    requires RunOk(r, own) && r.counter + 1 < TWO31 && id in r.st.pending
    ensures RunOk(After(r, own, Fire(id)), own)
  {
    TimersKeepOwnIfAny(r.st, own, id);
    FiredOk(r.st, own, id);
    FireOwnOk(r.st, own, r.counter, id);
  }

  /** Every event keeps all of it, while the counter stays below 2^31. */
  lemma EventKeepsRunOk<C>(r: Run<C>, own: Name, e: Event<C>)
    requires RunOk(r, own) && CanHappen(r, own, e) && r.counter + 1 < TWO31
    ensures RunOk(After(r, own, e), own)
  {
    match e
    case Arrive(o, no, c) =>
      DeliveredOk(r.st, o, no, c);
      ArriveOwnOk(r.st, own, r.counter, o, no, c);
    case Build(c) => BuildKeeps(r, own, c);
    case Withdraw => ErasedOk(r.st, own);
    case Fire(id) => FireKeeps(r, own, id);
  }

  ghost predicate IsTimerRun<C>(r: Run<C>, own: Name, events: seq<Event<C>>, end: Run<C>)
    decreases |events|
  {
    if events == [] then r == end
    else CanHappen(r, own, events[0]) && r.counter + 1 < TWO31 && IsTimerRun(After(r, own, events[0]), own, events[1..], end)
  }

  lemma {:induction false} RunsKeepRunOk<C>(r: Run<C>, own: Name, events: seq<Event<C>>, end: Run<C>)
    requires RunOk(r, own) && IsTimerRun(r, own, events, end)
    ensures RunOk(end, own)
    decreases |events|
  {
    if events != [] {
      EventKeepsRunOk(r, own, events[0]);
      RunsKeepRunOk(After(r, own, events[0]), own, events[1..], end);
    }
  }

  /** In every run from an empty list: the stored own LSA carries the counter's number and has exactly one
      timer for it; every stored LSA numbered below 2^31 has a timer for its current number. */
  lemma StoredHaveTimers<C>(own: Name, counter: nat, events: seq<Event<C>>, end: Run<C>, o: Name)
    requires IsTimerRun(Run(State(map[], map[], 0), counter), own, events, end) && o in end.st.index
    requires o == own ==> end.counter < TWO31
    ensures end.st.index[o].number < TWO31 ==> HasTimer(end.st, o)
    ensures o == own ==> end.st.index[o].number == end.counter
    ensures o == own ==>
              exists id :: id in end.st.pending && end.st.pending[id] == Timer(own, end.counter)
                && forall k :: k in end.st.pending && end.st.pending[k] == Timer(own, end.counter) ==> k == id
  {
    RunsKeepRunOk(Run(State(map[], map[], 0), counter), own, events, end);
    if o == own {
      assert HasTimer(end.st, own);
      var id :| id in end.st.pending && end.st.pending[id] == Timer(own, end.st.index[own].number);
    }
  }

  // ----- the list itself -----

  function Origin<C>(s: Stored<C>): Name { s.origin }

  class LsaList<C(!new)> {
    var lsas: seq<Stored<C>>
    var pending: map<nat, Timer>
    var nextId: nat
    /** The stored LSAs by key. */
    ghost var index: map<Name, Stored<C>>

    ghost predicate Valid()
      reads this
    {
      DistinctKeys(lsas, Origin) && index == Index(lsas, Origin)
    }

    ghost function St(): State<C>
      reads this
    {
      State(index, pending, nextId)
    }

    constructor ()
      ensures Valid() && St() == State(map[], map[], 0)
    {
      lsas := [];
      pending := map[];
      nextId := 0;
      index := map[];
    }

    /** Position of the LSA with this key, or -1. */
    method Find(o: Name) returns (at: int)
      requires Valid()
      ensures -1 <= at < |lsas| && (at == -1 <==> o !in St().index)
      ensures at != -1 ==> lsas[at].origin == o && St().index[o] == lsas[at]
    {
      IndexKeys(lsas, Origin, o);
      at := 0;
      while at < |lsas| && lsas[at].origin != o
        invariant 0 <= at <= |lsas|
        invariant forall i :: 0 <= i < at ==> lsas[i].origin != o
      {
        at := at + 1;
      }
      if at == |lsas| {
        at := -1;
      } else {
        IndexAt(lsas, Origin, at);
      }
    }

    method Schedule(t: Timer) returns (id: nat)
      modifies this`pending, this`nextId
      ensures St() == Scheduled(old(St()), t) && id == old(nextId)
    {
      id := nextId;
      pending := pending[id := t];
      nextId := nextId + 1;
    }

    method Cancel(event: Option<nat>)
      modifies this`pending
      ensures St() == Cancelled(old(St()), event)
    {
      if event.Some? {
        pending := pending - {event.value};
      }
    }

    /** First install of a key: the copy goes into the list before its timer is set up. */
    method Add(o: Name, no: Number, c: C)
      requires Valid() && o !in St().index
      modifies this
      ensures Valid() && St() == Added(old(St()), o, no, c)
    {
      IndexAppended(lsas, Origin, Stored(o, no, c, None));
      lsas := lsas + [Stored(o, no, c, None)];
      index := index[o := Stored(o, no, c, None)];
      var id := Schedule(Timer(o, no));
    }

    /** A newer number for the LSA at this position. */
    method Renew(at: nat, no: Number, c: C)
      requires Valid() && at < |lsas|
      modifies this
      ensures Valid() && old(lsas[at].origin) in old(St()).index
      ensures St() == Renewed(old(St()), old(lsas[at].origin), no, c)
    {
      var s := lsas[at];
      IndexAt(lsas, Origin, at);
      Cancel(s.event);
      var id := Schedule(Timer(s.origin, no));
      IndexReplaced(lsas, Origin, at, Stored(s.origin, no, c, Some(id)));
      lsas := lsas[at := Stored(s.origin, no, c, Some(id))];
      index := index[s.origin := lsas[at]];
    }

    method Refresh(at: nat)
      requires Valid() && at < |lsas|
      modifies this
      ensures Valid() && old(lsas[at].origin) in old(St()).index
      ensures St() == Refreshed(old(St()), old(lsas[at].origin))
      ensures |lsas| == old(|lsas|) && lsas[at].number == Succ(old(lsas[at].number))
    {
      var s := lsas[at];
      IndexAt(lsas, Origin, at);
      var no := Succ(s.number);
      var id := Schedule(Timer(s.origin, no));
      IndexReplaced(lsas, Origin, at, s.(number := no, event := Some(id)));
      lsas := lsas[at := s.(number := no, event := Some(id))];
      index := index[s.origin := lsas[at]];
    }

    method Erase(at: nat)
      requires Valid() && at < |lsas|
      modifies this`lsas, this`index
      ensures Valid() && St() == Erased(old(St()), old(lsas[at].origin))
    {
      IndexDropped(lsas, Origin, at);
      index := index - {lsas[at].origin};
      lsas := Dropped(lsas, at);
    }

    /** Takes a pending timer off the scheduler; the result is the timer if it still concerns a stored LSA. */
    method TakeTimer(id: nat) returns (t: Timer, at: int)
      requires Valid() && id in pending
      modifies this`pending
      ensures Valid() && t == old(pending[id]) && St() == old(St()).(pending := old(pending) - {id})
      ensures -1 <= at < |lsas|
      ensures at != -1 <==> Concerns(St(), t)
      ensures at != -1 ==> lsas[at].origin == t.origin && St().index[t.origin] == lsas[at]
    {
      t := pending[id];
      pending := pending - {id};
      at := Find(t.origin);
      if at != -1 && lsas[at].number != Carried(t.number) {
        at := -1;
      }
    }
  }
}
