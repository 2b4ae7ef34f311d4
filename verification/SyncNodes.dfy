/** One sync node as a value: its current state and everything it has ever entered in its log. The
    handlers of nsync/sync-logic.cc are functions on it; here are the laws their runs obey. */
module SyncNodes {
  import opened Names
  import opened SyncStates

  /** The reserved name whose number counts removals. */
  const FORWARDER: Name := "/d0n0t18ak/t0ps8cr8t"

  /** One log entry: what changed, and the full state right after. */
  datatype Step = Step(changes: Changes, after: Leaves)

  datatype Node = Node(leaves: Leaves, steps: seq<Step>)

  const INITIAL := Node(map[], [])

  ghost function Record(n: Node, c: Changes, after: Leaves): Node {
    Node(after, n.steps + [Step(c, after)])
  }

  /** addLocalNames: the state keeps the larger number, the log entry says the new one. */
  ghost function Publish(n: Node, name: Name, no: SeqNo): Node {
    Record(n, map[name := Update(no)], MergeLeaf(n.leaves, name, no))
  }

  /** The number the forwarder leaf moves to when a name is removed. */
  ghost function ForwarderNo(l: Leaves): SeqNo {
    if FORWARDER in l then l[FORWARDER].Next() else SeqNo(0, 0)
  }

  /** remove: erases the name and moves the forwarder leaf on. */
  ghost function RemoveName(n: Node, name: Name): Node {
    var rest := n.leaves - {name};
    var no := ForwarderNo(rest);
    Record(n, (map[name := Remove])[FORWARDER := Update(no)], MergeLeaf(rest, FORWARDER, no))
  }

  /** processSyncData: merges what was received and logs the part of it that had an effect. */
  ghost function Absorb(n: Node, c: Changes): Node {
    Record(n, Effective(n.leaves, c), Merge(n.leaves, c))
  }

  // ----- the log law -----

  /** The state before the k-th entry. */
  ghost function Before(n: Node, k: nat): Leaves
    requires k <= |n.steps|
  {
    if k == 0 then map[] else n.steps[k - 1].after
  }

  /** Every entry turns the state before it into the state after it, up to the current one. */
  ghost predicate Lawful(n: Node) {
    && n.leaves == Before(n, |n.steps|)
    && forall k: nat :: k < |n.steps| ==> Follows(n, k)
  }

  ghost predicate Follows(n: Node, k: nat)
    requires k < |n.steps|
  {
    Apply(Before(n, k), n.steps[k].changes) == n.steps[k].after
  }

  ghost function ChangesFrom(n: Node, k: nat): seq<Changes>
    requires k <= |n.steps|
  {
    seq(|n.steps| - k, i requires 0 <= i < |n.steps| - k => n.steps[k + i].changes)
  }

  /** The log law: overriding the state after k entries with the accumulated later entries gives exactly
      the current state. */
  lemma DifferencesCompose(n: Node, k: nat)
    requires Lawful(n) && k <= |n.steps|
    ensures Apply(Before(n, k), Composed(ChangesFrom(n, k))) == n.leaves
  {
    var cs := ChangesFrom(n, k);
    ComposedAppliesAll(Before(n, k), cs);
    AppliedPrefix(n, k, |cs|);
    assert cs[..|cs|] == cs;
  }

  lemma {:induction false} AppliedPrefix(n: Node, k: nat, m: nat)
    requires Lawful(n) && k + m <= |n.steps|
    ensures ApplyAll(Before(n, k), ChangesFrom(n, k)[..m]) == Before(n, k + m)
    decreases m
  {
    if m > 0 {
      var cs := ChangesFrom(n, k);
      AppliedPrefix(n, k, m - 1);
      assert cs[..m][..m - 1] == cs[..m - 1];
      assert Follows(n, k + m - 1);
    }
  }

  lemma RecordKeepsLaw(n: Node, c: Changes, after: Leaves)
    requires Lawful(n)
    ensures Lawful(Record(n, c, after)) <==> Apply(n.leaves, c) == after
  {
    var r := Record(n, c, after);
    assert Before(r, |n.steps|) == n.leaves;
    forall k: nat | k < |n.steps|
      ensures Follows(r, k)
    {
      assert Follows(n, k) && Before(r, k) == Before(n, k);
    }
    assert Follows(r, |n.steps|) <==> Apply(n.leaves, c) == after;
  }

  lemma AbsorbKeepsLaw(n: Node, c: Changes)
    requires Lawful(n)
    ensures Lawful(Absorb(n, c))
  {
    MergeIsApplyEffective(n.leaves, c);
    RecordKeepsLaw(n, Effective(n.leaves, c), Merge(n.leaves, c));
  }

  /** Removal keeps the law whatever the name, the forwarder's own included. */
  lemma RemoveKeepsLaw(n: Node, name: Name)
    requires Lawful(n)
    ensures Lawful(RemoveName(n, name))
  {
    var rest := n.leaves - {name};
    var no := ForwarderNo(rest);
    RecordKeepsLaw(n, (map[name := Remove])[FORWARDER := Update(no)], MergeLeaf(rest, FORWARDER, no));
    RemovalApplies(n.leaves, name);
  }

  lemma RemovalApplies(l: Leaves, name: Name)
    ensures var rest := l - {name};
            var no := ForwarderNo(rest);
            Apply(l, (map[name := Remove])[FORWARDER := Update(no)]) == MergeLeaf(rest, FORWARDER, no)
  {
  }

  /** A local publish keeps the law exactly if its number is not below the stored one: below it, the
      state keeps its number while the log entry announces the lower one. */
  lemma PublishKeepsLaw(n: Node, name: Name, no: SeqNo)
    requires Lawful(n)
    ensures Lawful(Publish(n, name, no)) <==> !(name in n.leaves && no.Less(n.leaves[name]))
  {
    var c := map[name := Update(no)];
    RecordKeepsLaw(n, c, MergeLeaf(n.leaves, name, no));
    if name in n.leaves && no.Less(n.leaves[name]) {
      assert Apply(n.leaves, c)[name] == no;
    } else {
      assert Apply(n.leaves, c) == MergeLeaf(n.leaves, name, no);
    }
  }

  lemma LowPublishBreaksLaw()
    ensures var n := Publish(INITIAL, "a", SeqNo(0, 5));
            Lawful(n) && !Lawful(Publish(n, "a", SeqNo(0, 3)))
  {
    PublishKeepsLaw(INITIAL, "a", SeqNo(0, 5));
    PublishKeepsLaw(Publish(INITIAL, "a", SeqNo(0, 5)), "a", SeqNo(0, 3));
  }

  /** What a pending interest for the current state is answered with, the last entry alone, is true of
      the responder: its updates are current leaves and its removals are absent. */
  lemma LastEntryIsTrue(n: Node, name: Name)
    requires Lawful(n) && n.steps != []
    ensures var c := n.steps[|n.steps| - 1].changes;
            name in c ==> if c[name].Update? then name in n.leaves && n.leaves[name] == c[name].no else name !in n.leaves
  {
    var k := |n.steps| - 1;
    assert Follows(n, k);
  }

  // ----- runs -----

  datatype Event = Publishing(name: Name, no: SeqNo) | Removing(name: Name) | Absorbing(changes: Changes)

  ghost function After(n: Node, e: Event): Node {
    match e
    case Publishing(name, no) => Publish(n, name, no)
    case Removing(name) => RemoveName(n, name)
    case Absorbing(c) => Absorb(n, c)
  }

  /** The caller's part: a local publish does not go below the stored number. */
  ghost predicate Allowed(n: Node, e: Event) {
    e.Publishing? ==> !(e.name in n.leaves && e.no.Less(n.leaves[e.name]))
  }

  ghost function Run(n: Node, events: seq<Event>): Node {
    if events == [] then n else After(Run(n, events[..|events| - 1]), events[|events| - 1])
  }

  ghost predicate AllAllowed(n: Node, events: seq<Event>) {
    events == [] || (AllAllowed(n, events[..|events| - 1]) && Allowed(Run(n, events[..|events| - 1]), events[|events| - 1]))
  }

  /** Every run of publishes, removals and received data keeps the law. */
  lemma {:induction false} RunsAreLawful(events: seq<Event>)
    requires AllAllowed(INITIAL, events)
    ensures Lawful(Run(INITIAL, events))
  {
    if events != [] {
      var init, e := events[..|events| - 1], events[|events| - 1];
      RunsAreLawful(init);
      var n := Run(INITIAL, init);
      match e
      case Publishing(name, no) => PublishKeepsLaw(n, name, no);
      case Removing(name) => RemoveKeepsLaw(n, name);
      case Absorbing(c) => AbsorbKeepsLaw(n, c);
    }
  }

  // ----- states never recur -----

  /** Steps that do not take the state back: any publish; a local removal of an ordinary name, or of the
      forwarder's own while that leaf is absent or still at its first number; and received data that raises the
      forwarder leaf, as the log entry of every removal does, or else removes nothing this node has. */
  ghost predicate Advancing(n: Node, e: Event) {
    match e
    case Publishing(_, _) => true
    case Removing(name) => name != FORWARDER || FORWARDER !in n.leaves || n.leaves[FORWARDER] == SeqNo(0, 0)
    case Absorbing(c) =>
      || (FORWARDER in Effective(n.leaves, c) && c[FORWARDER].Update?)
      || forall x :: x in c && x in n.leaves ==> c[x].Update?
  }

  ghost predicate AllAdvancing(n: Node, events: seq<Event>) {
    events == [] || (AllAdvancing(n, events[..|events| - 1]) && Advancing(Run(n, events[..|events| - 1]), events[|events| - 1]))
  }

  ghost predicate ForwarderBelow(l: Leaves, m: Leaves) {
    FORWARDER in m && (FORWARDER in l ==> l[FORWARDER].Less(m[FORWARDER]))
  }

  ghost predicate ForwarderEqual(l: Leaves, m: Leaves) {
    (FORWARDER in l <==> FORWARDER in m) && (FORWARDER in l ==> l[FORWARDER] == m[FORWARDER])
  }

  /** The order a run climbs: the forwarder leaf first, then all leaves pointwise. */
  ghost predicate Climbs(l: Leaves, m: Leaves) {
    ForwarderBelow(l, m) || (ForwarderEqual(l, m) && Leq(l, m) && l != m)
  }

  lemma ClimbsIsStrictOrder(l: Leaves, m: Leaves, u: Leaves)
    ensures !Climbs(l, l)
    ensures Climbs(l, m) && Climbs(m, u) ==> Climbs(l, u)
  {
    if Climbs(l, m) && Climbs(m, u) && ForwarderEqual(l, m) && ForwarderEqual(m, u) && Leq(l, m) && Leq(m, u) {
      if l == u { LeqAntisymmetric(l, m); }
    }
  }

  /** Exactly these steps leave the state alone or move it up. */
  lemma AdvancingClimbs(n: Node, e: Event)
    ensures Advancing(n, e) <==> After(n, e).leaves == n.leaves || Climbs(n.leaves, After(n, e).leaves)
  {
    match e
    case Publishing(name, no) => assert Leq(n.leaves, After(n, e).leaves);
    case Removing(name) => RemovingClimbs(n.leaves, name);
    case Absorbing(c) => AbsorbingClimbs(n, c);
  }

  lemma RemovingClimbs(l: Leaves, name: Name)
    ensures var rest := l - {name};
            var m := MergeLeaf(rest, FORWARDER, ForwarderNo(rest));
            m == l || Climbs(l, m) <==> name != FORWARDER || FORWARDER !in l || l[FORWARDER] == SeqNo(0, 0)
  {
    var rest := l - {name};
    var m := MergeLeaf(rest, FORWARDER, ForwarderNo(rest));
    if name != FORWARDER {
      assert ForwarderBelow(l, m);
    } else if FORWARDER !in l {
      assert rest == l && ForwarderBelow(l, m);
    } else if l[FORWARDER] == SeqNo(0, 0) {
      assert m == l;
    } else {
      assert m[FORWARDER] == SeqNo(0, 0);
    }
  }

  lemma AbsorbingClimbs(n: Node, c: Changes)
    ensures var l, m := n.leaves, Merge(n.leaves, c);
            m == l || Climbs(l, m) <==> Advancing(n, Absorbing(c))
  {
    var l, m := n.leaves, Merge(n.leaves, c);
    if x :| x in c && x in l && c[x].Remove? {
      assert x !in m;
      if FORWARDER in Effective(l, c) && c[FORWARDER].Update? {
        assert ForwarderBelow(l, m);
      } else {
        assert !ForwarderBelow(l, m) && !Leq(l, m);
      }
    } else {
      assert Leq(l, m);
    }
  }

  /** The states of a run, from the first on. */
  ghost function StateAt(events: seq<Event>, i: nat): Leaves
    requires i <= |events|
  {
    Run(INITIAL, events[..i]).leaves
  }

  lemma {:induction false} StatesClimb(events: seq<Event>, i: nat, j: nat)
    requires AllAdvancing(INITIAL, events) && i <= j <= |events|
    ensures StateAt(events, i) == StateAt(events, j) || Climbs(StateAt(events, i), StateAt(events, j))
    decreases j - i
  {
    if i < j {
      StatesClimb(events, i, j - 1);
      AdvancingPrefix(events, j);
      assert events[..j][..j - 1] == events[..j - 1];
      AdvancingClimbs(Run(INITIAL, events[..j - 1]), events[j - 1]);
      ClimbsIsStrictOrder(StateAt(events, i), StateAt(events, j - 1), StateAt(events, j));
    }
  }

  lemma {:induction false} AdvancingPrefix(events: seq<Event>, j: nat)
    requires AllAdvancing(INITIAL, events) && j <= |events|
    ensures AllAdvancing(INITIAL, events[..j])
    decreases |events|
  {
    if j < |events| {
      AdvancingPrefix(events[..|events| - 1], j);
      assert events[..|events| - 1][..j] == events[..j];
    } else {
      assert events[..j] == events;
    }
  }

  /** In a run of such steps no root digest recurs after the state has moved on: two moments with the same digest have the same
      state throughout between them. So the log's erase-by-digest only ever drops an entry for the state
      that is still current. */
  lemma DigestsDoNotRecur(events: seq<Event>, i: nat, k: nat, j: nat)
    requires AllAdvancing(INITIAL, events) && i <= k <= j <= |events|
    requires RootDigest(StateAt(events, i)) == RootDigest(StateAt(events, j))
    ensures StateAt(events, k) == StateAt(events, i)
  {
    EqualDigestsEqualStates(StateAt(events, i), StateAt(events, j));
    StatesClimb(events, i, k);
    StatesClimb(events, k, j);
    ClimbsIsStrictOrder(StateAt(events, i), StateAt(events, k), StateAt(events, j));
  }

  /** A step that does not advance can bring an old digest back for a state left in between, as here, where
      removing the forwarder leaf takes its number back to 0. */
  lemma ForwarderRemovalRecurs()
    ensures var events := [Removing("a"), Removing("a"), Removing(FORWARDER)];
            && StateAt(events, 1) == StateAt(events, 3)
            && StateAt(events, 2) != StateAt(events, 1)
  {
    var events := [Removing("a"), Removing("a"), Removing(FORWARDER)];
    assert "a" != FORWARDER by { assert |FORWARDER| != 1; }
    RunStep(events, 0);
    RunStep(events, 1);
    RunStep(events, 2);
    var n1, n2, n3 := Run(INITIAL, events[..1]), Run(INITIAL, events[..2]), Run(INITIAL, events[..3]);
    assert INITIAL.leaves - {"a"} == map[];
    assert n1.leaves == map[FORWARDER := SeqNo(0, 0)];
    assert n1.leaves - {"a"} == n1.leaves;
    assert n2.leaves == map[FORWARDER := SeqNo(0, 1)];
    assert n2.leaves - {FORWARDER} == map[];
    assert n3.leaves == map[FORWARDER := SeqNo(0, 0)];
  }

  lemma RunStep(events: seq<Event>, i: nat)
    requires i < |events|
    ensures Run(INITIAL, events[..i + 1]) == After(Run(INITIAL, events[..i]), events[i])
    ensures i == 0 ==> Run(INITIAL, events[..i]) == INITIAL
  {
    assert events[..i + 1][..i] == events[..i];
  }

  // ----- ranges reported to the application -----

  /** A reported gap: all numbers from low to high are missing. */
  datatype Missing = Missing(name: Name, low: SeqNo, high: SeqNo)

  /** What processSyncData reports for an update that takes effect. */
  function Gap(l: Leaves, n: Name, no: SeqNo): Missing {
    Missing(n, if n in l then l[n].Next() else SeqNo(no.session, 0), no)
  }

  /** The gaps reported so far for one name, in order: none for a name not yet known; otherwise non-empty
      ranges from 0 to the stored number, each starting one past the end of the one before. */
  ghost predicate Covered(gaps: seq<Missing>, l: Leaves, n: Name, session: nat) {
    if n !in l then gaps == []
    else
      && l[n].session == session
      && gaps != [] && gaps[0].low == SeqNo(session, 0) && gaps[|gaps| - 1].high == l[n]
      && (forall i :: 0 <= i < |gaps| ==> gaps[i].name == n && !gaps[i].high.Less(gaps[i].low))
      && forall i :: 0 < i < |gaps| ==> gaps[i].low == gaps[i - 1].high.Next()
  }

  ghost function GapsReported(l: Leaves, c: Changes, n: Name): seq<Missing> {
    if n in Effective(l, c) && c[n].Update? then [Gap(l, n, c[n].no)] else []
  }

  lemma AbsorbKeepsCovered(gaps: seq<Missing>, l: Leaves, c: Changes, n: Name, session: nat)
    requires Covered(gaps, l, n, session)
    requires n in c ==> c[n].Update? && c[n].no.session == session
    ensures Covered(gaps + GapsReported(l, c, n), Merge(l, c), n, session)
  {
    if n in Effective(l, c) {
      var all := gaps + GapsReported(l, c, n);
      forall i | 0 < i < |all|
        ensures all[i].low == all[i - 1].high.Next()
      {
        assert i < |gaps| ==> all[i] == gaps[i] && all[i - 1] == gaps[i - 1];
      }
    } else {
      assert gaps + [] == gaps;
    }
  }

  /** A run as seen by one remote name: other nodes' data touches it only with updates of one session,
      and this node neither publishes nor removes it. */
  ghost predicate RemoteIn(events: seq<Event>, n: Name, session: nat) {
    forall e :: e in events ==>
      match e
      case Publishing(name, _) => name != n
      case Removing(name) => name != n
      case Absorbing(c) => n in c ==> c[n].Update? && c[n].no.session == session
  }

  ghost function GapsOf(events: seq<Event>, n: Name): seq<Missing> {
    if events == [] then []
    else
      var init, e := events[..|events| - 1], events[|events| - 1];
      GapsOf(init, n) + if e.Absorbing? then GapsReported(Run(INITIAL, init).leaves, e.changes, n) else []
  }

  /** Over any such run the reported ranges cover 0 to the stored number without gap or overlap. */
  lemma {:induction false} GapsCover(events: seq<Event>, n: Name, session: nat)
    requires RemoteIn(events, n, session) && n != FORWARDER
    ensures Covered(GapsOf(events, n), Run(INITIAL, events).leaves, n, session)
  {
    if events != [] {
      var init, e := events[..|events| - 1], events[|events| - 1];
      assert forall x :: x in init ==> x in events;
      GapsCover(init, n, session);
      var before := Run(INITIAL, init);
      assert e in events;
      match e
      case Absorbing(c) =>
        AbsorbKeepsCovered(GapsOf(init, n), before.leaves, c, n, session);
      case Publishing(_, _) =>
        assert GapsOf(init, n) + [] == GapsOf(init, n);
      case Removing(_) =>
        assert GapsOf(init, n) + [] == GapsOf(init, n);
    }
  }

  /** The number lies in the reported range. */
  ghost predicate Spans(m: Missing, session: nat, k: nat) {
    m.low.session == session && m.high.session == session && m.low.number <= k <= m.high.number
  }

  lemma {:induction false} SessionBelow(gaps: seq<Missing>, l: Leaves, n: Name, session: nat, i: nat)
    requires Covered(gaps, l, n, session) && i < |gaps|
    ensures session <= gaps[i].low.session <= gaps[i].high.session
    decreases i
  {
    if i > 0 {
      SessionBelow(gaps, l, n, session, i - 1);
      assert gaps[i].low.session == gaps[i - 1].high.session;
    }
  }

  lemma {:induction false} SessionAbove(gaps: seq<Missing>, l: Leaves, n: Name, session: nat, i: nat)
    requires Covered(gaps, l, n, session) && i < |gaps|
    ensures gaps[i].high.session <= session
    decreases |gaps| - i
  {
    if i < |gaps| - 1 {
      SessionAbove(gaps, l, n, session, i + 1);
      SessionBelow(gaps, l, n, session, i + 1);
      assert gaps[i + 1].low.session == gaps[i].high.session;
    }
  }

  lemma {:induction false} RangesApart(gaps: seq<Missing>, l: Leaves, n: Name, session: nat, i: nat, j: nat)
    requires Covered(gaps, l, n, session) && i < j < |gaps|
    ensures gaps[i].high.number < gaps[j].low.number
    decreases j
  {
    SessionBelow(gaps, l, n, session, j - 1);
    SessionAbove(gaps, l, n, session, j - 1);
    assert gaps[j].low == SeqNo(gaps[j - 1].high.session, gaps[j - 1].high.number + 1);
    if i < j - 1 { RangesApart(gaps, l, n, session, i, j - 1); }
  }

  ghost predicate SomeSpans(gaps: seq<Missing>, session: nat, k: nat) {
    exists m :: m in gaps && Spans(m, session, k)
  }

  /** So over any such run every number from 0 to the stored one is in exactly one reported range, and no other
      number is in any. */
  lemma EachNumberReportedOnce(events: seq<Event>, n: Name, session: nat, k: nat)
    requires RemoteIn(events, n, session) && n != FORWARDER && n in Run(INITIAL, events).leaves
    ensures SomeSpans(GapsOf(events, n), session, k) <==> k <= Run(INITIAL, events).leaves[n].number
    ensures var gaps := GapsOf(events, n);
            forall i, j :: 0 <= i < j < |gaps| ==> !(Spans(gaps[i], session, k) && Spans(gaps[j], session, k))
  {
    var gaps, l := GapsOf(events, n), Run(INITIAL, events).leaves;
    GapsCover(events, n, session);
    forall i, j | 0 <= i < j < |gaps|
      ensures gaps[i].high.number < gaps[j].low.number
    {
      RangesApart(gaps, l, n, session, i, j);
    }
    if k <= l[n].number {
      var i := RangeOf(gaps, l, n, session, k);
      assert gaps[i] in gaps;
    }
    if m :| m in gaps && Spans(m, session, k) {
      var i :| 0 <= i < |gaps| && gaps[i] == m;
      if i < |gaps| - 1 { LastIsWide(gaps, l, n, session); }
    }
  }

  lemma LastIsWide(gaps: seq<Missing>, l: Leaves, n: Name, session: nat)
    requires Covered(gaps, l, n, session) && gaps != []
    ensures gaps[|gaps| - 1].low.number <= l[n].number
  {
    SessionBelow(gaps, l, n, session, |gaps| - 1);
  }

  lemma RangeOf(gaps: seq<Missing>, l: Leaves, n: Name, session: nat, k: nat) returns (i: nat)
    requires Covered(gaps, l, n, session) && n in l && k <= l[n].number
    ensures i < |gaps| && Spans(gaps[i], session, k)
  {
    i := |gaps| - 1;
    while k < gaps[i].low.number
      invariant i < |gaps| && k <= gaps[i].high.number
    {
      SessionBelow(gaps, l, n, session, i);
      SessionAbove(gaps, l, n, session, i);
      assert i > 0;
      SessionBelow(gaps, l, n, session, i - 1);
      SessionAbove(gaps, l, n, session, i - 1);
      assert gaps[i].low == gaps[i - 1].high.Next();
      i := i - 1;
    }
    SessionBelow(gaps, l, n, session, i);
    SessionAbove(gaps, l, n, session, i);
  }

  // ----- what removals leave behind -----

  /** k removals of ordinary names, one after the other. */
  ghost function RemovedAll(n: Node, names: seq<Name>): Node {
    if names == [] then n else RemoveName(RemovedAll(n, names[..|names| - 1]), names[|names| - 1])
  }

  /** The forwarder leaf has counted the removals: the first sets it to 0 and each further one moves it on by one,
      while the names go and all other leaves stay. */
  ghost predicate Counted(l: Leaves, m: Leaves, names: seq<Name>)
    requires names != []
  {
    && FORWARDER in m
    && m[FORWARDER] == (if FORWARDER in l then SeqNo(l[FORWARDER].session, l[FORWARDER].number + |names|)
                        else SeqNo(0, |names| - 1))
    && forall x :: x != FORWARDER ==> (x in m <==> x in l && x !in names) && (x in m ==> m[x] == l[x])
  }

  lemma {:induction false} ForwarderCountsRemovals(n: Node, names: seq<Name>)
    requires FORWARDER !in names && names != []
    ensures Counted(n.leaves, RemovedAll(n, names).leaves, names)
    decreases |names|
  {
    var init, last := names[..|names| - 1], names[|names| - 1];
    assert names == init + [last];
    OneRemoval(RemovedAll(n, init), last);
    if init == [] {
      assert RemovedAll(n, init) == n;
    } else {
      ForwarderCountsRemovals(n, init);
    }
    CountsOn(n.leaves, RemovedAll(n, init).leaves, init, last);
  }

  lemma OneRemoval(n: Node, name: Name)
    requires name != FORWARDER
    ensures RemoveName(n, name).leaves == (n.leaves - {name})[FORWARDER := NextCount(n.leaves)]
  {
  }

  ghost function NextCount(l: Leaves): SeqNo {
    if FORWARDER in l then SeqNo(l[FORWARDER].session, l[FORWARDER].number + 1) else SeqNo(0, 0)
  }

  lemma CountsOn(l: Leaves, m: Leaves, names: seq<Name>, name: Name)
    requires name != FORWARDER && if names == [] then m == l else Counted(l, m, names)
    ensures Counted(l, (m - {name})[FORWARDER := NextCount(m)], names + [name])
  {
  }
}
