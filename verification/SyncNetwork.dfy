/** Many sync nodes exchanging update-only states over a network that may lose, repeat and reorder
    whatever is sent: what every run of publishes, sends and deliveries keeps. */
module SyncNetwork {
  import opened Names
  import opened SyncStates
  import opened SyncNodes
  import opened SyncLogic

  /** A name with a number someone gave it. */
  type Claim = (Name, SeqNo)

  ghost function Claims(c: Changes): set<Claim> {
    set n | n in c && c[n].Update? :: (n, c[n].no)
  }

  ghost function StateClaims(l: Leaves): set<Claim> {
    set n | n in l :: (n, l[n])
  }

  /** The nodes, everything ever sent, everything ever published, and what each node has taken in. */
  datatype Net = Net(nodes: seq<Node>, sent: set<Changes>, published: set<Claim>, absorbed: seq<set<Claim>>)

  ghost predicate IsStart(net: Net) {
    && net.sent == {} && net.published == {}
    && |net.absorbed| == |net.nodes|
    && forall i :: 0 <= i < |net.nodes| ==> net.nodes[i] == INITIAL && net.absorbed[i] == {}
  }

  /** What a node may send at any moment: its whole state, or the difference since any of its log entries. */
  ghost predicate CanSend(n: Node, c: Changes) {
    c == AllUpdates(n.leaves) || exists k: nat :: k <= |n.steps| && c == Composed(ChangesFrom(n, k))
  }

  datatype Action =
    | PublishAt(at: nat, name: Name, no: SeqNo)
    | SendFrom(at: nat, what: Changes)
    | DeliverTo(at: nat, what: Changes)

  ghost predicate Enabled(net: Net, a: Action) {
    && |net.absorbed| == |net.nodes| && a.at < |net.nodes|
    && match a
       case PublishAt(i, name, no) => Allowed(net.nodes[i], Publishing(name, no))
       case SendFrom(i, c) => CanSend(net.nodes[i], c)
       case DeliverTo(i, c) => c in net.sent
  }

  ghost function PublishedAt(net: Net, i: nat, name: Name, no: SeqNo): Net
    requires |net.absorbed| == |net.nodes| && i < |net.nodes|
  {
    net.(nodes := net.nodes[i := Publish(net.nodes[i], name, no)],
         published := net.published + {(name, no)},
         absorbed := net.absorbed[i := net.absorbed[i] + {(name, no)}])
  }

  /** Delivery takes nothing out of the network: a packet may arrive any number of times, in any order, or
      never. */
  ghost function Next(net: Net, a: Action): Net
    requires Enabled(net, a)
  {
    match a
    case PublishAt(i, name, no) => PublishedAt(net, i, name, no)
    case SendFrom(i, c) =>
      net.(sent := net.sent + {c})
    case DeliverTo(i, c) =>
      net.(nodes := net.nodes[i := Absorb(net.nodes[i], c)],
           absorbed := net.absorbed[i := net.absorbed[i] + Claims(c)])
  }

  ghost predicate IsRun(net: Net, actions: seq<Action>, end: Net)
    decreases |actions|
  {
    if actions == [] then net == end
    else Enabled(net, actions[0]) && IsRun(Next(net, actions[0]), actions[1..], end)
  }

  // ----- the invariant -----

  /** l holds, for each name claimed, the largest number claimed for it. */
  ghost predicate IsMaximum(l: Leaves, claims: set<Claim>) {
    && StateClaims(l) <= claims
    && forall x :: x in claims ==> x.0 in l && !l[x.0].Less(x.1)
  }

  ghost predicate Honest(c: Changes, published: set<Claim>) {
    UpdateOnly(c) && Claims(c) <= published
  }

  ghost predicate NodeOk(n: Node, absorbed: set<Claim>, published: set<Claim>) {
    && Lawful(n)
    && IsMaximum(n.leaves, absorbed) && absorbed <= published
    && forall k :: 0 <= k < |n.steps| ==> Honest(n.steps[k].changes, published)
  }

  ghost predicate Inv(net: Net) {
    && |net.absorbed| == |net.nodes|
    && (forall i :: 0 <= i < |net.nodes| ==> NodeOk(net.nodes[i], net.absorbed[i], net.published))
    && forall c :: c in net.sent ==> Honest(c, net.published)
  }

  lemma StartOk(net: Net)
    requires IsStart(net)
    ensures Inv(net)
  {
  }

  lemma {:induction false} ComposedHonest(n: Node, k: nat, m: nat, published: set<Claim>)
    requires forall k :: 0 <= k < |n.steps| ==> Honest(n.steps[k].changes, published)
    requires k + m <= |n.steps|
    ensures Honest(Composed(ChangesFrom(n, k)[..m]), published)
    decreases m
  {
    if m > 0 {
      var cs := ChangesFrom(n, k);
      ComposedHonest(n, k, m - 1, published);
      assert cs[..m][..m - 1] == cs[..m - 1];
      HonestUnion(Composed(cs[..m - 1]), cs[m - 1], published);
    }
  }

  lemma HonestUnion(c: Changes, d: Changes, published: set<Claim>)
    requires Honest(c, published) && Honest(d, published)
    ensures Honest(c + d, published)
  {
    forall x | x in Claims(c + d)
      ensures x in published
    {
      assert x in Claims(c) || x in Claims(d);
    }
  }

  lemma SendOk(n: Node, absorbed: set<Claim>, published: set<Claim>, c: Changes)
    requires NodeOk(n, absorbed, published) && CanSend(n, c)
    ensures Honest(c, published)
  {
    if c == AllUpdates(n.leaves) {
      forall x | x in Claims(c)
        ensures x in published
      {
        assert x in StateClaims(n.leaves);
      }
    } else {
      var k: nat :| k <= |n.steps| && c == Composed(ChangesFrom(n, k));
      var cs := ChangesFrom(n, k);
      ComposedHonest(n, k, |cs|, published);
      assert cs[..|cs|] == cs;
    }
  }

  lemma MaximumAfterMerge(l: Leaves, claims: set<Claim>, c: Changes)
    requires IsMaximum(l, claims) && UpdateOnly(c)
    ensures IsMaximum(Merge(l, c), claims + Claims(c))
  {
    var m := Merge(l, c);
    forall x | x in StateClaims(m)
      ensures x in claims + Claims(c)
    {
      if x.0 in l && m[x.0] == l[x.0] {
        assert x in StateClaims(l);
      } else {
        assert x in Claims(c);
      }
    }
    forall x | x in claims + Claims(c)
      ensures x.0 in m && !m[x.0].Less(x.1)
    {
      if x in claims { assert x.0 in l && !l[x.0].Less(x.1); }
    }
  }

  lemma PublishOk(n: Node, absorbed: set<Claim>, published: set<Claim>, name: Name, no: SeqNo)
    requires NodeOk(n, absorbed, published) && Allowed(n, Publishing(name, no))
    ensures NodeOk(Publish(n, name, no), absorbed + {(name, no)}, published + {(name, no)})
  {
    PublishKeepsLaw(n, name, no);
    var c: Changes := map[name := Update(no)];
    assert Claims(c) == {(name, no)} by { assert forall x :: x in Claims(c) ==> x == (name, no); assert name in c; }
    MaximumAfterMerge(n.leaves, absorbed, c);
    assert Merge(n.leaves, c) == MergeLeaf(n.leaves, name, no);
    HonestGrows(n, published, published + {(name, no)});
  }

  lemma HonestGrows(n: Node, published: set<Claim>, more: set<Claim>)
    requires published <= more && forall k :: 0 <= k < |n.steps| ==> Honest(n.steps[k].changes, published)
    ensures forall k :: 0 <= k < |n.steps| ==> Honest(n.steps[k].changes, more)
  {
  }

  lemma AbsorbOk(n: Node, absorbed: set<Claim>, published: set<Claim>, c: Changes)
    requires NodeOk(n, absorbed, published) && Honest(c, published)
    ensures NodeOk(Absorb(n, c), absorbed + Claims(c), published)
  {
    AbsorbKeepsLaw(n, c);
    MaximumAfterMerge(n.leaves, absorbed, c);
    var e := Effective(n.leaves, c);
    forall x | x in Claims(e)
      ensures x in Claims(c)
    {
    }
    assert Honest(e, published);
  }

  /** Every action keeps the invariant and takes no node's number for a name back. */
  lemma ActionKeeps(net: Net, a: Action)
    requires Inv(net) && Enabled(net, a)
    ensures Inv(Next(net, a))
    ensures forall i :: 0 <= i < |net.nodes| ==> Leq(net.nodes[i].leaves, Next(net, a).nodes[i].leaves)
  {
    var after := Next(net, a);
    assert NodeOk(net.nodes[a.at], net.absorbed[a.at], net.published);
    match a
    case PublishAt(i, name, no) =>
      PublishOk(net.nodes[i], net.absorbed[i], net.published, name, no);
      forall j | 0 <= j < |net.nodes|
        ensures NodeOk(after.nodes[j], after.absorbed[j], after.published)
      {
        assert NodeOk(net.nodes[j], net.absorbed[j], net.published);
        HonestGrows(net.nodes[j], net.published, after.published);
      }
    case SendFrom(i, c) =>
      SendOk(net.nodes[i], net.absorbed[i], net.published, c);
    case DeliverTo(i, c) =>
      AbsorbOk(net.nodes[i], net.absorbed[i], net.published, c);
  }

  lemma LeqTransitive(l: Leaves, m: Leaves, u: Leaves)
    requires Leq(l, m) && Leq(m, u)
    ensures Leq(l, u)
  {
  }

  /** So does every run, however long: no node ever falls behind itself. */
  lemma {:induction false} RunsKeep(net: Net, actions: seq<Action>, end: Net)
    requires Inv(net) && IsRun(net, actions, end)
    ensures Inv(end) && |end.nodes| == |net.nodes|
    ensures forall i :: 0 <= i < |net.nodes| ==> Leq(net.nodes[i].leaves, end.nodes[i].leaves)
    decreases |actions|
  {
    if actions != [] {
      var mid := Next(net, actions[0]);
      ActionKeeps(net, actions[0]);
      RunsKeep(mid, actions[1..], end);
      forall i | 0 <= i < |net.nodes|
        ensures Leq(net.nodes[i].leaves, end.nodes[i].leaves)
      {
        LeqTransitive(net.nodes[i].leaves, mid.nodes[i].leaves, end.nodes[i].leaves);
      }
    }
  }

  /** In every run, a number in any state or in any packet was published, for that name, by some node. */
  lemma NothingInvented(start: Net, actions: seq<Action>, net: Net, x: Claim)
    requires IsStart(start) && IsRun(start, actions, net)
    requires (exists i :: 0 <= i < |net.nodes| && x in StateClaims(net.nodes[i].leaves)) || (exists c :: c in net.sent && x in Claims(c))
    ensures x in net.published
  {
    StartOk(start);
    RunsKeep(start, actions, net);
    if i :| 0 <= i < |net.nodes| && x in StateClaims(net.nodes[i].leaves) {
      assert NodeOk(net.nodes[i], net.absorbed[i], net.published);
    } else {
      var c :| c in net.sent && x in Claims(c);
      assert Honest(c, net.published);
    }
  }

  /** Each name claimed in a has a claim in b that is no smaller. */
  ghost predicate Reached(a: set<Claim>, b: set<Claim>) {
    forall x :: x in a ==> exists y :: y in b && y.0 == x.0 && !y.1.Less(x.1)
  }

  lemma ReachedBelow(l: Leaves, a: set<Claim>, m: Leaves, b: set<Claim>)
    requires IsMaximum(l, a) && IsMaximum(m, b) && Reached(a, b)
    ensures Leq(l, m)
  {
    forall n | n in l
      ensures n in m && !m[n].Less(l[n])
    {
      assert (n, l[n]) in StateClaims(l);
      var y :| y in b && y.0 == n && !y.1.Less(l[n]);
      assert y.0 in m && !m[y.0].Less(y.1);
    }
  }

  /** Convergence: in every run, two nodes that have taken in the same largest number for every name,
      by whatever packets in whatever order, hold the same state and the same root digest. */
  lemma NodesAgree(start: Net, actions: seq<Action>, net: Net, i: nat, j: nat)
    requires IsStart(start) && IsRun(start, actions, net) && i < |net.nodes| && j < |net.nodes|
    requires |net.absorbed| == |net.nodes|
    requires Reached(net.absorbed[i], net.absorbed[j]) && Reached(net.absorbed[j], net.absorbed[i])
    ensures net.nodes[i].leaves == net.nodes[j].leaves
    ensures RootDigest(net.nodes[i].leaves) == RootDigest(net.nodes[j].leaves)
  {
    StartOk(start);
    RunsKeep(start, actions, net);
    assert NodeOk(net.nodes[i], net.absorbed[i], net.published) && NodeOk(net.nodes[j], net.absorbed[j], net.published);
    ReachedBelow(net.nodes[i].leaves, net.absorbed[i], net.nodes[j].leaves, net.absorbed[j]);
    ReachedBelow(net.nodes[j].leaves, net.absorbed[j], net.nodes[i].leaves, net.absorbed[i]);
    LeqAntisymmetric(net.nodes[i].leaves, net.nodes[j].leaves);
  }

  // ----- one exchange -----

  lemma {:induction false} UpdatesGrow(n: Node, k: nat, j: nat)
    requires Lawful(n) && k <= j <= |n.steps|
    requires forall x :: 0 <= x < |n.steps| ==> Leq(Before(n, x), n.steps[x].after)
    ensures Leq(Before(n, k), Before(n, j))
    decreases j - k
  {
    if k < j {
      UpdatesGrow(n, k, j - 1);
      LeqTransitive(Before(n, k), Before(n, j - 1), Before(n, j));
    }
  }

  ghost predicate UpdateOnlyNode(n: Node) {
    && Lawful(n)
    && forall x :: 0 <= x < |n.steps| ==> UpdateOnly(n.steps[x].changes) && Leq(Before(n, x), n.steps[x].after)
  }

  lemma RecordedUpdate(n: Node, c: Changes, after: Leaves)
    requires UpdateOnlyNode(n) && Lawful(Record(n, c, after)) && UpdateOnly(c) && Leq(n.leaves, after)
    ensures UpdateOnlyNode(Record(n, c, after))
  {
    var m := Record(n, c, after);
    forall x | 0 <= x < |m.steps|
      ensures UpdateOnly(m.steps[x].changes) && Leq(Before(m, x), m.steps[x].after)
    {
      if x < |n.steps| {
        assert Before(m, x) == Before(n, x) && m.steps[x] == n.steps[x];
      } else {
        assert Before(m, x) == n.leaves;
      }
    }
  }

  /** Nodes without removals: publishing and absorbing updates keeps them so. */
  lemma UpdateOnlyKept(n: Node, e: Event)
    requires UpdateOnlyNode(n) && Allowed(n, e) && !e.Removing? && (e.Absorbing? ==> UpdateOnly(e.changes))
    ensures UpdateOnlyNode(After(n, e))
  {
    match e
    case Publishing(name, no) =>
      PublishKeepsLaw(n, name, no);
      RecordedUpdate(n, map[name := Update(no)], MergeLeaf(n.leaves, name, no));
    case Absorbing(c) =>
      AbsorbKeepsLaw(n, c);
      assert Leq(n.leaves, Merge(n.leaves, c));
      RecordedUpdate(n, Effective(n.leaves, c), Merge(n.leaves, c));
  }

  ghost predicate AllUpdating(events: seq<Event>) {
    forall e :: e in events ==> !e.Removing? && (e.Absorbing? ==> UpdateOnly(e.changes))
  }

  /** So every node reached without removals is one. */
  lemma {:induction false} RunsUpdateOnly(events: seq<Event>)
    requires AllAllowed(INITIAL, events) && AllUpdating(events)
    ensures UpdateOnlyNode(Run(INITIAL, events))
  {
    if events != [] {
      var init, e := events[..|events| - 1], events[|events| - 1];
      assert e in events && forall x :: x in init ==> x in events;
      RunsUpdateOnly(init);
      UpdateOnlyKept(Run(INITIAL, init), e);
    }
  }

  /** In a run without removals, whoever asks with a digest the responder has been in, and absorbs the answer
      from the log, ends at the maximum of both states; not having changed, in the responder's. */
  lemma RunReplyJoins(events: seq<Event>, asked: Leaves, now: Leaves, msg: Message)
    requires AllAllowed(INITIAL, events) && AllUpdating(events) && Leq(asked, now)
    requires BringsUpToDate(Run(INITIAL, events), RootDigest(asked), msg)
    ensures var l := Run(INITIAL, events).leaves;
            Merge(now, Decoded(msg)) == Join(now, l) && (now == asked ==> Merge(now, Decoded(msg)) == l)
  {
    RunsUpdateOnly(events);
    LogReplyJoins(Run(INITIAL, events), asked, now, msg);
  }

  /** A requester that asked in state `asked` and is now in state `now` absorbs the answer from the log:
      it ends at the pointwise maximum of its own and the responder's state, and, if it has not changed
      since asking, exactly in the responder's state. */
  lemma LogReplyJoins(n: Node, asked: Leaves, now: Leaves, msg: Message)
    requires UpdateOnlyNode(n) && BringsUpToDate(n, RootDigest(asked), msg) && Leq(asked, now)
    ensures Merge(now, Decoded(msg)) == Join(now, n.leaves)
    ensures now == asked ==> Merge(now, Decoded(msg)) == n.leaves
  {
    var k: nat :| k < |n.steps| && RootDigest(n.steps[k].after) == RootDigest(asked)
                  && Decoded(msg) == Composed(ChangesFrom(n, k + 1));
    EqualDigestsEqualStates(asked, n.steps[k].after);
    DifferenceJoins(n, k + 1, now);
  }

  lemma DifferenceJoins(n: Node, k: nat, now: Leaves)
    requires UpdateOnlyNode(n) && k <= |n.steps| && Leq(Before(n, k), now)
    ensures var c := Composed(ChangesFrom(n, k));
            Merge(now, c) == Join(now, n.leaves) && (now == Before(n, k) ==> Merge(now, c) == n.leaves)
  {
    DifferencesCompose(n, k);
    UpdatesGrow(n, k, |n.steps|);
    ComposedUpdateOnly(ChangesFrom(n, k));
    DiffReplyJoins(Before(n, k), now, Composed(ChangesFrom(n, k)), n.leaves);
  }

  lemma {:induction false} ComposedUpdateOnly(cs: seq<Changes>)
    requires forall i :: 0 <= i < |cs| ==> UpdateOnly(cs[i])
    ensures UpdateOnly(Composed(cs))
  {
    if cs != [] {
      ComposedUpdateOnly(cs[..|cs| - 1]);
    }
  }

  /** The replies carrying a whole state: the pointwise maximum, and the responder's state itself for a
      requester that was still empty. */
  lemma FullReplyMerges(s: Leaves, now: Leaves, msg: Message)
    requires Decoded(msg) == AllUpdates(s)
    ensures Merge(now, Decoded(msg)) == Join(now, s)
    ensures RootDigest(now) == Zero ==> Merge(now, Decoded(msg)) == s
  {
    FullReplyJoins(now, s);
  }

  /** Each pending interest is answered exactly once. */
  lemma EachAskerAnswered(sent: seq<Sent>, pit: map<string, Pending>, newest: Changes, l: Leaves, name: string)
    requires AllAnswered(sent, pit, newest, l)
    ensures name in pit <==> exists i :: 0 <= i < |sent| && sent[i].name == name
    ensures forall i, j :: 0 <= i < j < |sent| ==> sent[i].name != sent[j].name
    ensures forall i :: 0 <= i < |sent| && sent[i].name == name ==> name in pit && sent[i].digest == pit[name].digest
  {
    if name in pit {
      var s :| s in sent && s.name == name;
    }
    assert forall i :: 0 <= i < |sent| ==> sent[i] in sent && IsDue(sent[i], pit[sent[i].name], newest, l);
  }

  /** Whoever asked with a digest the responder did not know gets the whole state: in any state it is led to the
      maximum of both, and from the empty one to the responder's. */
  lemma UnknownAskersJoin(sent: seq<Sent>, pit: map<string, Pending>, newest: Changes, l: Leaves, s: Sent, now: Leaves)
    requires AllAnswered(sent, pit, newest, l) && s in sent && pit[s.name].unknown
    ensures Merge(now, Decoded(s.msg)) == Join(now, l) && Merge(map[], Decoded(s.msg)) == l
  {
    assert IsDue(s, pit[s.name], newest, l);
    FullReplyJoins(now, l);
    FullReplyJoins(map[], l);
  }

  /** Whoever was waiting in what was the current state gets the last entry alone: in the state before that entry
      or above, it is led to the maximum of both, and from just that state to the responder's. */
  lemma KnownAskersJoin(n: Node, sent: seq<Sent>, pit: map<string, Pending>, s: Sent, now: Leaves)
    requires UpdateOnlyNode(n) && n.steps != [] && Leq(Before(n, |n.steps| - 1), now)
    requires AllAnswered(sent, pit, n.steps[|n.steps| - 1].changes, n.leaves) && s in sent && !pit[s.name].unknown
    ensures Merge(now, Decoded(s.msg)) == Join(now, n.leaves) && Merge(Before(n, |n.steps| - 1), Decoded(s.msg)) == n.leaves
  {
    var k, asked := |n.steps| - 1, Before(n, |n.steps| - 1);
    assert IsDue(s, pit[s.name], n.steps[k].changes, n.leaves);
    assert Follows(n, k) && Leq(asked, n.steps[k].after);
    DiffReplyJoins(asked, now, n.steps[k].changes, n.leaves);
    DiffReplyJoins(asked, asked, n.steps[k].changes, n.leaves);
  }

  /** With removals too: overriding the state before the last entry with what a waiting node gets gives exactly
      the responder's state. */
  lemma KnownAskersOverride(n: Node, sent: seq<Sent>, pit: map<string, Pending>, s: Sent)
    requires Lawful(n) && n.steps != []
    requires AllAnswered(sent, pit, n.steps[|n.steps| - 1].changes, n.leaves) && s in sent && !pit[s.name].unknown
    ensures Apply(Before(n, |n.steps| - 1), Decoded(s.msg)) == n.leaves
  {
    var k := |n.steps| - 1;
    assert IsDue(s, pit[s.name], n.steps[k].changes, n.leaves);
    assert Follows(n, k);
  }

  /** Removals break the exchange: a name removed and published again under a lower number stays at the
      old one with a requester that missed the removal. */
  lemma LowerRepublishIsIgnored()
    ensures var n := Run(INITIAL, [Publishing("a", SeqNo(0, 5)), Removing("a"), Publishing("a", SeqNo(0, 3))]);
            var asked := map["a" := SeqNo(0, 5)];
            && Lawful(n)
            && Apply(asked, Composed(ChangesFrom(n, 1))) == n.leaves
            && Merge(asked, Composed(ChangesFrom(n, 1))) != n.leaves
  {
    var events := [Publishing("a", SeqNo(0, 5)), Removing("a"), Publishing("a", SeqNo(0, 3))];
    RunStep(events, 0);
    RunStep(events, 1);
    RunStep(events, 2);
    assert events[..3] == events;
    var n1, n2, n := Run(INITIAL, events[..1]), Run(INITIAL, events[..2]), Run(INITIAL, events);
    var asked: Leaves := map["a" := SeqNo(0, 5)];
    assert n1.leaves == asked;
    assert asked - {"a"} == map[];
    assert n2.leaves == map[FORWARDER := SeqNo(0, 0)];
    PublishKeepsLaw(INITIAL, "a", SeqNo(0, 5));
    RemoveKeepsLaw(n1, "a");
    PublishKeepsLaw(n2, "a", SeqNo(0, 3));
    DifferencesCompose(n, 1);
    assert Before(n, 1) == asked;
    var c := Composed(ChangesFrom(n, 1));
    assert n.leaves["a"] == SeqNo(0, 3);
    assert Apply(asked, c) == n.leaves;
    assert Merge(asked, c) != Apply(asked, c) by {
      assert "a" in c && c["a"] == Update(SeqNo(0, 3)) by {
        assert "a" in Apply(asked, c) && Apply(asked, c)["a"] == SeqNo(0, 3);
      }
      MergeMatchesApply(asked, c);
    }
  }
}
