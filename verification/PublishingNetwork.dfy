/** Routers on the sync network: each publishes the combined numbers of its counters under its own update prefix,
    and may restart, which empties its sync node and resumes its counters from the file
    (src/communication/sync-logic-handler.cpp over nsync). */
module PublishingNetwork {
  import opened Names
  import opened Listings
  import opened SyncStates
  import opened SyncNodes
  import opened SyncNetwork
  import opened Sequencing

  /** The sync nodes and the network between them, and the life of each router's counters. */
  datatype Domain = Domain(net: Net, lives: seq<Life>)

  /** All numbers are published for session 0. */
  function NumberOf(c: Counters): SeqNo {
    SeqNo(0, Combined(c))
  }

  datatype Act =
    | Count(router: nat, to: Counters)
    | Announce(router: nat, to: Counters)
    | Reboot(router: nat)
    | Send(router: nat, what: Changes)
    | Receive(router: nat, what: Changes)

  ghost predicate Sized(d: Domain, names: seq<Name>) {
    |d.net.absorbed| == |d.net.nodes| == |d.lives| == |names|
  }

  /** Counters move on and what is published is in range. Nothing is asked of the number's relation to what the
      sync node stores. */
  ghost predicate CanAct(d: Domain, names: seq<Name>, a: Act) {
    && Sized(d, names) && a.router < |names|
    && match a
       case Count(i, to) => Advanced(d.lives[i].counters, to)
       case Announce(i, to) => Advanced(d.lives[i].counters, to) && InRange(to)
       case Reboot(_) => true
       case Send(i, c) => CanSend(d.net.nodes[i], c)
       case Receive(_, c) => c in d.net.sent
  }

  ghost function Rebooted(net: Net, i: nat): Net
    requires |net.absorbed| == |net.nodes| && i < |net.nodes|
  {
    net.(nodes := net.nodes[i := INITIAL], absorbed := net.absorbed[i := {}])
  }

  ghost function Acted(d: Domain, names: seq<Name>, a: Act): Domain
    requires CanAct(d, names, a)
  {
    match a
    case Count(i, to) => d.(lives := d.lives[i := AfterStep(d.lives[i], Sequencing.Step.Move(to))])
    case Announce(i, to) =>
      Domain(PublishedAt(d.net, i, names[i], NumberOf(to)), d.lives[i := AfterStep(d.lives[i], Sequencing.Step.Publish(to))])
    case Reboot(i) => Domain(Rebooted(d.net, i), d.lives[i := AfterStep(d.lives[i], Sequencing.Step.Restart)])
    case Send(i, c) => d.(net := SyncNetwork.Next(d.net, SendFrom(i, c)))
    case Receive(i, c) => d.(net := SyncNetwork.Next(d.net, DeliverTo(i, c)))
  }

  /** The claim is something a router has published in one of its lives. */
  ghost predicate FromLife(lives: seq<Life>, names: seq<Name>, x: Claim)
    requires |lives| == |names|
  {
    exists i, k :: 0 <= i < |lives| && 0 <= k < |lives[i].published| && x == (names[i], NumberOf(lives[i].published[k]))
  }

  ghost predicate LivesOk(lives: seq<Life>) {
    forall i :: 0 <= i < |lives| ==> LifeOk(lives[i]) && PublishesInRange(lives[i])
  }

  ghost predicate DomainOk(d: Domain, names: seq<Name>) {
    && Sized(d, names) && NoDuplicates(names)
    && Inv(d.net) && LivesOk(d.lives)
    && forall x :: x in d.net.published ==> FromLife(d.lives, names, x)
  }

  /** What a router publishes next is above whatever any sync node, its own included, stores for it. */
  lemma AnnouncedIsNew(d: Domain, names: seq<Name>, i: nat, to: Counters, j: nat)
    requires DomainOk(d, names) && CanAct(d, names, Announce(i, to)) && j < |names|
    ensures var l := d.net.nodes[j].leaves; names[i] in l ==> l[names[i]].Less(NumberOf(to))
  {
    var l := d.net.nodes[j].leaves;
    if names[i] in l {
      assert NodeOk(d.net.nodes[j], d.net.absorbed[j], d.net.published);
      assert (names[i], l[names[i]]) in StateClaims(l);
      var m, k :| 0 <= m < |d.lives| && 0 <= k < |d.lives[m].published|
                  && (names[i], l[names[i]]) == (names[m], NumberOf(d.lives[m].published[k]));
      assert m == i;
      StepKeepsLifeOk(d.lives[i], Sequencing.Step.Publish(to));
      var p := AfterStep(d.lives[i], Sequencing.Step.Publish(to)).published;
      assert p[k] == d.lives[i].published[k] && p[|p| - 1] == to;
      CombinedGrows(p[k], to);
    }
  }

  lemma FromLifeStays(lives: seq<Life>, names: seq<Name>, i: nat, s: Sequencing.Step, x: Claim)
    requires |lives| == |names| && i < |lives| && FromLife(lives, names, x)
    ensures FromLife(lives[i := AfterStep(lives[i], s)], names, x)
  {
    var m, k :| 0 <= m < |lives| && 0 <= k < |lives[m].published| && x == (names[m], NumberOf(lives[m].published[k]));
    var after := lives[i := AfterStep(lives[i], s)];
    assert k < |after[m].published| && after[m].published[k] == lives[m].published[k];
  }

  lemma LivesStep(lives: seq<Life>, i: nat, s: Sequencing.Step)
    requires LivesOk(lives) && i < |lives| && StepsOn(lives[i], s) && (s.Publish? ==> InRange(s.to))
    ensures LivesOk(lives[i := AfterStep(lives[i], s)])
  {
    StepKeepsLifeOk(lives[i], s);
  }

  lemma RebootKeeps(net: Net, i: nat)
    requires Inv(net) && i < |net.nodes|
    ensures Inv(Rebooted(net, i))
  {
    var after := Rebooted(net, i);
    forall j | 0 <= j < |after.nodes|
      ensures NodeOk(after.nodes[j], after.absorbed[j], after.published)
    {
      if j != i { assert NodeOk(net.nodes[j], net.absorbed[j], net.published); }
    }
  }

  lemma AnnounceKeeps(d: Domain, names: seq<Name>, i: nat, to: Counters)
    requires DomainOk(d, names) && CanAct(d, names, Announce(i, to))
    ensures Enabled(d.net, PublishAt(i, names[i], NumberOf(to)))
    ensures DomainOk(Acted(d, names, Announce(i, to)), names)
  {
    AnnouncedIsNew(d, names, i, to, i);
    ActionKeeps(d.net, PublishAt(i, names[i], NumberOf(to)));
    LivesStep(d.lives, i, Sequencing.Step.Publish(to));
    var after := Acted(d, names, Announce(i, to));
    forall x | x in after.net.published
      ensures FromLife(after.lives, names, x)
    {
      if x in d.net.published {
        FromLifeStays(d.lives, names, i, Sequencing.Step.Publish(to), x);
      } else {
        var p := after.lives[i].published;
        assert x == (names[i], NumberOf(p[|p| - 1]));
      }
    }
  }

  lemma ActKeeps(d: Domain, names: seq<Name>, a: Act)
    requires DomainOk(d, names) && CanAct(d, names, a)
    ensures DomainOk(Acted(d, names, a), names)
  {
    match a
    case Count(i, to) =>
      LivesStep(d.lives, i, Sequencing.Step.Move(to));
      forall x | x in d.net.published { FromLifeStays(d.lives, names, i, Sequencing.Step.Move(to), x); }
    case Announce(i, to) => AnnounceKeeps(d, names, i, to);
    case Reboot(i) =>
      RebootKeeps(d.net, i);
      LivesStep(d.lives, i, Sequencing.Step.Restart);
      forall x | x in d.net.published { FromLifeStays(d.lives, names, i, Sequencing.Step.Restart, x); }
    case Send(i, c) => ActionKeeps(d.net, SendFrom(i, c));
    case Receive(i, c) => ActionKeeps(d.net, DeliverTo(i, c));
  }

  ghost predicate IsDomainRun(d: Domain, names: seq<Name>, acts: seq<Act>, end: Domain)
    decreases |acts|
  {
    if acts == [] then d == end
    else CanAct(d, names, acts[0]) && IsDomainRun(Acted(d, names, acts[0]), names, acts[1..], end)
  }

  /** Nothing published, sent or stored yet. */
  ghost predicate IsNew(d: Domain, names: seq<Name>) {
    && Sized(d, names) && NoDuplicates(names) && IsStart(d.net)
    && forall i :: 0 <= i < |d.lives| ==> d.lives[i] == Life(Counters(0, 0, 0), None, [])
  }

  lemma {:induction false} RunsKeepDomainOk(d: Domain, names: seq<Name>, acts: seq<Act>, end: Domain)
    requires DomainOk(d, names) && IsDomainRun(d, names, acts, end)
    ensures DomainOk(end, names)
    decreases |acts|
  {
    if acts != [] {
      ActKeeps(d, names, acts[0]);
      RunsKeepDomainOk(Acted(d, names, acts[0]), names, acts[1..], end);
    }
  }

  /** In every run of routers that count, publish, restart, send and receive, over a network that loses, repeats
      and reorders, while published numbers are in range: every log obeys its law, and whatever a router
      publishes next is above what any node stores for it, so that it keeps the law and every receiver takes
      it as new. */
  lemma RoutersPublishLawfully(start: Domain, names: seq<Name>, acts: seq<Act>, d: Domain, i: nat, to: Counters, j: nat)
    requires IsNew(start, names) && IsDomainRun(start, names, acts, d)
    requires CanAct(d, names, Announce(i, to)) && j < |names|
    ensures Lawful(d.net.nodes[j]) && Lawful(SyncNodes.Publish(d.net.nodes[i], names[i], SeqNo(0, Combined(to))))
    ensures var l := d.net.nodes[j].leaves; names[i] in l ==> l[names[i]].Less(SeqNo(0, Combined(to)))
  {
    StartOk(start.net);
    RunsKeepDomainOk(start, names, acts, d);
    AnnouncedIsNew(d, names, i, to, i);
    AnnouncedIsNew(d, names, i, to, j);
    assert NodeOk(d.net.nodes[j], d.net.absorbed[j], d.net.published);
    assert NodeOk(d.net.nodes[i], d.net.absorbed[i], d.net.published);
    PublishKeepsLaw(d.net.nodes[i], names[i], NumberOf(to));
  }
}
