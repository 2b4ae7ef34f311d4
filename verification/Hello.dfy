/** Neighbours and the debounced build of the adjacency LSA: the hello protocol's handlers
    (src/hello-protocol.cpp), face events (src/nlsr.cpp), and scheduleAdjLsaBuild and buildAdjLsa
    (src/lsdb.cpp). */
module Hello {
  import opened Names
  import opened RouterMaps
  import opened AdjacencyLists
  import opened LsaLists
  import opened Sequencing
  import opened Lsdbs
  import opened Fibs

  datatype Status = Inactive | Active

  datatype Neighbour = Neighbour(name: Name, faceUri: string, linkCost: ConfiguredCost, faceId: nat, status: Status, timedOut: nat)

  /** The neighbours, the number of outstanding build requests, the scheduled flag, and the number of build
      events the scheduler holds. */
  datatype Watch = Watch(neighbours: seq<Neighbour>, count: nat, scheduled: bool, pending: nat)

  ghost predicate EachOnce(s: seq<Neighbour>) {
    forall i, j :: 0 <= i < j < |s| ==> s[i].name != s[j].name
  }

  function AsAdjacent(n: Neighbour): Adjacent {
    Adjacent(n.name, n.faceUri, n.linkCost)
  }

  /** The link as an LSA of it is read. */
  function Link(n: Neighbour): Adjacency {
    Read(AsAdjacent(n))
  }

  ghost function ActiveLinks(s: seq<Neighbour>): set<Adjacency> {
    set n | n in s && n.status == Active :: Link(n)
  }

  /** What the own adjacency LSA ought to list: nothing is stored if no neighbour is active. */
  ghost function ListingOf(s: seq<Neighbour>): Option<set<Adjacency>> {
    if ActiveLinks(s) == {} then None else Some(ActiveLinks(s))
  }

  /** A neighbour is settled once it is active, or inactive and given up on. */
  predicate Decided(n: Neighbour, retry: nat) {
    n.status == Active || n.timedOut >= retry
  }

  ghost predicate Buildable(s: seq<Neighbour>, retry: nat) {
    forall i :: 0 <= i < |s| ==> Decided(s[i], retry)
  }

  // ----- what each event does -----

  function IndexOf(s: seq<Neighbour>, name: Name): (at: int)
    ensures -1 <= at < |s| && (at >= 0 ==> s[at].name == name)
    ensures at < 0 ==> forall i :: 0 <= i < |s| ==> s[i].name != name
  {
    if s == [] then -1
    else if s[0].name == name then 0
    else var rest := IndexOf(s[1..], name); if rest < 0 then -1 else rest + 1
  }

  function FirstOnFace(s: seq<Neighbour>, faceId: nat): (at: int)
    ensures -1 <= at < |s| && (at >= 0 ==> s[at].faceId == faceId)
    ensures forall i :: 0 <= i < (if at < 0 then |s| else at) ==> s[i].faceId != faceId
  {
    if s == [] then -1
    else if s[0].faceId == faceId then 0
    else var rest := FirstOnFace(s[1..], faceId); if rest < 0 then -1 else rest + 1
  }

  ghost function Requested(w: Watch): Watch {
    w.(count := w.count + 1, scheduled := true, pending := if w.scheduled then w.pending else w.pending + 1)
  }

  /** A hello interest times out. */
  function MissedOnce(n: Neighbour, retry: nat): Neighbour {
    n.(timedOut := n.timedOut + 1,
       status := if n.timedOut + 1 == retry then Inactive else n.status)
  }

  ghost function Missed(w: Watch, name: Name, retry: nat): Watch {
    var at := IndexOf(w.neighbours, name);
    if at < 0 then w
    else
      var n := w.neighbours[at];
      var w' := w.(neighbours := w.neighbours[at := MissedOnce(n, retry)]);
      if n.status == Active && n.timedOut + 1 == retry then Requested(w') else w'
  }

  /** A valid hello reply arrives. */
  ghost function Answered(w: Watch, name: Name): Watch {
    var at := IndexOf(w.neighbours, name);
    if at < 0 then w
    else
      var n := w.neighbours[at];
      var w' := w.(neighbours := w.neighbours[at := n.(status := Active, timedOut := 0)]);
      if n.status == Active then w' else Requested(w')
  }

  /** A face to the neighbour could not be registered: counted like a miss, but giving up on a neighbour
      that never was active also asks for a build. */
  ghost function Refused(w: Watch, name: Name, retry: nat): Watch {
    var at := IndexOf(w.neighbours, name);
    if at < 0 then w
    else
      var n := w.neighbours[at];
      var w' := w.(neighbours := w.neighbours[at := MissedOnce(n, retry)]);
      if n.timedOut + 1 == retry then Requested(w') else w'
  }

  ghost function Registered(w: Watch, name: Name, faceId: nat): Watch {
    var at := IndexOf(w.neighbours, name);
    if at < 0 then w else w.(neighbours := w.neighbours[at := w.neighbours[at].(faceId := faceId)])
  }

  /** A face is destroyed: the first neighbour on it loses it, and is given up on at once if it was active. */
  ghost function Destroyed(w: Watch, faceId: nat, retry: nat): Watch {
    var at := FirstOnFace(w.neighbours, faceId);
    if at < 0 then w
    else
      var n := w.neighbours[at].(faceId := 0);
      if n.status == Active
      then Requested(w.(neighbours := w.neighbours[at := n.(status := Inactive, timedOut := retry)]))
      else w.(neighbours := w.neighbours[at := n])
  }

  /** A build event fires: while some neighbour is undecided another takes its place; otherwise all requests
      are met. */
  ghost function BuildDue(w: Watch, retry: nat): Watch
    requires w.pending > 0
  {
    if !Buildable(w.neighbours, retry) then w.(scheduled := true) else w.(count := 0, scheduled := false, pending := w.pending - 1)
  }

  // ----- together with the list of adjacency LSAs -----

  /** The neighbours watched, and the adjacency LSAs with their timers and the own number's counter. */
  datatype Router = Router(watch: Watch, run: Run<seq<Adjacent>>)

  ghost function LinksOf(st: State<seq<Adjacent>>, r: Name): Option<set<Adjacency>> {
    if r in st.index then Some(LinksRead(st.index[r].content)) else None
  }

  /** A build event that fires now rebuilds or withdraws the own LSA. */
  ghost predicate Rebuilds(w: Watch, retry: nat) {
    Buildable(w.neighbours, retry) && w.count > 0
  }

  /** The own LSA is built anew from the active neighbours, its stored content then being this one, or
      withdrawn if there are none. */
  ghost function AfterBuild(r: Router, own: Name, retry: nat, content: seq<Adjacent>): Router
    requires r.watch.pending > 0
  {
    Router(BuildDue(r.watch, retry),
           if !Rebuilds(r.watch, retry) then r.run
           else if ActiveLinks(r.watch.neighbours) == {} then After(r.run, own, Withdraw)
           else After(r.run, own, LsaLists.Event.Build(content)))
  }

  /** What is stored reads as the active links if it counted as newer. */
  ghost predicate CanBuild(r: Router, own: Name, retry: nat, content: seq<Adjacent>) {
    && r.watch.pending > 0
    && (Rebuilds(r.watch, retry) && ActiveLinks(r.watch.neighbours) != {} && NextIsNewer(r.run, own) ==>
          LinksRead(content) == ActiveLinks(r.watch.neighbours))
  }

  // ----- what every run keeps -----

  ghost predicate CountersBelow(s: seq<Neighbour>, retry: nat) {
    forall i :: 0 <= i < |s| && s[i].status == Active ==> s[i].timedOut < retry
  }

  ghost predicate WatchOk(w: Watch, retry: nat) {
    && EachOnce(w.neighbours)
    && w.pending == (if w.scheduled then 1 else 0)
    && (w.count > 0 ==> w.scheduled)
    && CountersBelow(w.neighbours, retry)
  }

  /** With no request outstanding the own LSA is up to date; and its number is the counter's. */
  ghost predicate RouterOk(r: Router, own: Name, retry: nat) {
    && WatchOk(r.watch, retry)
    && (r.watch.count == 0 ==> LinksOf(r.run.st, own) == ListingOf(r.watch.neighbours))
    && Numbered(r.run.st, own, r.run.counter)
  }

  /** Something happens to a neighbour, a build event fires, or something happens to the list: another router's
      LSA arrives or a timer fires. */
  datatype Event =
    | Miss(name: Name) | Answer(name: Name) | Refuse(name: Name) | Register(name: Name, faceId: nat)
    | Destroy(faceId: nat) | Build(content: seq<Adjacent>) | Listed(e: LsaLists.Event<seq<Adjacent>>)

  ghost predicate Possible(r: Router, own: Name, retry: nat, e: Event) {
    match e
    case Build(content) => CanBuild(r, own, retry, content)
    case Listed(e) => (e.Arrive? || e.Fire?) && CanHappen(r.run, own, e)
    case _ => true
  }

  ghost function Next(r: Router, own: Name, retry: nat, e: Event): Router
    requires Possible(r, own, retry, e)
  {
    match e
    case Miss(name) => r.(watch := Missed(r.watch, name, retry))
    case Answer(name) => r.(watch := Answered(r.watch, name))
    case Refuse(name) => r.(watch := Refused(r.watch, name, retry))
    case Register(name, faceId) => r.(watch := Registered(r.watch, name, faceId))
    case Destroy(faceId) => r.(watch := Destroyed(r.watch, faceId, retry))
    case Build(content) => AfterBuild(r, own, retry, content)
    case Listed(e) => r.(run := After(r.run, own, e))
  }

  /** Changing one neighbour but neither its link nor its status leaves the active links alone. */
  lemma SameActiveLinks(s: seq<Neighbour>, at: nat, n: Neighbour)
    requires at < |s| && Link(n) == Link(s[at]) && n.status == s[at].status
    ensures ActiveLinks(s[at := n]) == ActiveLinks(s)
  {
    var after := s[at := n];
    forall x | x in ActiveLinks(s)
      ensures x in ActiveLinks(after)
    {
      var i :| 0 <= i < |s| && s[i].status == Active && Link(s[i]) == x;
      assert after[i] in after;
    }
    forall x | x in ActiveLinks(after)
      ensures x in ActiveLinks(s)
    {
      var i :| 0 <= i < |after| && after[i].status == Active && Link(after[i]) == x;
      assert s[i] in s;
    }
  }

  /** A status never changes without a build request. */
  lemma StepKeepsOk(w: Watch, at: nat, n: Neighbour, retry: nat, requested: bool)
    requires WatchOk(w, retry) && at < |w.neighbours| && Link(n) == Link(w.neighbours[at])
    requires n.status == Active ==> n.timedOut < retry
    requires n.status != w.neighbours[at].status ==> requested
    ensures var w' := w.(neighbours := w.neighbours[at := n]);
            var after := if requested then Requested(w') else w';
            WatchOk(after, retry)
            && (after.count == 0 ==> w.count == 0 && ActiveLinks(after.neighbours) == ActiveLinks(w.neighbours))
  {
    var w' := w.(neighbours := w.neighbours[at := n]);
    if !requested { SameActiveLinks(w.neighbours, at, n); }
  }

  /** The hello protocol's events, and the face events. */
  lemma HeardKeepsOk(r: Router, own: Name, e: Event, retry: nat)
    requires RouterOk(r, own, retry) && retry >= 1 && !e.Build? && !e.Listed?
    ensures RouterOk(Next(r, own, retry, e), own, retry)
  {
    var w, s := r.watch, r.watch.neighbours;
    match e
    case Miss(name) =>
      var at := IndexOf(s, name);
      if at >= 0 { StepKeepsOk(w, at, MissedOnce(s[at], retry), retry, s[at].status == Active && s[at].timedOut + 1 == retry); }
    case Answer(name) =>
      var at := IndexOf(s, name);
      if at >= 0 { StepKeepsOk(w, at, s[at].(status := Active, timedOut := 0), retry, s[at].status != Active); }
    case Refuse(name) =>
      var at := IndexOf(s, name);
      if at >= 0 { StepKeepsOk(w, at, MissedOnce(s[at], retry), retry, s[at].timedOut + 1 == retry); }
    case Register(name, faceId) =>
      var at := IndexOf(s, name);
      if at >= 0 { StepKeepsOk(w, at, s[at].(faceId := faceId), retry, false); }
    case Destroy(faceId) =>
      var at := FirstOnFace(s, faceId);
      if at >= 0 {
        if s[at].status == Active {
          StepKeepsOk(w, at, s[at].(faceId := 0, status := Inactive, timedOut := retry), retry, true);
        } else {
          StepKeepsOk(w, at, s[at].(faceId := 0), retry, false);
        }
      }
  }

  /** What is stored after a build: nothing if no neighbour is active; otherwise the active links, unless the
      own LSA is stored already and the counter has run through all 32-bit numbers. */
  lemma BuildTakesHold(r: Router, own: Name, retry: nat, content: seq<Adjacent>)
    requires Numbered(r.run.st, own, r.run.counter) && CanBuild(r, own, retry, content) && Rebuilds(r.watch, retry)
    ensures var links, after := ActiveLinks(r.watch.neighbours), AfterBuild(r, own, retry, content).run;
            && LinksOf(after.st, own) == (if links == {} then None
                                          else if own !in r.run.st.index || r.run.counter + 1 < TWO32 then Some(links)
                                          else LinksOf(r.run.st, own))
            && (r.run.counter + 1 < TWO32 ==> Numbered(after.st, own, after.counter))
  {
    CurrentIsNewer(r.run, own);
  }

  /** What happens to the list leaves the own links alone, and its number the counter's. */
  lemma ListedKeepsOwn(run: Run<seq<Adjacent>>, own: Name, e: LsaLists.Event<seq<Adjacent>>)
    requires Numbered(run.st, own, run.counter) && (e.Arrive? || e.Fire?) && CanHappen(run, own, e)
    ensures var after := After(run, own, e);
            Numbered(after.st, own, after.counter) && LinksOf(after.st, own) == LinksOf(run.st, own)
  {
  }

  /** Every event keeps the invariant, while built numbers are below 2^32. */
  lemma EventKeepsOk(r: Router, own: Name, e: Event, retry: nat)
    requires RouterOk(r, own, retry) && retry >= 1 && Possible(r, own, retry, e)
    requires e.Build? ==> r.run.counter + 1 < TWO32
    ensures RouterOk(Next(r, own, retry, e), own, retry)
  {
    match e
    case Build(content) =>
      if Rebuilds(r.watch, retry) { BuildTakesHold(r, own, retry, content); }
    case Listed(e) => ListedKeepsOwn(r.run, own, e);
    case _ => HeardKeepsOk(r, own, e, retry);
  }

  ghost predicate IsWatchRun(r: Router, own: Name, events: seq<Event>, retry: nat, end: Router)
    decreases |events|
  {
    if events == [] then r == end
    else Possible(r, own, retry, events[0]) && (events[0].Build? ==> r.run.counter + 1 < TWO32)
         && IsWatchRun(Next(r, own, retry, events[0]), own, events[1..], retry, end)
  }

  lemma {:induction false} RunsKeepOk(r: Router, own: Name, events: seq<Event>, retry: nat, end: Router)
    requires RouterOk(r, own, retry) && retry >= 1 && IsWatchRun(r, own, events, retry, end)
    ensures RouterOk(end, own, retry)
    decreases |events|
  {
    if events != [] {
      EventKeepsOk(r, own, events[0], retry);
      RunsKeepOk(Next(r, own, retry, events[0]), own, events[1..], retry, end);
    }
  }

  /** The configured neighbours, none heard from yet. */
  ghost predicate IsFresh(w: Watch) {
    && EachOnce(w.neighbours) && w.count == 0 && !w.scheduled && w.pending == 0
    && forall i :: 0 <= i < |w.neighbours| ==> w.neighbours[i].status == Inactive
  }

  /** In every run: a build event is pending exactly if the flag is set, an outstanding request implies that
      it is, an active neighbour's counter is below the retry number, and with no request outstanding the own
      adjacency LSA in the list reads as exactly the active neighbours, or is absent if there are none. */
  lemma OwnLsaFollowsNeighbours(r: Router, own: Name, events: seq<Event>, retry: nat, end: Router)
    requires IsFresh(r.watch) && own !in r.run.st.index && retry >= 1 && IsWatchRun(r, own, events, retry, end)
    ensures var w, st := end.watch, end.run.st;
            && w.pending == (if w.scheduled then 1 else 0) && (w.count > 0 ==> w.scheduled)
            && (forall n :: n in w.neighbours && n.status == Active ==> n.timedOut < retry)
            && (w.count == 0 && own in st.index ==>
                  forall x :: x in LinksRead(st.index[own].content) <==>
                              exists n :: n in w.neighbours && n.status == Active && x == Adjacency(n.name, n.faceUri, GetLinkCost(n.linkCost)))
            && (w.count == 0 && own in st.index ==> exists n :: n in w.neighbours && n.status == Active)
            && (w.count == 0 && own !in st.index ==> forall n :: n in w.neighbours ==> n.status == Inactive)
  {
    assert ActiveLinks(r.watch.neighbours) == {};
    RunsKeepOk(r, own, events, retry, end);
    if end.watch.count == 0 && own !in end.run.st.index {
      assert forall n :: n in end.watch.neighbours && n.status == Active ==> Link(n) in ActiveLinks(end.watch.neighbours);
    }
  }

  /** A build event that fires with every neighbour decided meets all requests: no event is left, and the own LSA
      lists exactly the active neighbours at once. With one undecided, or nothing requested, the list stays. */
  lemma DueBuildSettles(r: Router, own: Name, retry: nat, content: seq<Adjacent>)
    requires RouterOk(r, own, retry) && Possible(r, own, retry, Event.Build(content)) && r.run.counter + 1 < 0x1_0000_0000
    ensures var w, after := r.watch, Next(r, own, retry, Event.Build(content));
            && after.watch.neighbours == w.neighbours
            && if forall i :: 0 <= i < |w.neighbours| ==> Decided(w.neighbours[i], retry)
               then after.watch.count == 0 && !after.watch.scheduled && after.watch.pending == 0
                    && LinksOf(after.run.st, own) == ListingOf(w.neighbours) && (w.count == 0 ==> after.run == r.run)
               else after.watch.count == w.count && after.watch.scheduled && after.watch.pending == 1 && after.run == r.run
  {
    if Rebuilds(r.watch, retry) { BuildTakesHold(r, own, retry, content); }
  }

  // ----- what the events of a run say about one neighbour -----

  /** The states a run passes through. */
  ghost predicate IsTrace(trace: seq<Router>, own: Name, events: seq<Event>, retry: nat) {
    |trace| == |events| + 1 && forall k :: 0 <= k < |events| ==> Steps(trace[k], own, retry, events[k], trace[k + 1])
  }

  ghost predicate Steps(r: Router, own: Name, retry: nat, e: Event, after: Router) {
    Possible(r, own, retry, e) && Next(r, own, retry, e) == after
  }

  /** The face destroyed is the neighbour's, and no neighbour listed before it has it too. */
  ghost predicate LosesFace(w: Watch, e: Event, i: int) {
    && e.Destroy? && 0 <= i < |w.neighbours| && w.neighbours[i].faceId == e.faceId
    && forall j :: 0 <= j < i ==> w.neighbours[j].faceId != e.faceId
  }

  /** How often the neighbour failed to reply or could not be registered. */
  ghost function MissesOf(events: seq<Event>, name: Name): nat {
    if events == [] then 0
    else
      var last := events[|events| - 1];
      MissesOf(events[..|events| - 1], name) + if last == Miss(name) || last == Refuse(name) then 1 else 0
  }

  /** The neighbour replied at a, not since, and has neither been missed retry times nor lost its face since. */
  ghost predicate StillUp(trace: seq<Router>, events: seq<Event>, i: int, name: Name, retry: nat, a: int)
    requires |trace| == |events| + 1
  {
    && 0 <= a < |events| && events[a] == Answer(name)
    && (forall b :: a < b < |events| ==> events[b] != Answer(name))
    && MissesOf(events[a + 1..], name) < retry
    && forall m :: a < m < |events| ==> !LosesFace(trace[m].watch, events[m], i)
  }

  /** The face the neighbour was last given at a, and has not lost since, nor been given another. */
  ghost predicate StillOn(trace: seq<Router>, events: seq<Event>, i: int, name: Name, face: nat, a: int)
    requires |trace| == |events| + 1
  {
    && 0 <= a < |events| && (events[a] == Event.Register(name, face) || (face == 0 && LosesFace(trace[a].watch, events[a], i)))
    && forall m :: a < m < |events| ==> !(events[m].Register? && events[m].name == name) && !LosesFace(trace[m].watch, events[m], i)
  }

  /** What one event does to one neighbour; every other neighbour stays as it is. */
  lemma NeighbourAfter(r: Router, own: Name, retry: nat, e: Event, i: nat)
    requires EachOnce(r.watch.neighbours) && Possible(r, own, retry, e) && i < |r.watch.neighbours|
    ensures var s, s' := r.watch.neighbours, Next(r, own, retry, e).watch.neighbours;
            && |s'| == |s| && s'[i].name == s[i].name
            && s'[i] == (if e == Miss(s[i].name) || e == Refuse(s[i].name)
                         then s[i].(timedOut := s[i].timedOut + 1, status := if s[i].timedOut + 1 == retry then Inactive else s[i].status)
                         else if e == Answer(s[i].name) then s[i].(status := Active, timedOut := 0)
                         else if e.Register? && e.name == s[i].name then s[i].(faceId := e.faceId)
                         else if LosesFace(r.watch, e, i)
                         then (if s[i].status == Active then s[i].(faceId := 0, status := Inactive, timedOut := retry) else s[i].(faceId := 0))
                         else s[i])
  {
    var s := r.watch.neighbours;
    if e.Miss? || e.Answer? || e.Refuse? || e.Register? {
      var at := IndexOf(s, e.name);
      if at >= 0 { assert s[at].name == e.name; }
    }
    if e.Destroy? {
      var at := FirstOnFace(s, e.faceId);
      if at >= 0 { assert LosesFace(r.watch, e, at); }
    }
  }

  lemma KeepsNames(r: Router, own: Name, retry: nat, e: Event)
    requires EachOnce(r.watch.neighbours) && Possible(r, own, retry, e)
    ensures var s, s' := r.watch.neighbours, Next(r, own, retry, e).watch.neighbours;
            EachOnce(s') && |s'| == |s| && forall i :: 0 <= i < |s| ==> s'[i].name == s[i].name
  {
    var s, s' := r.watch.neighbours, Next(r, own, retry, e).watch.neighbours;
    if |s| > 0 { NeighbourAfter(r, own, retry, e, 0); }
    forall i | 0 <= i < |s|
      ensures |s'| == |s| && s'[i].name == s[i].name
    {
      NeighbourAfter(r, own, retry, e, i);
    }
  }

  /** A build is asked for by exactly the events that change some neighbour's status, and by the refusal that
      reaches the retry number. */
  lemma RequestsExactly(r: Router, own: Name, retry: nat, e: Event)
    requires EachOnce(r.watch.neighbours) && Possible(r, own, retry, e) && !e.Build?
    ensures var w, w' := r.watch, Next(r, own, retry, e).watch;
            && |w'.neighbours| == |w.neighbours|
            && w'.count == w.count + (if (exists i :: 0 <= i < |w.neighbours| && w'.neighbours[i].status != w.neighbours[i].status)
                                         || (exists i :: 0 <= i < |w.neighbours| && e == Refuse(w.neighbours[i].name)
                                                         && w.neighbours[i].timedOut + 1 == retry)
                                      then 1 else 0)
            && (w'.count > w.count ==> w'.scheduled)
  {
    var w, w' := r.watch, Next(r, own, retry, e).watch;
    KeepsNames(r, own, retry, e);
    if e.Miss? || e.Answer? || e.Refuse? {
      var at := IndexOf(w.neighbours, e.name);
      if at >= 0 { StatusOnlyAt(w.neighbours, w'.neighbours, at); }
    } else if e.Destroy? {
      var at := FirstOnFace(w.neighbours, e.faceId);
      if at >= 0 { StatusOnlyAt(w.neighbours, w'.neighbours, at); }
    }
  }

  lemma StatusOnlyAt(s: seq<Neighbour>, s': seq<Neighbour>, at: nat)
    requires at < |s| == |s'| && s' == s[at := s'[at]]
    ensures (exists i :: 0 <= i < |s| && s'[i].status != s[i].status) <==> s'[at].status != s[at].status
  {
  }

  lemma TraceOfPrefix(trace: seq<Router>, own: Name, events: seq<Event>, retry: nat)
    requires IsTrace(trace, own, events, retry) && events != []
    ensures var k := |events| - 1;
            IsTrace(trace[..k + 1], own, events[..k], retry) && Steps(trace[k], own, retry, events[k], trace[k + 1])
  {
    var k := |events| - 1;
    forall j | 0 <= j < k
      ensures Steps(trace[..k + 1][j], own, retry, events[..k][j], trace[..k + 1][j + 1])
    {
      assert Steps(trace[j], own, retry, events[j], trace[j + 1]);
    }
  }

  lemma {:induction false} NamesStay(trace: seq<Router>, own: Name, events: seq<Event>, retry: nat)
    requires IsTrace(trace, own, events, retry) && EachOnce(trace[0].watch.neighbours)
    ensures var s, s' := trace[0].watch.neighbours, trace[|events|].watch.neighbours;
            EachOnce(s') && |s'| == |s| && forall i :: 0 <= i < |s| ==> s'[i].name == s[i].name
    decreases |events|
  {
    if events != [] {
      var k := |events| - 1;
      TraceOfPrefix(trace, own, events, retry);
      NamesStay(trace[..k + 1], own, events[..k], retry);
      KeepsNames(trace[k], own, retry, events[k]);
    }
  }

  /** In every run a neighbour is active exactly if it has replied and has since then neither been missed or refused
      retry times nor lost its face; its counter is then the number of misses since. */
  lemma {:induction false} ActiveExactlyIfHeard(trace: seq<Router>, own: Name, events: seq<Event>, retry: nat, i: nat)
    requires IsTrace(trace, own, events, retry) && IsFresh(trace[0].watch) && retry >= 1
    requires i < |trace[0].watch.neighbours| == |trace[|events|].watch.neighbours|
    ensures var name, n := trace[0].watch.neighbours[i].name, trace[|events|].watch.neighbours[i];
            && (n.status == Active ==> exists a :: StillUp(trace, events, i, name, retry, a))
            && forall a :: StillUp(trace, events, i, name, retry, a) ==> n.status == Active && n.timedOut == MissesOf(events[a + 1..], name)
    decreases |events|
  {
    if events != [] {
      var k, name := |events| - 1, trace[0].watch.neighbours[i].name;
      var init, before := events[..k], trace[..k + 1];
      TraceOfPrefix(trace, own, events, retry);
      NamesStay(before, own, init, retry);
      ActiveExactlyIfHeard(before, own, init, retry, i);
      forall a | StillUp(trace, events, i, name, retry, a)
        ensures CountedSince(trace[k + 1].watch.neighbours[i], events, name, a)
      {
        if a < k {
          StillUpNext(trace, events, i, name, retry, a);
          assert CountedSince(before[k].watch.neighbours[i], init, name, a);
        }
        StaysCounted(trace[k], own, retry, events, name, trace[k + 1], i, a);
      }
      NeighbourAfter(trace[k], own, retry, events[k], i);
      if events[k] == Answer(name) {
        assert StillUp(trace, events, i, name, retry, k);
      } else if trace[k + 1].watch.neighbours[i].status == Active {
        var a :| StillUp(before, init, i, name, retry, a);
        StillUpNext(trace, events, i, name, retry, a);
      }
    }
  }

  ghost predicate CountedSince(n: Neighbour, events: seq<Event>, name: Name, a: int)
    requires 0 <= a < |events|
  {
    n.status == Active && n.timedOut == MissesOf(events[a + 1..], name)
  }

  lemma StaysCounted(r: Router, own: Name, retry: nat, events: seq<Event>, name: Name, after: Router, i: nat, a: nat)
    requires a < |events| && EachOnce(r.watch.neighbours) && i < |r.watch.neighbours| && r.watch.neighbours[i].name == name
    requires var k := |events| - 1;
             && Steps(r, own, retry, events[k], after) && (a < k ==> events[k] != Answer(name) && !LosesFace(r.watch, events[k], i))
             && (if a < k then CountedSince(r.watch.neighbours[i], events[..k], name, a) else events[k] == Answer(name))
    requires MissesOf(events[a + 1..], name) < retry
    ensures i < |after.watch.neighbours| && CountedSince(after.watch.neighbours[i], events, name, a)
  {
    var k := |events| - 1;
    NeighbourAfter(r, own, retry, events[k], i);
    if a < k {
      var rest := events[a + 1..];
      assert rest[..|rest| - 1] == events[..k][a + 1..] && rest[|rest| - 1] == events[k];
    } else {
      assert events[a + 1..] == [];
    }
  }

  /** One more event leaves the neighbour up unless it replied anew, lost its face, or was missed once too often. */
  ghost predicate StaysUp(trace: seq<Router>, events: seq<Event>, i: int, name: Name, retry: nat, a: nat)
    requires |trace| == |events| + 1 && a < |events| - 1
  {
    var k := |events| - 1;
    var more := if events[k] == Miss(name) || events[k] == Refuse(name) then 1 else 0;
    && MissesOf(events[a + 1..], name) == MissesOf(events[..k][a + 1..], name) + more
    && (StillUp(trace, events, i, name, retry, a) <==>
          StillUp(trace[..k + 1], events[..k], i, name, retry, a) && events[k] != Answer(name)
          && !LosesFace(trace[k].watch, events[k], i) && MissesOf(events[..k][a + 1..], name) + more < retry)
  }

  ghost predicate HasAnswered(events: seq<Event>, name: Name) {
    exists a :: 0 <= a < |events| && events[a] == Answer(name)
  }

  lemma HasAnsweredNext(events: seq<Event>, name: Name)
    requires events != []
    ensures var k := |events| - 1; HasAnswered(events, name) <==> HasAnswered(events[..k], name) || events[k] == Answer(name)
  {
    var k := |events| - 1;
    if a :| 0 <= a < |events| && events[a] == Answer(name) {
      assert a < k ==> events[..k][a] == Answer(name);
    }
    if a :| 0 <= a < k && events[..k][a] == Answer(name) {
      assert events[a] == Answer(name);
    }
  }

  /** In every run a neighbour is decided, and no longer holds up a build, exactly if it has ever replied or has been
      missed or refused retry times. */
  lemma {:induction false} DecidedExactly(trace: seq<Router>, own: Name, events: seq<Event>, retry: nat, i: nat)
    requires IsTrace(trace, own, events, retry) && IsFresh(trace[0].watch) && retry >= 1
    requires i < |trace[0].watch.neighbours| == |trace[|events|].watch.neighbours|
    ensures var first, n := trace[0].watch.neighbours[i], trace[|events|].watch.neighbours[i];
            && (Decided(n, retry) <==> HasAnswered(events, first.name) || first.timedOut + MissesOf(events, first.name) >= retry)
            && (!HasAnswered(events, first.name) ==> n.status == Inactive && n.timedOut == first.timedOut + MissesOf(events, first.name))
    decreases |events|
  {
    if events != [] {
      var k := |events| - 1;
      TraceOfPrefix(trace, own, events, retry);
      NamesStay(trace[..k + 1], own, events[..k], retry);
      DecidedExactly(trace[..k + 1], own, events[..k], retry, i);
      NeighbourAfter(trace[k], own, retry, events[k], i);
      HasAnsweredNext(events, trace[0].watch.neighbours[i].name);
    }
  }

  /** In every run a neighbour's face is the one it was last given, or none if it has lost that since, or the
      configured one if neither ever happened. */
  lemma {:induction false} FaceIsLastGiven(trace: seq<Router>, own: Name, events: seq<Event>, retry: nat, i: nat)
    requires IsTrace(trace, own, events, retry) && EachOnce(trace[0].watch.neighbours)
    requires i < |trace[0].watch.neighbours| == |trace[|events|].watch.neighbours|
    ensures var first, n := trace[0].watch.neighbours[i], trace[|events|].watch.neighbours[i];
            && (forall face, a :: StillOn(trace, events, i, first.name, face, a) ==> n.faceId == face)
            && ((forall face, a :: !StillOn(trace, events, i, first.name, face, a)) ==> n.faceId == first.faceId)
    decreases |events|
  {
    if events != [] {
      var k, name := |events| - 1, trace[0].watch.neighbours[i].name;
      var init, before := events[..k], trace[..k + 1];
      TraceOfPrefix(trace, own, events, retry);
      NamesStay(before, own, init, retry);
      FaceIsLastGiven(before, own, init, retry, i);
      NeighbourAfter(trace[k], own, retry, events[k], i);
      forall face, a | 0 <= a < k
        ensures StillOn(trace, events, i, name, face, a) <==>
                StillOn(before, init, i, name, face, a) && !(events[k].Register? && events[k].name == name)
                && !LosesFace(trace[k].watch, events[k], i)
      {
        StillOnNext(trace, events, i, name, face, a);
      }
      if events[k].Register? && events[k].name == name {
        assert StillOn(trace, events, i, name, events[k].faceId, k);
      } else if LosesFace(trace[k].watch, events[k], i) {
        assert StillOn(trace, events, i, name, 0, k);
      }
    }
  }

  lemma StillOnNext(trace: seq<Router>, events: seq<Event>, i: nat, name: Name, face: nat, a: nat)
    requires |trace| == |events| + 1 && a < |events| - 1
    ensures var k := |events| - 1;
            StillOn(trace, events, i, name, face, a) <==>
            StillOn(trace[..k + 1], events[..k], i, name, face, a) && !(events[k].Register? && events[k].name == name)
            && !LosesFace(trace[k].watch, events[k], i)
  {
    var k := |events| - 1;
    var init, before := events[..k], trace[..k + 1];
    assert init[a] == events[a] && before[a] == trace[a];
    if StillOn(trace, events, i, name, face, a) {
      forall m | a < m < |init|
        ensures !(init[m].Register? && init[m].name == name) && !LosesFace(before[m].watch, init[m], i)
      {
        assert init[m] == events[m] && before[m] == trace[m];
      }
    }
    if StillOn(before, init, i, name, face, a) && !(events[k].Register? && events[k].name == name)
       && !LosesFace(trace[k].watch, events[k], i) {
      forall m | a < m < |events|
        ensures !(events[m].Register? && events[m].name == name) && !LosesFace(trace[m].watch, events[m], i)
      {
        if m < k { assert init[m] == events[m] && before[m] == trace[m]; }
      }
    }
  }

  lemma StillUpNext(trace: seq<Router>, events: seq<Event>, i: nat, name: Name, retry: nat, a: nat)
    requires |trace| == |events| + 1 && a < |events| - 1
    ensures StaysUp(trace, events, i, name, retry, a)
  {
    var k := |events| - 1;
    var rest, init, before := events[a + 1..], events[..k], trace[..k + 1];
    assert rest[..|rest| - 1] == init[a + 1..] && rest[|rest| - 1] == events[k];
    if StillUp(trace, events, i, name, retry, a) {
      forall b | a < b < |init|
        ensures init[b] != Answer(name) && !LosesFace(before[b].watch, init[b], i)
      {
        assert init[b] == events[b] && before[b] == trace[b];
      }
    }
    if StillUp(before, init, i, name, retry, a) && events[k] != Answer(name) && !LosesFace(trace[k].watch, events[k], i) {
      forall b | a < b < |events|
        ensures events[b] != Answer(name) && !LosesFace(trace[b].watch, events[b], i)
      {
        if b < k { assert init[b] == events[b] && before[b] == trace[b]; }
      }
    }
  }

  /** k hello interests to the neighbour time out in a row. */
  ghost function MissedTimes(w: Watch, name: Name, retry: nat, k: nat): Watch {
    if k == 0 then w else Missed(MissedTimes(w, name, retry, k - 1), name, retry)
  }

  /** The equality test does not miss: an active neighbour that falls silent is given up on by exactly the
      timeout that reaches the retry number, and a build is then pending. */
  lemma {:induction false} SilentNeighbourIsDropped(w: Watch, at: nat, retry: nat, k: nat)
    requires WatchOk(w, retry) && retry >= 1 && at < |w.neighbours| && w.neighbours[at].status == Active
    requires k <= retry - w.neighbours[at].timedOut
    ensures var after := MissedTimes(w, w.neighbours[at].name, retry, k);
            && WatchOk(after, retry) && |after.neighbours| == |w.neighbours|
            && after.neighbours[at].name == w.neighbours[at].name
            && after.neighbours[at].timedOut == w.neighbours[at].timedOut + k
            && (after.neighbours[at].status == Active <==> k < retry - w.neighbours[at].timedOut)
            && (after.neighbours[at].status == Inactive ==> after.count > 0 && after.pending == 1)
  {
    if k > 0 {
      var name := w.neighbours[at].name;
      SilentNeighbourIsDropped(w, at, retry, k - 1);
      var before := MissedTimes(w, name, retry, k - 1);
      var i := IndexOf(before.neighbours, name);
      StepKeepsOk(before, i, MissedOnce(before.neighbours[i], retry), retry,
                  before.neighbours[i].status == Active && before.neighbours[i].timedOut + 1 == retry);
      assert before.neighbours[i].name == before.neighbours[at].name;
    }
  }

  // ----- the protocol's handlers -----

  lemma NoneActive(s: seq<Neighbour>)
    ensures ActiveLinks(s) == {} <==> forall i :: 0 <= i < |s| ==> s[i].status != Active
  {
    assert forall i :: 0 <= i < |s| && s[i].status == Active ==> s[i] in s && Link(s[i]) in ActiveLinks(s);
  }

  /** The positions of the active neighbours. */
  ghost function ActiveAt(s: seq<Neighbour>): set<nat> {
    set i: nat | i < |s| && s[i].status == Active
  }

  lemma ActiveAtNext(s: seq<Neighbour>, i: nat)
    requires i < |s|
    ensures |ActiveAt(s[..i + 1])| == |ActiveAt(s[..i])| + if s[i].status == Active then 1 else 0
  {
    assert ActiveAt(s[..i + 1]) == ActiveAt(s[..i]) + (if s[i].status == Active then {i} else {});
    assert i !in ActiveAt(s[..i]);
  }

  /** Rebuilding the own LSA withdraws it or counts as a change. */
  ghost predicate Disturbs(run: Run<seq<Adjacent>>, own: Name, links: set<Adjacency>) {
    links == {} || CountsAsNew(run, own, links)
  }

  /** The own LSA has been withdrawn, there being no links, or built from them. */
  ghost predicate IsRebuilt(before: Run<seq<Adjacent>>, own: Name, links: set<Adjacency>, after: Run<seq<Adjacent>>) {
    if links == {} then after == After(before, own, Withdraw)
    else IsBuild(before, own, after) && (NextIsNewer(before, own) ==> LinksRead(after.st.index[own].content) == links)
  }

  /** Whenever a build leaves other links stored than before, it asks for a calculation. */
  lemma ChangesDisturb(before: Run<seq<Adjacent>>, own: Name, links: set<Adjacency>, after: Run<seq<Adjacent>>)
    requires IsRebuilt(before, own, links, after)
    ensures LinksOf(after.st, own) != LinksOf(before.st, own) ==> Disturbs(before, own, links)
  {
  }

  ghost function ContentOf(st: State<seq<Adjacent>>, own: Name): seq<Adjacent> {
    if own in st.index then st.index[own].content else []
  }

  lemma RebuiltIsBuild(r: Router, own: Name, retry: nat, after: Run<seq<Adjacent>>)
    requires r.watch.pending > 0
    requires if Rebuilds(r.watch, retry) then IsRebuilt(r.run, own, ActiveLinks(r.watch.neighbours), after) else after == r.run
    ensures CanBuild(r, own, retry, ContentOf(after.st, own))
    ensures AfterBuild(r, own, retry, ContentOf(after.st, own)) == Router(BuildDue(r.watch, retry), after)
  {
  }

  class HelloProtocol {
    const lsdb: Lsdb
    const retry: nat
    /** The prefixes registered towards every neighbour: sync, LSAs and keys. */
    const sharedPrefixes: seq<Name>
    var neighbours: seq<Neighbour>
    var adjBuildCount: nat
    var isBuildAdjLsaScheduled: bool
    var pendingBuilds: nat

    ghost function State(): Watch
      reads this
    {
      Watch(neighbours, adjBuildCount, isBuildAdjLsaScheduled, pendingBuilds)
    }

    ghost function Together(): Router
      reads this, lsdb.adjLsas, lsdb.seqs
    {
      Router(State(), lsdb.AdjRun())
    }

    /** The stored own LSA's content. */
    ghost function OwnContent(): seq<Adjacent>
      reads lsdb.adjLsas
    {
      ContentOf(lsdb.Adjs(), lsdb.thisRouter)
    }

    constructor (lsdb: Lsdb, retry: nat, sharedPrefixes: seq<Name>, configured: seq<Neighbour>)
      requires EachOnce(configured) && (forall n :: n in configured ==> n.status == Inactive)
      ensures this.lsdb == lsdb && this.retry == retry && this.sharedPrefixes == sharedPrefixes
      ensures neighbours == configured && IsFresh(State())
    {
      this.lsdb := lsdb;
      this.retry := retry;
      this.sharedPrefixes := sharedPrefixes;
      neighbours := configured;
      adjBuildCount := 0;
      isBuildAdjLsaScheduled := false;
      pendingBuilds := 0;
    }

    method FindAdjacent(name: Name) returns (at: int)
      ensures at == IndexOf(neighbours, name)
    {
      at := 0;
      while at < |neighbours| && neighbours[at].name != name
        invariant 0 <= at <= |neighbours|
        invariant IndexOf(neighbours, name) == (var rest := IndexOf(neighbours[at..], name); if rest < 0 then -1 else rest + at)
      {
        at := at + 1;
      }
      if at == |neighbours| {
        at := -1;
      }
    }

    method FindAdjacentOnFace(faceId: nat) returns (at: int)
      ensures at == FirstOnFace(neighbours, faceId)
    {
      at := 0;
      while at < |neighbours| && neighbours[at].faceId != faceId
        invariant 0 <= at <= |neighbours|
        invariant FirstOnFace(neighbours, faceId) == (var rest := FirstOnFace(neighbours[at..], faceId); if rest < 0 then -1 else rest + at)
      {
        at := at + 1;
      }
      if at == |neighbours| {
        at := -1;
      }
    }

    method ScheduleAdjLsaBuild()
      modifies this
      ensures State() == Requested(old(State()))
    {
      adjBuildCount := adjBuildCount + 1;
      if !isBuildAdjLsaScheduled {
        pendingBuilds := pendingBuilds + 1;
        isBuildAdjLsaScheduled := true;
      }
    }

    /** The result says whether another hello interest goes out at once. */
    method ProcessInterestTimedOut(neighbor: Name) returns (resend: bool)
      modifies this
      ensures State() == Missed(old(State()), neighbor, retry)
      ensures resend <==> exists i :: 0 <= i < |neighbours| && i == IndexOf(neighbours, neighbor) && neighbours[i].timedOut < retry
    {
      resend := false;
      var at := FindAdjacent(neighbor);
      if at >= 0 {
        var n := neighbours[at];
        neighbours := neighbours[at := n.(timedOut := n.timedOut + 1)];
        SameIndex(old(neighbours), neighbours, neighbor);
        if n.timedOut + 1 < retry {
          resend := true;
        } else if n.status == Active && n.timedOut + 1 == retry {
          neighbours := neighbours[at := neighbours[at].(status := Inactive)];
          SameIndex(old(neighbours), neighbours, neighbor);
          ScheduleAdjLsaBuild();
        }
      }
    }

    method OnContentValidated(neighbor: Name)
      modifies this
      ensures State() == Answered(old(State()), neighbor)
    {
      var at := FindAdjacent(neighbor);
      if at >= 0 {
        var oldStatus := neighbours[at].status;
        neighbours := neighbours[at := neighbours[at].(status := Active, timedOut := 0)];
        if oldStatus != neighbours[at].status {
          ScheduleAdjLsaBuild();
        }
      }
    }

    /** Records the neighbour's face, registers the shared prefixes over it, and says hello at once. */
    method OnRegistrationSuccess(neighbor: Name, faceId: nat) returns (registered: seq<Command>, hello: bool)
      modifies this
      ensures State() == Registered(old(State()), neighbor, faceId)
      ensures hello == (IndexOf(old(neighbours), neighbor) >= 0)
      ensures |registered| == if hello then |sharedPrefixes| else 0
      ensures forall i :: 0 <= i < |registered| ==>
                var n := old(neighbours)[IndexOf(old(neighbours), neighbor)];
                registered[i] == Command.Register(sharedPrefixes[i], n.faceUri, GetLinkCost(n.linkCost))
    {
      registered, hello := [], false;
      var at := FindAdjacent(neighbor);
      if at >= 0 {
        var n := neighbours[at];
        neighbours := neighbours[at := n.(faceId := faceId)];
        for i := 0 to |sharedPrefixes|
          invariant |registered| == i
          invariant forall k :: 0 <= k < i ==> registered[k] == Command.Register(sharedPrefixes[k], n.faceUri, GetLinkCost(n.linkCost))
        {
          registered := registered + [Command.Register(sharedPrefixes[i], n.faceUri, GetLinkCost(n.linkCost))];
        }
        hello := true;
      }
    }

    method OnRegistrationFailure(name: Name)
      modifies this
      ensures State() == Refused(old(State()), name, retry)
    {
      var at := FindAdjacent(name);
      if at >= 0 {
        var n := neighbours[at];
        neighbours := neighbours[at := n.(timedOut := n.timedOut + 1)];
        if n.timedOut + 1 == retry {
          if n.status == Active {
            neighbours := neighbours[at := neighbours[at].(status := Inactive)];
          }
          ScheduleAdjLsaBuild();
        }
      }
    }

    /** A face was destroyed. */
    method OnFaceEventNotification(faceId: nat)
      modifies this
      ensures State() == Destroyed(old(State()), faceId, retry)
    {
      var at := FindAdjacentOnFace(faceId);
      if at >= 0 {
        neighbours := neighbours[at := neighbours[at].(faceId := 0)];
        if neighbours[at].status == Active {
          neighbours := neighbours[at := neighbours[at].(status := Inactive)];
          neighbours := neighbours[at := neighbours[at].(timedOut := retry)];
          ScheduleAdjLsaBuild();
        }
      }
    }

    method IsAdjLsaBuildable() returns (r: bool)
      ensures r <==> Buildable(neighbours, retry)
    {
      var nbrCount := 0;
      for i := 0 to |neighbours|
        invariant 0 <= nbrCount <= i
        invariant nbrCount == i <==> forall j :: 0 <= j < i ==> Decided(neighbours[j], retry)
      {
        if neighbours[i].status == Active {
          nbrCount := nbrCount + 1;
        } else if neighbours[i].timedOut >= retry {
          nbrCount := nbrCount + 1;
        }
      }
      r := nbrCount == |neighbours|;
    }

    method GetNumOfActiveNeighbor() returns (actNbrCount: nat)
      ensures actNbrCount == |set i: nat | i < |neighbours| && neighbours[i].status == Active|
      ensures actNbrCount > 0 <==> ActiveLinks(neighbours) != {}
    {
      actNbrCount := 0;
      for i := 0 to |neighbours|
        invariant actNbrCount == |ActiveAt(neighbours[..i])|
        invariant actNbrCount == 0 <==> forall j :: 0 <= j < i ==> neighbours[j].status != Active
      {
        ActiveAtNext(neighbours, i);
        if neighbours[i].status == Active {
          actNbrCount := actNbrCount + 1;
        }
      }
      assert neighbours[..|neighbours|] == neighbours;
      NoneActive(neighbours);
    }

    /** The adjacency LSA keeps the active neighbours only. */
    method ActiveAdjacents() returns (links: seq<Adjacent>)
      requires EachOnce(neighbours)
      ensures NoneTwice(links) && LinksRead(links) == ActiveLinks(neighbours)
    {
      var adl := new AdjacencyList([]);
      for i := 0 to |neighbours|
        invariant fresh(adl) && NoneTwice(adl.adjacents) && LinksRead(adl.adjacents) == ActiveLinks(neighbours[..i])
      {
        ActiveLinksSnoc(neighbours, i);
        if neighbours[i].status == Active {
          ghost var so := adl.adjacents;
          var r := adl.Insert(AsAdjacent(neighbours[i]));
          assert adl.adjacents == so + [AsAdjacent(neighbours[i])];
        }
      }
      assert neighbours[..|neighbours|] == neighbours;
      links := adl.adjacents;
    }

    /** The build event fires. A calculation is asked for if the own LSA is withdrawn or counts as changed. */
    method BuildAdjLsa()
      requires EachOnce(neighbours) && pendingBuilds > 0
      requires lsdb.Valid() && lsdb.seqs.Valid()
      modifies this, lsdb`published, lsdb.adjLsas, lsdb.npt, lsdb.npt.fib, lsdb.seqs, lsdb.due
      ensures lsdb.Valid() && lsdb.seqs.Valid()
      ensures CanBuild(old(Together()), lsdb.thisRouter, retry, OwnContent())
      ensures Together() == AfterBuild(old(Together()), lsdb.thisRouter, retry, OwnContent())
      ensures lsdb.seqs.State() == old(lsdb.seqs.State()).(adj := lsdb.seqs.adjLsaSeq)
      ensures KeepsGrowing(old(lsdb.published), old(lsdb.seqs.State()), lsdb.published, lsdb.seqs.State())
      ensures lsdb.due.isRouteCalculationScheduled <==>
                old(lsdb.due.isRouteCalculationScheduled) || (Rebuilds(old(State()), retry)
                    && Disturbs(old(lsdb.AdjRun()), lsdb.thisRouter, ActiveLinks(neighbours)))
      ensures LinksOf(lsdb.Adjs(), lsdb.thisRouter) != old(LinksOf(lsdb.Adjs(), lsdb.thisRouter)) ==> lsdb.due.isRouteCalculationScheduled
    {
      ghost var before := Together();
      var buildable := TakeBuildEvent();
      if buildable {
        BuildIfRequested(lsdb.AdjRun());
      }
      RebuiltIsBuild(before, lsdb.thisRouter, retry, lsdb.AdjRun());
      if Rebuilds(before.watch, retry) {
        ChangesDisturb(before.run, lsdb.thisRouter, ActiveLinks(neighbours), lsdb.AdjRun());
      }
    }

    /** The event is spent; while a neighbour is undecided, another is scheduled in its place. */
    method TakeBuildEvent() returns (buildable: bool)
      requires pendingBuilds > 0
      modifies this`pendingBuilds, this`isBuildAdjLsaScheduled
      ensures buildable <==> Buildable(neighbours, retry)
      ensures isBuildAdjLsaScheduled == !buildable && pendingBuilds == old(pendingBuilds) - if buildable then 1 else 0
    {
      pendingBuilds := pendingBuilds - 1;
      isBuildAdjLsaScheduled := false;
      buildable := IsAdjLsaBuildable();
      if !buildable {
        isBuildAdjLsaScheduled := true;
        pendingBuilds := pendingBuilds + 1;
      }
    }

    method BuildIfRequested(ghost before: Run<seq<Adjacent>>)
      requires EachOnce(neighbours) && before == lsdb.AdjRun()
      requires lsdb.Valid() && lsdb.seqs.Valid()
      modifies this`adjBuildCount, lsdb`published, lsdb.adjLsas, lsdb.npt, lsdb.npt.fib, lsdb.seqs, lsdb.due
      ensures lsdb.Valid() && lsdb.seqs.Valid() && adjBuildCount == 0
      ensures if old(adjBuildCount) == 0 then lsdb.AdjRun() == before
              else IsRebuilt(before, lsdb.thisRouter, ActiveLinks(neighbours), lsdb.AdjRun())
      ensures lsdb.seqs.State() == old(lsdb.seqs.State()).(adj := lsdb.seqs.adjLsaSeq)
      ensures KeepsGrowing(old(lsdb.published), old(lsdb.seqs.State()), lsdb.published, lsdb.seqs.State())
      ensures lsdb.due.isRouteCalculationScheduled <==>
                old(lsdb.due.isRouteCalculationScheduled)
                || (old(adjBuildCount) > 0 && Disturbs(before, lsdb.thisRouter, ActiveLinks(neighbours)))
    {
      var count := adjBuildCount;
      if count > 0 {
        RebuildOwnLsa(before);
        adjBuildCount := adjBuildCount - count;
      }
    }

    method RebuildOwnLsa(ghost before: Run<seq<Adjacent>>)
      requires EachOnce(neighbours) && before == lsdb.AdjRun()
      requires lsdb.Valid() && lsdb.seqs.Valid()
      modifies lsdb`published, lsdb.adjLsas, lsdb.npt, lsdb.npt.fib, lsdb.seqs, lsdb.due
      ensures lsdb.Valid() && lsdb.seqs.Valid()
      ensures IsRebuilt(before, lsdb.thisRouter, ActiveLinks(neighbours), lsdb.AdjRun())
      ensures lsdb.seqs.State() == old(lsdb.seqs.State()).(adj := lsdb.seqs.adjLsaSeq)
      ensures KeepsGrowing(old(lsdb.published), old(lsdb.seqs.State()), lsdb.published, lsdb.seqs.State())
      ensures lsdb.due.isRouteCalculationScheduled <==>
                old(lsdb.due.isRouteCalculationScheduled) || Disturbs(before, lsdb.thisRouter, ActiveLinks(neighbours))
    {
      var active := GetNumOfActiveNeighbor();
      if active > 0 {
        BuildFromActive(before);
      } else {
        WithdrawOwnLsa(before);
      }
    }

    method BuildFromActive(ghost before: Run<seq<Adjacent>>)
      requires EachOnce(neighbours) && ActiveLinks(neighbours) != {} && before == lsdb.AdjRun()
      requires lsdb.Valid() && lsdb.seqs.Valid()
      modifies lsdb`published, lsdb.adjLsas, lsdb.npt, lsdb.npt.fib, lsdb.seqs, lsdb.due
      ensures lsdb.Valid() && lsdb.seqs.Valid()
      ensures IsRebuilt(before, lsdb.thisRouter, ActiveLinks(neighbours), lsdb.AdjRun())
      ensures lsdb.seqs.State() == old(lsdb.seqs.State()).(adj := lsdb.seqs.adjLsaSeq)
      ensures KeepsGrowing(old(lsdb.published), old(lsdb.seqs.State()), lsdb.published, lsdb.seqs.State())
      ensures lsdb.due.isRouteCalculationScheduled <==>
                old(lsdb.due.isRouteCalculationScheduled) || Disturbs(before, lsdb.thisRouter, ActiveLinks(neighbours))
    {
      var links := ActiveAdjacents();
      lsdb.BuildAndInstallOwnAdjLsa(links);
    }

    method WithdrawOwnLsa(ghost before: Run<seq<Adjacent>>)
      requires lsdb.Valid() && lsdb.seqs.Valid() && before == lsdb.AdjRun()
      modifies lsdb.adjLsas, lsdb.npt, lsdb.npt.fib, lsdb.due
      ensures lsdb.Valid()
      ensures IsRebuilt(before, lsdb.thisRouter, {}, lsdb.AdjRun())
      ensures lsdb.due.isRouteCalculationScheduled
    {
      lsdb.RemoveAdjLsa(lsdb.thisRouter);
      lsdb.due.ScheduleRoutingTableCalculation();
    }
  }

  lemma SameIndex(a: seq<Neighbour>, b: seq<Neighbour>, name: Name)
    requires |a| == |b| && forall i :: 0 <= i < |a| ==> a[i].name == b[i].name
    ensures IndexOf(a, name) == IndexOf(b, name)
  {
  }

  lemma ActiveLinksSnoc(s: seq<Neighbour>, i: nat)
    requires EachOnce(s) && i < |s|
    ensures ActiveLinks(s[..i + 1]) == ActiveLinks(s[..i]) + (if s[i].status == Active then {Link(s[i])} else {})
    ensures forall x :: x in ActiveLinks(s[..i]) ==> x.name != s[i].name
  {
    assert s[..i + 1] == s[..i] + [s[i]];
  }
}
