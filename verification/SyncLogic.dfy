/** The sync node itself: a full state with a memoised digest, and a log of differential states held
    by digest and chained on the heap (nsync/sync-logic.cc). The order in which loops visit leaves is left
    open. */
module SyncLogic {
  import opened Names
  import opened SyncStates
  import opened SyncNodes

  /** One record of a sync message; DELETE is a Remove leaf. */
  datatype Item = Item(name: Name, leaf: Leaf)
  type Message = seq<Item>

  /** What a message says: a later record for a name replaces an earlier one. */
  ghost function Decoded(msg: Message): Changes {
    if msg == [] then map[] else Decoded(msg[..|msg| - 1])[msg[|msg| - 1].name := msg[|msg| - 1].leaf]
  }

  /** The part of c whose names are no longer to do. */
  ghost function Done(c: Changes, todo: set<Name>): Changes {
    map n | n in c && n !in todo :: c[n]
  }

  lemma DoneAll(c: Changes)
    ensures Done(c, {}) == c && Done(c, c.Keys) == map[]
  {
  }

  lemma DoneOne(c: Changes, todo: set<Name>, n: Name)
    requires todo <= c.Keys && n in todo
    ensures Done(c, todo - {n}) == Done(c, todo)[n := c[n]]
  {
  }

  class FullState {
    var leaves: Leaves
    var digest: Option<Digest>

    ghost predicate Valid()
      reads this
    {
      digest.Some? ==> digest.value == RootDigest(leaves)
    }

    constructor ()
      ensures Valid() && leaves == map[]
    {
      leaves := map[];
      digest := None;
    }

    method GetDigest() returns (d: Digest)
      requires Valid()
      modifies this`digest
      ensures Valid() && d == RootDigest(leaves)
    {
      if digest.None? {
        digest := Some(RootDigest(leaves));
      }
      d := digest.value;
    }

    method Update(n: Name, no: SeqNo) returns (inserted: bool, updated: bool, oldNo: Option<SeqNo>)
      modifies this
      ensures Valid() && leaves == MergeLeaf(old(leaves), n, no)
      ensures inserted <==> n !in old(leaves)
      ensures updated <==> n in old(leaves) && old(leaves)[n].Less(no)
      ensures oldNo == if updated then Some(old(leaves)[n]) else None
    {
      digest := None;
      if n !in leaves {
        leaves := leaves[n := no];
        return true, false, None;
      }
      if leaves[n] == no || no.Less(leaves[n]) {
        return false, false, None;
      }
      oldNo := Some(leaves[n]);
      leaves := leaves[n := no];
      return false, true, oldNo;
    }

    method Remove(n: Name) returns (removed: bool)
      modifies this
      ensures Valid() && leaves == old(leaves) - {n}
      ensures removed <==> n in old(leaves)
    {
      digest := None;
      removed := n in leaves;
      leaves := leaves - {n};
    }
  }

  class DiffState {
    var leaves: Changes
    var next: DiffState?
    var digest: Digest

    constructor ()
      ensures leaves == map[] && next == null
    {
      leaves := map[];
      next := null;
      digest := Zero;
    }

    method Update(n: Name, no: SeqNo)
      modifies this`leaves
      ensures leaves == old(leaves)[n := Leaf.Update(no)]
    {
      leaves := leaves - {n};
      leaves := leaves[n := Leaf.Update(no)];
    }

    method Remove(n: Name)
      modifies this`leaves
      ensures leaves == old(leaves)[n := Leaf.Remove]
    {
      leaves := leaves - {n};
      leaves := leaves[n := Leaf.Remove];
    }

    /** operator +=: on a collision the other state's leaf wins. */
    method Add(other: DiffState)
      requires other != this
      modifies this`leaves
      ensures leaves == old(leaves) + other.leaves
    {
      var todo := other.leaves.Keys;
      DoneAll(other.leaves);
      while todo != {}
        invariant todo <= other.leaves.Keys
        invariant leaves == old(leaves) + Done(other.leaves, todo)
      {
        var n :| n in todo;
        DoneOne(other.leaves, todo, n);
        match other.leaves[n] {
          case Update(no) => Update(n, no);
          case Remove => Remove(n);
        }
        todo := todo - {n};
      }
    }

    /** Accumulates the differences of all successors, which the ghost argument lists in order. */
    method Diff(ghost tail: seq<DiffState>) returns (ret: DiffState)
      requires IsChain([this] + tail)
      ensures fresh(ret) && ret.next == null
      ensures ret.leaves == Composed(LeavesOf(tail))
    {
      ret := new DiffState();
      var state := next;
      ghost var i := 0;
      ghost var all := [this] + tail;
      assert all[0] == this;
      assert all[0].next == if 0 + 1 < |all| then all[1] else null;
      while state != null
        invariant i <= |tail| && ret.next == null
        invariant state == if i + 1 < |all| then all[i + 1] else null
        invariant ret.leaves == Composed(LeavesOf(tail)[..i])
        decreases |tail| - i
      {
        assert all[i + 1] == tail[i] && LeavesOf(tail)[i] == state.leaves;
        assert LeavesOf(tail)[..i + 1][..i] == LeavesOf(tail)[..i];
        ret.Add(state);
        assert all[i + 1].next == if i + 2 < |all| then all[i + 2] else null;
        state := state.next;
        i := i + 1;
      }
      assert LeavesOf(tail)[..i] == LeavesOf(tail);
    }
  }

  ghost predicate IsChain(nodes: seq<DiffState>)
    reads nodes
  {
    forall i {:trigger nodes[i].next} :: 0 <= i < |nodes| ==> nodes[i].next == if i + 1 < |nodes| then nodes[i + 1] else null
  }

  ghost function LeavesOf(nodes: seq<DiffState>): (cs: seq<Changes>)
    reads nodes
    ensures |cs| == |nodes| && forall i :: 0 <= i < |nodes| ==> cs[i] == nodes[i].leaves
  {
    seq(|nodes|, i requires 0 <= i < |nodes| reads nodes => nodes[i].leaves)
  }

  // ----- messages -----

  method Encode(c: Changes) returns (msg: Message)
    ensures Decoded(msg) == c && |msg| == |c|
  {
    msg := [];
    var todo := c.Keys;
    DoneAll(c);
    while todo != {}
      invariant todo <= c.Keys && Decoded(msg) == Done(c, todo) && |msg| + |todo| == |c|
    {
      var n :| n in todo;
      DoneOne(c, todo, n);
      ghost var before := msg;
      msg := msg + [Item(n, c[n])];
      assert msg[..|before|] == before;
      todo := todo - {n};
    }
  }

  /** A full state is sent as an update of every leaf. */
  method EncodeFull(l: Leaves) returns (msg: Message)
    ensures Decoded(msg) == AllUpdates(l) && |msg| == |l|
  {
    var c: Changes := map n | n in l :: Update(l[n]);
    assert c == AllUpdates(l) && c.Keys == l.Keys;
    assert |c.Keys| == |l.Keys|;
    msg := Encode(c);
  }

  method Decode(msg: Message) returns (diff: DiffState)
    ensures fresh(diff) && diff.next == null && diff.leaves == Decoded(msg)
  {
    diff := new DiffState();
    for i := 0 to |msg|
      invariant diff.next == null && diff.leaves == Decoded(msg[..i])
    {
      assert msg[..i + 1][..i] == msg[..i];
      match msg[i].leaf {
        case Update(no) => diff.Update(msg[i].name, no);
        case Remove => diff.Remove(msg[i].name);
      }
    }
    assert msg[..|msg|] == msg;
  }

  // ----- the node -----

  datatype Pending = Pending(digest: Digest, unknown: bool)

  /** A data packet sent for a pending interest. */
  datatype Sent = Sent(name: string, digest: Digest, msg: Message)

  datatype Reply = Data(msg: Message) | Pended | Delayed | Recovering

  /** The digest of the state after some entry. */
  ghost predicate Known(n: Node, d: Digest) {
    exists k :: 0 <= k < |n.steps| && RootDigest(n.steps[k].after) == d
  }

  /** A message that turns the state of that digest into the current one. */
  ghost predicate BringsUpToDate(n: Node, d: Digest, msg: Message) {
    exists k: nat :: k < |n.steps| && RootDigest(n.steps[k].after) == d && Decoded(msg) == Composed(ChangesFrom(n, k + 1))
  }

  /** For a lawful node such a message is exact: whoever is in the state of that digest ends, by
      overriding, in the responder's state. */
  lemma BroughtUpToDate(n: Node, d: Digest, msg: Message, asked: Leaves)
    requires Lawful(n) && BringsUpToDate(n, d, msg) && RootDigest(asked) == d
    ensures Apply(asked, Decoded(msg)) == n.leaves
  {
    var k: nat :| k < |n.steps| && RootDigest(n.steps[k].after) == d && Decoded(msg) == Composed(ChangesFrom(n, k + 1));
    EqualDigestsEqualStates(asked, n.steps[k].after);
    DifferencesCompose(n, k + 1);
  }

  /** The gaps reported for received changes: one for each name whose update takes effect, except the
      forwarder's. */
  ghost predicate Reports(missing: seq<Missing>, l: Leaves, c: Changes) {
    && (forall i, j :: 0 <= i < j < |missing| ==> missing[i].name != missing[j].name)
    && (forall m :: m in missing ==> m.name != FORWARDER && GapsReported(l, c, m.name) == [m])
    && forall n :: n in c && n != FORWARDER && GapsReported(l, c, n) != [] ==> GapsReported(l, c, n)[0] in missing
  }

  /** A gap is reported for a name exactly if it is not the forwarder's and was updated to a number of a later session
      than the one held, or a larger one of the same, or none was held. It reaches from the number after the one
      held, or 0 of the same session, to the new one. */
  lemma ReportedExactly(missing: seq<Missing>, l: Leaves, c: Changes, n: Name)
    requires Reports(missing, l, c)
    ensures (exists i :: 0 <= i < |missing| && missing[i].name == n) <==>
              n != FORWARDER && n in c && c[n].Update?
              && (n in l ==> l[n].session < c[n].no.session || (l[n].session == c[n].no.session && l[n].number < c[n].no.number))
    ensures forall i :: 0 <= i < |missing| && missing[i].name == n ==>
              && missing[i].high == c[n].no
              && missing[i].low == if n in l then SeqNo(l[n].session, l[n].number + 1) else SeqNo(c[n].no.session, 0)
  {
    if n != FORWARDER && n in c && GapsReported(l, c, n) != [] {
      assert GapsReported(l, c, n)[0] in missing;
    }
    forall i | 0 <= i < |missing| && missing[i].name == n
      ensures n != FORWARDER && GapsReported(l, c, n) == [missing[i]]
    {
      assert missing[i] in missing;
    }
  }

  /** Which entries the log still holds, newest first: one for each digest ever logged. */
  ghost predicate Holds(steps: seq<Step>, at: seq<nat>) {
    && (forall j :: 0 <= j < |at| ==> at[j] < |steps|)
    && (forall i, j :: 0 <= i < j < |at| ==> DigestAt(steps, at[i]) != DigestAt(steps, at[j]))
    && (forall k: nat :: k < |steps| ==> HoldsDigest(steps, at, DigestAt(steps, k)))
    && (steps != [] ==> at != [] && at[0] == |steps| - 1)
  }

  ghost function DigestAt(steps: seq<Step>, k: nat): Digest {
    if k < |steps| then RootDigest(steps[k].after) else Zero
  }

  ghost predicate HoldsDigest(steps: seq<Step>, at: seq<nat>, d: Digest) {
    exists j :: 0 <= j < |at| && DigestAt(steps, at[j]) == d
  }

  function Without<T>(s: seq<T>, j: int): (r: seq<T>)
    requires -1 <= j < |s|
    ensures |r| == if j == -1 then |s| else |s| - 1
    ensures forall i :: 0 <= i < |r| ==> r[i] == s[if j == -1 || i < j then i else i + 1]
  {
    if j == -1 then s else s[..j] + s[j + 1..]
  }

  /** The log is the entries of the history at the given positions. */
  ghost predicate Picks(log: seq<DiffState>, history: seq<DiffState>, at: seq<nat>) {
    |log| == |at| && forall j :: 0 <= j < |log| ==> at[j] < |history| && log[j] == history[at[j]]
  }

  lemma PicksNext(log: seq<DiffState>, history: seq<DiffState>, at: seq<nat>, j: int, d: DiffState)
    requires Picks(log, history, at) && -1 <= j < |log|
    ensures Picks([d] + Without(log, j), history + [d], [|history|] + Without(at, j))
  {
  }

  /** Logging a new entry: the entry of the same digest, if any, gives way to it. */
  lemma HoldsNext(steps: seq<Step>, at: seq<nat>, s: Step, j: int)
    requires Holds(steps, at) && -1 <= j < |at|
    requires if j == -1 then !HoldsDigest(steps, at, RootDigest(s.after)) else DigestAt(steps, at[j]) == RootDigest(s.after)
    ensures Holds(steps + [s], [|steps|] + Without(at, j))
  {
    var rest, after := Without(at, j), steps + [s];
    var next := [|steps|] + rest;
    WithoutDistinct(steps, at, s, j);
    forall i | 0 <= i < |rest|
      ensures rest[i] < |steps| && DigestAt(after, rest[i]) != RootDigest(s.after)
    {
      RestDiffers(steps, at, s, j, i);
    }
    forall k: nat | k < |after|
      ensures HoldsDigest(after, next, DigestAt(after, k))
    {
      HeldNext(steps, at, s, j, k);
    }
  }

  lemma RestDiffers(steps: seq<Step>, at: seq<nat>, s: Step, j: int, i: nat)
    requires Holds(steps, at) && -1 <= j < |at| && i < |Without(at, j)|
    requires if j == -1 then !HoldsDigest(steps, at, RootDigest(s.after)) else DigestAt(steps, at[j]) == RootDigest(s.after)
    ensures Without(at, j)[i] < |steps| && DigestAt(steps + [s], Without(at, j)[i]) != RootDigest(s.after)
  {
    var i' := if j == -1 || i < j then i else i + 1;
    assert at[i'] < |steps| && DigestAt(steps + [s], at[i']) == DigestAt(steps, at[i']);
    if j != -1 { assert DigestAt(steps, at[i']) != DigestAt(steps, at[j]); }
  }

  lemma HeldNext(steps: seq<Step>, at: seq<nat>, s: Step, j: int, k: nat)
    requires Holds(steps, at) && -1 <= j < |at| && k <= |steps|
    requires if j == -1 then !HoldsDigest(steps, at, RootDigest(s.after)) else DigestAt(steps, at[j]) == RootDigest(s.after)
    ensures HoldsDigest(steps + [s], [|steps|] + Without(at, j), DigestAt(steps + [s], k))
  {
    var after, next := steps + [s], [|steps|] + Without(at, j);
    if DigestAt(after, k) == RootDigest(s.after) {
      assert DigestAt(after, next[0]) == RootDigest(s.after);
    } else {
      assert DigestAt(after, k) == DigestAt(steps, k);
      HeldStays(steps, at, s, j, DigestAt(steps, k));
    }
  }

  lemma HeldStays(steps: seq<Step>, at: seq<nat>, s: Step, j: int, d: Digest)
    requires Holds(steps, at) && -1 <= j < |at| && HoldsDigest(steps, at, d) && d != RootDigest(s.after)
    requires j != -1 ==> DigestAt(steps, at[j]) == RootDigest(s.after)
    ensures HoldsDigest(steps + [s], [|steps|] + Without(at, j), d)
  {
    var after, next := steps + [s], [|steps|] + Without(at, j);
    var i :| 0 <= i < |at| && DigestAt(steps, at[i]) == d;
    var i' := if j == -1 || i < j then i + 1 else i;
    assert next[i'] == at[i];
    assert DigestAt(after, next[i']) == d;
  }

  lemma WithoutDistinct(steps: seq<Step>, at: seq<nat>, s: Step, j: int)
    requires Holds(steps, at) && -1 <= j < |at|
    ensures var rest := Without(at, j);
            forall x, y :: 0 <= x < y < |rest| ==> DigestAt(steps + [s], rest[x]) != DigestAt(steps + [s], rest[y])
  {
    var rest := Without(at, j);
    forall x, y | 0 <= x < y < |rest|
      ensures DigestAt(steps + [s], rest[x]) != DigestAt(steps + [s], rest[y])
    {
      var x' := if j == -1 || x < j then x else x + 1;
      var y' := if j == -1 || y < j then y else y + 1;
      assert rest[x] == at[x'] && rest[y] == at[y'];
      assert DigestAt(steps, at[x']) != DigestAt(steps, at[y']);
    }
  }

  /** The history's objects carry the changes and digests of the steps. */
  ghost predicate Matches(history: seq<DiffState>, steps: seq<Step>)
    reads history
  {
    && |history| == |steps|
    && (forall i, j :: 0 <= i < j < |history| ==> history[i] != history[j])
    && forall i :: 0 <= i < |history| ==> history[i].leaves == steps[i].changes && history[i].digest == RootDigest(steps[i].after)
  }

  lemma MatchesNext(history: seq<DiffState>, steps: seq<Step>, d: DiffState, s: Step)
    requires Matches(history, steps) && d !in history && d.leaves == s.changes && d.digest == RootDigest(s.after)
    ensures Matches(history + [d], steps + [s])
  {
  }

  class SyncNode {
    const state: FullState
    /** Newest first; at most one entry per digest. */
    var log: seq<DiffState>
    var pit: map<string, Pending>

    /** Every differential state ever logged, oldest first, what each stood for, and which of them the
        log still holds. */
    ghost var history: seq<DiffState>
    ghost var steps: seq<Step>
    ghost var at: seq<nat>

    ghost predicate ValidEntries()
      reads this, history
    {
      && Matches(history, steps)
      && Holds(steps, at)
      && Picks(log, history, at)
    }

    ghost predicate ValidLog()
      reads this, history
    {
      ValidEntries() && IsChain(history)
    }

    ghost predicate Valid()
      reads this, state, history
    {
      state.Valid() && ValidLog() && state.leaves == Before(View(), |steps|)
    }

    ghost function View(): Node
      reads this, state
    {
      Node(state.leaves, steps)
    }

    constructor ()
      ensures Valid() && View() == INITIAL && pit == map[]
    {
      state := new FullState();
      log := [];
      pit := map[];
      history := [];
      steps := [];
      at := [];
    }

    method FindInLog(d: Digest) returns (j: int)
      requires ValidEntries()
      ensures -1 <= j < |log|
      ensures j == -1 ==> !HoldsDigest(steps, at, d)
      ensures j != -1 ==> DigestAt(steps, at[j]) == d && log[j] == history[at[j]]
      ensures j == -1 <==> !Known(Node(state.leaves, steps), d)
    {
      j := 0;
      while j < |log| && log[j].digest != d
        invariant 0 <= j <= |log|
        invariant forall i :: 0 <= i < j ==> DigestAt(steps, at[i]) != d
      {
        assert log[j] == history[at[j]];
        j := j + 1;
      }
      if j == |log| {
        j := -1;
        forall k | 0 <= k < |steps|
          ensures RootDigest(steps[k].after) != d
        {
          assert HoldsDigest(steps, at, DigestAt(steps, k));
        }
      } else {
        assert RootDigest(steps[at[j]].after) == d;
      }
    }

    /** Enters a new differential state for the current full state. The entry logged before points to it;
        an entry for the same digest leaves the log but stays in the chain. */
    method InsertToDiffLog(diffLog: DiffState)
      requires state.Valid() && ValidLog() && diffLog !in history && diffLog.next == null
      modifies this, state`digest, history, diffLog`digest
      ensures state.Valid() && ValidLog() && state.leaves == old(state.leaves)
      ensures steps == old(steps) + [Step(old(diffLog.leaves), state.leaves)] && history == old(history) + [diffLog]
      ensures pit == old(pit)
    {
      diffLog.digest := state.GetDigest();
      LinkFront(diffLog);
      PushFront(diffLog);
    }

    method PushFront(diffLog: DiffState)
      requires ValidEntries() && IsChain(history + [diffLog]) && diffLog !in history
      requires diffLog.digest == RootDigest(state.leaves)
      modifies this
      ensures ValidLog() && history == old(history) + [diffLog]
      ensures steps == old(steps) + [Step(diffLog.leaves, state.leaves)] && pit == old(pit)
    {
      var j := FindInLog(diffLog.digest);
      ghost var s := Step(diffLog.leaves, state.leaves);
      HoldsNext(steps, at, s, j);
      PicksNext(log, history, at, j, diffLog);
      MatchesNext(history, steps, diffLog, s);
      Insert(diffLog, j, s);
    }

    method Insert(diffLog: DiffState, j: int, ghost s: Step)
      requires -1 <= j < |log| && |at| == |log|
      requires Matches(history + [diffLog], steps + [s]) && IsChain(history + [diffLog])
      requires Holds(steps + [s], [|history|] + Without(at, j))
      requires Picks([diffLog] + Without(log, j), history + [diffLog], [|history|] + Without(at, j))
      modifies this`log, this`at, this`steps, this`history
      ensures ValidLog() && history == old(history) + [diffLog] && steps == old(steps) + [s]
    {
      ghost var n := |history|;
      log, at, steps, history := [diffLog] + Without(log, j), [n] + Without(at, j), steps + [s], history + [diffLog];
    }

    /** The newest entry, which the log always holds at the front, gets its successor. */
    method LinkFront(diffLog: DiffState)
      requires ValidLog() && diffLog !in history && diffLog.next == null
      modifies history
      ensures ValidEntries() && IsChain(history + [diffLog])
      ensures diffLog.next == null && diffLog.leaves == old(diffLog.leaves) && diffLog.digest == old(diffLog.digest)
    {
      ghost var n := |history|;
      if |log| > 0 {
        assert log[0] == history[n - 1];
        log[0].next := diffLog;
      }
      forall i | 0 <= i <= n
        ensures (history + [diffLog])[i].next == if i < n then (history + [diffLog])[i + 1] else null
      {
        if i < n - 1 { assert history[i] != history[n - 1]; }
      }
    }

    /** Accumulates everything logged after the j-th log entry. */
    method DiffFrom(j: nat) returns (msg: Message)
      requires ValidLog() && j < |log|
      ensures Decoded(msg) == Composed(ChangesFrom(Node(state.leaves, steps), at[j] + 1))
    {
      ghost var k := at[j];
      ghost var tail := history[k + 1..];
      ChainSuffix(history, k);
      TailChanges(history, steps, state.leaves, k + 1);
      var diff := log[j].Diff(tail);
      msg := Encode(diff.leaves);
    }

    method AnswerFromLog(digest: Digest) returns (msg: Option<Message>)
      requires ValidLog()
      ensures msg.Some? <==> Known(View(), digest)
      ensures msg.Some? ==> BringsUpToDate(View(), digest, msg.value)
    {
      var j := FindInLog(digest);
      if j == -1 {
        return None;
      }
      var difference := DiffFrom(j);
      assert RootDigest(steps[at[j]].after) == digest;
      return Some(difference);
    }

    /** An interest for the zero digest gets the whole state; for the current digest it waits; for a digest
        the node has ever been in it gets exactly the difference; otherwise it waits a while for others to
        answer, and then recovery is started. */
    method ProcessSyncInterest(name: string, digest: Digest, timedProcessing: bool) returns (reply: Reply)
      requires Valid()
      modifies this`pit, state`digest
      ensures Valid() && View() == old(View()) && history == old(history)
      ensures digest == Zero && state.leaves != map[] ==>
                reply.Data? && Decoded(reply.msg) == AllUpdates(state.leaves) && pit == old(pit)
      ensures digest == RootDigest(state.leaves) ==> reply.Pended? && pit == old(pit)[name := Pending(digest, false)]
      ensures digest != RootDigest(state.leaves) && digest != Zero && Known(View(), digest) ==>
                reply.Data? && BringsUpToDate(View(), digest, reply.msg) && pit == old(pit)
      ensures digest != RootDigest(state.leaves) && digest != Zero && !Known(View(), digest) ==>
                if timedProcessing then reply.Recovering? && pit == old(pit)
                else reply.Delayed? && pit == old(pit)[name := Pending(digest, true)]
    {
      var rootDigest := state.GetDigest();
      if digest == Zero && rootDigest != Zero {
        var msg := EncodeFull(state.leaves);
        return Data(msg);
      }
      if rootDigest == digest {
        pit := pit[name := Pending(digest, false)];
        return Pended;
      }
      reply := AnswerOrWait(name, digest, timedProcessing);
    }

    method AnswerOrWait(name: string, digest: Digest, timedProcessing: bool) returns (reply: Reply)
      requires ValidLog()
      modifies this`pit
      ensures ValidLog() && View() == old(View())
      ensures Known(View(), digest) ==> reply.Data? && BringsUpToDate(View(), digest, reply.msg) && pit == old(pit)
      ensures !Known(View(), digest) ==>
                if timedProcessing then reply.Recovering? && pit == old(pit)
                else reply.Delayed? && pit == old(pit)[name := Pending(digest, true)]
    {
      var difference := AnswerFromLog(digest);
      if difference.Some? {
        return Data(difference.value);
      }
      if !timedProcessing {
        pit := pit[name := Pending(digest, true)];
        return Delayed;
      }
      return Recovering;
    }

    /** A recovery interest for a digest the node has been in is answered with the whole state. */
    method ProcessSyncRecoveryInterest(digest: Digest) returns (reply: Option<Message>)
      requires Valid()
      ensures reply.Some? <==> Known(View(), digest)
      ensures reply.Some? ==> Decoded(reply.value) == AllUpdates(state.leaves)
    {
      var j := FindInLog(digest);
      if j == -1 {
        return None;
      }
      var msg := EncodeFull(state.leaves);
      return Some(msg);
    }

    /** Merges a received differential state leaf by leaf, logs what had an effect, and reports the gaps.
        A message that does not parse changes nothing but the pending interests. */
    method ProcessSyncData(name: string, wire: Option<Message>) returns (missing: seq<Missing>, removed: seq<Name>)
      requires Valid()
      modifies this, state, history
      ensures Valid() && pit == old(pit) - {name}
      ensures wire.None? ==> View() == old(View()) && missing == [] && removed == []
      ensures wire.Some? ==> View() == Absorb(old(View()), Decoded(wire.value))
      ensures wire.Some? ==> Reports(missing, old(state.leaves), Decoded(wire.value))
      ensures wire.Some? ==> forall n :: n in removed <==> n in Decoded(wire.value) && Decoded(wire.value)[n].Remove? && n in old(state.leaves)
    {
      pit := pit - {name};
      missing, removed := [], [];
      if wire.Some? {
        var diff := Decode(wire.value);
        var diffLog := new DiffState();
        missing, removed := MergeAll(diff, diffLog);
        InsertToDiffLog(diffLog);
      }
    }

    /** The loop over the leaves of the received state. */
    method MergeAll(diff: DiffState, diffLog: DiffState) returns (missing: seq<Missing>, removed: seq<Name>)
      requires state.Valid() && diff != diffLog && diffLog.leaves == map[]
      modifies state, diffLog`leaves
      ensures state.Valid() && state.leaves == Merge(old(state.leaves), diff.leaves)
      ensures diffLog.leaves == Effective(old(state.leaves), diff.leaves)
      ensures Reports(missing, old(state.leaves), diff.leaves)
      ensures forall n :: n in removed <==> n in diff.leaves && diff.leaves[n].Remove? && n in old(state.leaves)
    {
      missing, removed := [], [];
      ghost var l0 := state.leaves;
      var c := diff.leaves;
      var todo := c.Keys;
      DoneAll(c);
      MergeNothing(l0);
      while todo != {}
        invariant todo <= c.Keys && state.Valid()
        invariant state.leaves == Merge(l0, Done(c, todo)) && diffLog.leaves == Effective(l0, Done(c, todo))
        invariant Reports(missing, l0, Done(c, todo))
        invariant forall n :: n in removed <==> n in Done(c, todo) && c[n].Remove? && n in l0
      {
        var n :| n in todo;
        DoneOne(c, todo, n);
        MergeOne(l0, Done(c, todo), n, c[n]);
        match c[n] {
          case Update(no) =>
            var inserted, updated, oldNo := state.Update(n, no);
            if inserted || updated {
              diffLog.Update(n, no);
              if n != FORWARDER {
                var low := if oldNo.None? then SeqNo(no.session, 0) else oldNo.value.Next();
                ReportOne(missing, l0, Done(c, todo), n, no);
                missing := missing + [Missing(n, low, no)];
              } else {
                ReportNone(missing, l0, Done(c, todo), n, c[n]);
              }
            } else {
              ReportNone(missing, l0, Done(c, todo), n, c[n]);
            }
          case Remove =>
            ReportNone(missing, l0, Done(c, todo), n, c[n]);
            var gone := state.Remove(n);
            if gone {
              diffLog.Remove(n);
              removed := removed + [n];
            }
        }
        todo := todo - {n};
      }
    }

    /** A local publish; every pending interest is answered. */
    method AddLocalNames(prefix: Name, session: nat, number: nat) returns (sent: seq<Sent>)
      requires Valid()
      modifies this, state, history
      ensures Valid() && pit == map[]
      ensures View() == Publish(old(View()), prefix, SeqNo(session, number))
      ensures AllAnswered(sent, old(pit), map[prefix := Update(SeqNo(session, number))], state.leaves)
    {
      var no := SeqNo(session, number);
      var inserted, updated, oldNo := state.Update(prefix, no);
      var diff := new DiffState();
      diff.Update(prefix, no);
      InsertToDiffLog(diff);
      sent := SatisfyPendingSyncInterests(diff);
    }

    /** Removes a name locally and moves the forwarder leaf on; every pending interest is answered. */
    method RemoveLocalName(prefix: Name) returns (sent: seq<Sent>)
      requires Valid()
      modifies this, state, history
      ensures Valid() && pit == map[]
      ensures View() == RemoveName(old(View()), prefix)
      ensures AllAnswered(sent, old(pit), View().steps[|View().steps| - 1].changes, state.leaves)
    {
      var no := RemoveLeaf(prefix);
      var diff := RemovalOf(prefix, no);
      InsertToDiffLog(diff);
      sent := SatisfyPendingSyncInterests(diff);
    }

    static method RemovalOf(prefix: Name, no: SeqNo) returns (diff: DiffState)
      ensures fresh(diff) && diff.next == null && diff.leaves == (map[prefix := Remove])[FORWARDER := Update(no)]
    {
      diff := new DiffState();
      diff.Remove(prefix);
      diff.Update(FORWARDER, no);
    }

    /** Erases the name and moves the forwarder leaf on; the result is the number it moves to. */
    method RemoveLeaf(prefix: Name) returns (no: SeqNo)
      requires state.Valid()
      modifies state
      ensures state.Valid() && no == ForwarderNo(old(state.leaves) - {prefix})
      ensures state.leaves == MergeLeaf(old(state.leaves) - {prefix}, FORWARDER, no)
    {
      var removed := state.Remove(prefix);
      no := SeqNo(0, 0);
      if FORWARDER in state.leaves {
        no := state.leaves[FORWARDER].Next();
      }
      var inserted, updated, oldNo := state.Update(FORWARDER, no);
    }

    /** Empties the table of pending interests: one that was for a state known to be current gets the newest
        difference, any other the whole state. */
    method SatisfyPendingSyncInterests(diffLog: DiffState) returns (sent: seq<Sent>)
      requires Valid()
      modifies this`pit
      ensures Valid() && View() == old(View()) && history == old(history) && pit == map[]
      ensures AllAnswered(sent, old(pit), diffLog.leaves, state.leaves)
    {
      sent := AnswerAll(pit, diffLog.leaves, state.leaves);
      pit := map[];
    }
  }

  method AnswerAll(pending: map<string, Pending>, newest: Changes, l: Leaves) returns (sent: seq<Sent>)
    ensures AllAnswered(sent, pending, newest, l)
  {
    sent := [];
    var table := pending;
    while table != map[]
      invariant table.Keys <= pending.Keys && forall name :: name in table ==> table[name] == pending[name]
      invariant Answered(sent, pending, pending.Keys - table.Keys, newest, l)
      decreases |table|
    {
      var name := PopInterest(table);
      var interest := table[name];
      var msg;
      if interest.unknown {
        msg := EncodeFull(l);
      } else {
        msg := Encode(newest);
      }
      AnsweredOne(sent, pending, pending.Keys - table.Keys, newest, l, Sent(name, interest.digest, msg));
      sent := sent + [Sent(name, interest.digest, msg)];
      assert pending.Keys - (table - {name}).Keys == pending.Keys - table.Keys + {name};
      table := table - {name};
    }
    assert pending.Keys - table.Keys == pending.Keys;
  }

  method PopInterest(pit: map<string, Pending>) returns (name: string)
    requires pit != map[]
    ensures name in pit
  {
    assert pit.Keys != {};
    name :| name in pit.Keys;
  }

  /** Exactly the named interests have been answered, each once and with what it is due. */
  ghost predicate Answered(sent: seq<Sent>, pit: map<string, Pending>, names: set<string>, newest: Changes, l: Leaves) {
    && (forall i, j :: 0 <= i < j < |sent| ==> sent[i].name != sent[j].name)
    && (forall s :: s in sent ==> s.name in names && s.name in pit && IsDue(s, pit[s.name], newest, l))
    && forall name :: name in names ==> exists s :: s in sent && s.name == name
  }

  ghost predicate IsDue(s: Sent, interest: Pending, newest: Changes, l: Leaves) {
    s.digest == interest.digest && Decoded(s.msg) == if interest.unknown then AllUpdates(l) else newest
  }

  ghost predicate AllAnswered(sent: seq<Sent>, pit: map<string, Pending>, newest: Changes, l: Leaves) {
    Answered(sent, pit, pit.Keys, newest, l)
  }

  lemma AnsweredOne(sent: seq<Sent>, pit: map<string, Pending>, names: set<string>, newest: Changes, l: Leaves, s: Sent)
    requires Answered(sent, pit, names, newest, l) && s.name !in names && s.name in pit && IsDue(s, pit[s.name], newest, l)
    ensures Answered(sent + [s], pit, names + {s.name}, newest, l)
  {
    var all := sent + [s];
    assert all[|sent|] == s;
    forall i | 0 <= i < |sent|
      ensures sent[i].name != s.name
    {
      assert sent[i] in sent;
    }
    forall name | name in names + {s.name}
      ensures exists x :: x in all && x.name == name
    {
      if name in names {
        var x :| x in sent && x.name == name;
        assert x in all;
      } else {
        assert s in all;
      }
    }
  }

  lemma ChainSuffix(history: seq<DiffState>, k: nat)
    requires IsChain(history) && k < |history|
    ensures IsChain([history[k]] + history[k + 1..])
  {
    var tail := [history[k]] + history[k + 1..];
    forall i | 0 <= i < |tail|
      ensures tail[i].next == if i + 1 < |tail| then tail[i + 1] else null
    {
      assert tail[i] == history[k + i];
      assert history[k + i].next == if k + i + 1 < |history| then history[k + i + 1] else null;
    }
  }

  lemma TailChanges(history: seq<DiffState>, steps: seq<Step>, l: Leaves, k: nat)
    requires Matches(history, steps) && k <= |history|
    ensures |steps| == |history| && LeavesOf(history[k..]) == ChangesFrom(Node(l, steps), k)
  {
  }

  lemma MergeNothing(l: Leaves)
    ensures Merge(l, map[]) == l && Effective(l, map[]) == map[]
  {
  }

  /** Merging one more leaf, of a name not merged yet. */
  lemma MergeOne(l: Leaves, c: Changes, n: Name, leaf: Leaf)
    requires n !in c
    ensures n in Merge(l, c) <==> n in l
    ensures n in l ==> Merge(l, c)[n] == l[n]
    ensures Merge(l, c[n := leaf]) == if leaf.Update? then MergeLeaf(Merge(l, c), n, leaf.no) else Merge(l, c) - {n}
    ensures Effective(l, c[n := leaf]) ==
            if (if leaf.Remove? then n in l else n !in l || l[n].Less(leaf.no)) then Effective(l, c)[n := leaf] else Effective(l, c)
  {
    LeafMerged(l, c, n, leaf);
    LeafTakesEffect(l, c, n, leaf);
  }

  lemma LeafMerged(l: Leaves, c: Changes, n: Name, leaf: Leaf)
    requires n !in c
    ensures n in Merge(l, c) <==> n in l
    ensures n in l ==> Merge(l, c)[n] == l[n]
    ensures Merge(l, c[n := leaf]) == if leaf.Update? then MergeLeaf(Merge(l, c), n, leaf.no) else Merge(l, c) - {n}
  {
    var c' := c[n := leaf];
    var merged := if leaf.Update? then MergeLeaf(Merge(l, c), n, leaf.no) else Merge(l, c) - {n};
    assert Merge(l, c').Keys == merged.Keys;
    assert Merge(l, c') == merged;
  }

  lemma LeafTakesEffect(l: Leaves, c: Changes, n: Name, leaf: Leaf)
    requires n !in c
    ensures Effective(l, c[n := leaf]) ==
            if (if leaf.Remove? then n in l else n !in l || l[n].Less(leaf.no)) then Effective(l, c)[n := leaf] else Effective(l, c)
  {
  }

  lemma ReportOne(missing: seq<Missing>, l: Leaves, c: Changes, n: Name, no: SeqNo)
    requires Reports(missing, l, c) && n !in c && n != FORWARDER && (n !in l || l[n].Less(no))
    ensures Reports(missing + [Gap(l, n, no)], l, c[n := Update(no)])
  {
    var c', all := c[n := Update(no)], missing + [Gap(l, n, no)];
    forall m | m in all
      ensures m.name != FORWARDER && GapsReported(l, c', m.name) == [m]
    {
      if m in missing { assert m.name in c; }
    }
    forall x | x in c' && x != FORWARDER && GapsReported(l, c', x) != []
      ensures GapsReported(l, c', x)[0] in all
    {
      if x != n { assert GapsReported(l, c, x) == GapsReported(l, c', x); }
    }
    forall i | 0 <= i < |missing|
      ensures missing[i].name != n
    {
      assert missing[i] in missing;
    }
  }

  lemma ReportNone(missing: seq<Missing>, l: Leaves, c: Changes, n: Name, leaf: Leaf)
    requires Reports(missing, l, c) && n !in c
    requires n == FORWARDER || leaf.Remove? || (n in l && !l[n].Less(leaf.no))
    ensures Reports(missing, l, c[n := leaf])
  {
    var c' := c[n := leaf];
    forall m | m in missing
      ensures m.name != FORWARDER && GapsReported(l, c', m.name) == [m]
    {
      assert m.name in c;
    }
    forall x | x in c' && x != FORWARDER && GapsReported(l, c', x) != []
      ensures GapsReported(l, c', x)[0] in missing
    {
      assert x != n && GapsReported(l, c, x) == GapsReported(l, c', x);
    }
  }
}
