/** The replicated name states of nsync as values: full states, differential states, and the two
    ways of combining them. Updating a full state keeps the larger number; a differential state
    overrides (nsync/sync-full-state.cc, nsync/sync-diff-state.cc). */
module SyncStates {
  import opened Names

  datatype SeqNo = SeqNo(session: nat, number: nat) {
    /** Lexicographic: a later session is newer whatever the number. */
    predicate Less(other: SeqNo) {
      session < other.session || (session == other.session && number < other.number)
    }

    function Next(): SeqNo {
      SeqNo(session, number + 1)
    }
  }

  /** A full state: the current number of every name. */
  type Leaves = map<Name, SeqNo>

  /** A leaf of a differential state. */
  datatype Leaf = Update(no: SeqNo) | Remove

  type Changes = map<Name, Leaf>

  /** The root digest. Hashing is taken to be collision-free, so a digest stands for what was hashed;
      the empty state has the reserved zero digest. */
  datatype Digest = Zero | Hash(leaves: Leaves)

  function RootDigest(l: Leaves): Digest {
    if l == map[] then Zero else Hash(l)
  }

  lemma EqualDigestsEqualStates(l: Leaves, m: Leaves)
    ensures RootDigest(l) == RootDigest(m) <==> l == m
    ensures RootDigest(l) == Zero <==> l == map[]
  {
  }

  /** Carrying out a differential state on a full one: UPDATE sets, REMOVE erases. */
  ghost function Apply(l: Leaves, c: Changes): Leaves {
    map n | n in l.Keys + c.Keys && !(n in c && c[n].Remove?) :: if n in c then c[n].no else l[n]
  }

  /** Accumulating differential states, later ones replacing leaves of earlier ones. */
  ghost function Composed(cs: seq<Changes>): Changes {
    if cs == [] then map[] else Composed(cs[..|cs| - 1]) + cs[|cs| - 1]
  }

  /** Carrying out differential states one after the other. */
  ghost function ApplyAll(l: Leaves, cs: seq<Changes>): Leaves {
    if cs == [] then l else Apply(ApplyAll(l, cs[..|cs| - 1]), cs[|cs| - 1])
  }

  /** The accumulated state does in one go what its parts do in turn. */
  lemma {:induction false} ComposedAppliesAll(l: Leaves, cs: seq<Changes>)
    ensures Apply(l, Composed(cs)) == ApplyAll(l, cs)
  {
    if cs != [] {
      ComposedAppliesAll(l, cs[..|cs| - 1]);
      ApplyComposes(l, Composed(cs[..|cs| - 1]), cs[|cs| - 1]);
    }
  }

  lemma ApplyComposes(l: Leaves, c: Changes, d: Changes)
    ensures Apply(Apply(l, c), d) == Apply(l, c + d)
  {
  }

  /** FullState::update: a stored number gives way only to a larger one. */
  function MergeLeaf(l: Leaves, n: Name, s: SeqNo): Leaves {
    if n in l && !l[n].Less(s) then l else l[n := s]
  }

  /** Of two updates of a name, merged in either order, the one of the later session stays, whatever the numbers;
      within a session the one with the larger number. */
  lemma LaterUpdateStays(l: Leaves, n: Name, s: SeqNo, t: SeqNo)
    requires n !in l && (s.session < t.session || (s.session == t.session && s.number < t.number))
    ensures MergeLeaf(MergeLeaf(l, n, s), n, t)[n] == MergeLeaf(MergeLeaf(l, n, t), n, s)[n] == t
  {
  }

  /** Merging every leaf of a received differential state. */
  ghost function Merge(l: Leaves, c: Changes): Leaves {
    map n | n in l.Keys + c.Keys && !(n in c && c[n].Remove?) ::
      if n !in c then l[n] else if n in l && !l[n].Less(c[n].no) then l[n] else c[n].no
  }

  /** The leaves of c that merging it into l acts on. */
  ghost function Effective(l: Leaves, c: Changes): Changes {
    map n | n in c && (if c[n].Remove? then n in l else n !in l || l[n].Less(c[n].no)) :: c[n]
  }

  lemma MergeIsApplyEffective(l: Leaves, c: Changes)
    ensures Merge(l, c) == Apply(l, Effective(l, c))
  {
  }

  /** What acts is exactly what changes the state: a name is logged if and only if it comes, goes or gets another
      number, and the log then says what became of it. */
  lemma LoggedIsWhatChanged(l: Leaves, c: Changes, n: Name)
    ensures var m, e := Merge(l, c), Effective(l, c);
            && (n !in e <==> ((n in m <==> n in l) && (n in l && n in m ==> m[n] == l[n])))
            && (n in e ==> e[n] == if n in m then Update(m[n]) else Remove)
  {
  }

  /** Merging does what the sender's overriding differential state says exactly if that state takes no
      name below the receiver's number. */
  lemma MergeMatchesApply(l: Leaves, c: Changes)
    ensures Merge(l, c) == Apply(l, c) <==> forall n :: n in c && n in l && c[n].Update? ==> !c[n].no.Less(l[n])
  {
    if Merge(l, c) == Apply(l, c) {
      forall n | n in c && n in l && c[n].Update?
        ensures !c[n].no.Less(l[n])
      {
        assert Merge(l, c)[n] == Apply(l, c)[n];
      }
    }
    if forall n :: n in c && n in l && c[n].Update? ==> !c[n].no.Less(l[n]) {
      assert Merge(l, c).Keys == Apply(l, c).Keys;
      assert Merge(l, c) == Apply(l, c);
    }
  }

  // ----- the order of states and its joins -----

  ghost predicate Leq(l: Leaves, m: Leaves) {
    forall n :: n in l ==> n in m && !m[n].Less(l[n])
  }

  /** The pointwise maximum. */
  ghost function Join(l: Leaves, m: Leaves): Leaves {
    map n | n in l.Keys + m.Keys :: if n in l && (n in m ==> !l[n].Less(m[n])) then l[n] else m[n]
  }

  lemma JoinIsLeast(l: Leaves, m: Leaves, u: Leaves)
    ensures Leq(l, Join(l, m)) && Leq(m, Join(l, m))
    ensures Leq(l, u) && Leq(m, u) ==> Leq(Join(l, m), u)
  {
  }

  lemma LeqAntisymmetric(l: Leaves, m: Leaves)
    requires Leq(l, m) && Leq(m, l)
    ensures l == m
  {
    forall n | n in l
      ensures l[n] == m[n]
    {
    }
  }

  ghost predicate UpdateOnly(c: Changes) {
    forall n :: n in c ==> c[n].Update?
  }

  /** A full state sent whole. */
  ghost function AllUpdates(l: Leaves): (c: Changes)
    ensures UpdateOnly(c) && c.Keys == l.Keys && forall n :: n in l ==> c[n] == Update(l[n])
  {
    map n | n in l :: Update(l[n])
  }

  /** Absorbing a whole state (the zero-digest and recovery replies) ends at the pointwise maximum. */
  lemma FullReplyJoins(l: Leaves, s: Leaves)
    ensures Merge(l, AllUpdates(s)) == Join(l, s)
  {
  }

  /** Absorbing an update-only difference from an earlier state `asked` to the responder's state s: the
      receiver, grown from `asked`, ends at the pointwise maximum; not having grown, at s itself. */
  lemma DiffReplyJoins(asked: Leaves, now: Leaves, c: Changes, s: Leaves)
    requires Apply(asked, c) == s && UpdateOnly(c) && Leq(asked, s) && Leq(asked, now)
    ensures Merge(now, c) == Join(now, s)
    ensures now == asked ==> Merge(now, c) == s
  {
    forall n | n in Join(now, s)
      ensures n in Merge(now, c) && Merge(now, c)[n] == Join(now, s)[n]
    {
      if n in c {
        assert s[n] == c[n].no;
      } else if n in s {
        assert n in asked && s[n] == asked[n];
      }
    }
    forall n | n in Merge(now, c)
      ensures n in Join(now, s)
    {
      if n in c { assert n in Apply(asked, c); }
    }
    assert Merge(now, c) == Join(now, s);
    if now == asked {
      assert Merge(now, c) == Apply(now, c) by { MergeMatchesApply(now, c); UpdatesNeverLower(asked, c, s); }
    }
  }

  lemma UpdatesNeverLower(asked: Leaves, c: Changes, s: Leaves)
    requires Apply(asked, c) == s && Leq(asked, s)
    ensures forall n :: n in c && n in asked && c[n].Update? ==> !c[n].no.Less(asked[n])
  {
    forall n | n in c && n in asked && c[n].Update?
      ensures !c[n].no.Less(asked[n])
    {
      assert s[n] == c[n].no;
    }
  }
}
