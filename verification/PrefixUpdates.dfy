/** Advertising and withdrawing a name prefix on the operator's command
    (src/update/prefix-update-processor.cpp). */
module PrefixUpdates {
  import opened Names
  import opened Listings
  import opened NameLists
  import opened LsaLists
  import opened Sequencing
  import opened Lsdbs

  class PrefixUpdateProcessor {
    const lsdb: Lsdb
    const namePrefixes: NamePrefixList

    ghost predicate Valid()
      reads lsdb.npt, lsdb.npt.rt, lsdb.npt.fib, lsdb.nameLsas, lsdb.adjLsas, lsdb.corLsas, namePrefixes
    {
      lsdb.Valid() && NoDuplicates(namePrefixes.names)
    }

    constructor (lsdb: Lsdb, namePrefixes: NamePrefixList)
      requires lsdb.Valid() && NoDuplicates(namePrefixes.names)
      ensures Valid() && this.lsdb == lsdb && this.namePrefixes == namePrefixes
    {
      this.lsdb := lsdb;
      this.namePrefixes := namePrefixes;
    }

    /** Only a name that is new has the Name LSA rebuilt and published. */
    method Advertise(name: Name)
      requires Valid()
      modifies lsdb`published, lsdb.nameLsas, lsdb.npt, lsdb.npt.fib, lsdb.seqs, namePrefixes
      ensures Valid()
      ensures NamesOf(namePrefixes.names) == old(NamesOf(namePrefixes.names)) + {name}
      ensures name in old(namePrefixes.names) ==> Unchanged(old(lsdb.NameRun()), old(lsdb.seqs.State()), old(lsdb.published))
      ensures name !in old(namePrefixes.names) ==> Republished(old(lsdb.NameRun()), old(lsdb.seqs.State()), old(lsdb.published))
      ensures KeepsGrowing(old(lsdb.published), old(lsdb.seqs.State()), lsdb.published, lsdb.seqs.State())
    {
      ghost var before, c, published := lsdb.NameRun(), lsdb.seqs.State(), lsdb.published;
      var inserted := namePrefixes.Insert(name);
      if inserted {
        Republish(before, c, published);
      }
    }

    /** Only a name that was there has the Name LSA rebuilt and published. */
    method Withdraw(name: Name)
      requires Valid()
      modifies lsdb`published, lsdb.nameLsas, lsdb.npt, lsdb.npt.fib, lsdb.seqs, namePrefixes
      ensures Valid()
      ensures NamesOf(namePrefixes.names) == old(NamesOf(namePrefixes.names)) - {name}
      ensures name !in old(namePrefixes.names) ==> Unchanged(old(lsdb.NameRun()), old(lsdb.seqs.State()), old(lsdb.published))
      ensures name in old(namePrefixes.names) ==> Republished(old(lsdb.NameRun()), old(lsdb.seqs.State()), old(lsdb.published))
      ensures KeepsGrowing(old(lsdb.published), old(lsdb.seqs.State()), lsdb.published, lsdb.seqs.State())
    {
      ghost var before, c, published := lsdb.NameRun(), lsdb.seqs.State(), lsdb.published;
      var removed := namePrefixes.Remove(name);
      if removed {
        Republish(before, c, published);
      }
    }

    ghost predicate Unchanged(before: Run<seq<Name>>, c: Counters, published: seq<nat>)
      reads lsdb`published, lsdb.nameLsas, lsdb.seqs
    {
      lsdb.NameRun() == before && lsdb.seqs.State() == c && lsdb.published == published
    }

    /** The Name LSAs and their timers are what a build of the own one makes of them, the own one lists the
        names if its number counted as newer, and that number has been published. */
    ghost predicate Republished(before: Run<seq<Name>>, c: Counters, published: seq<nat>)
      reads lsdb`published, lsdb.nameLsas, lsdb.seqs, namePrefixes
    {
      Renumbered(before, c) && lsdb.published == published + [Combined(lsdb.seqs.State())]
    }

    ghost predicate Renumbered(before: Run<seq<Name>>, c: Counters)
      reads lsdb.nameLsas, lsdb.seqs, namePrefixes
    {
      && IsBuild(before, lsdb.thisRouter, lsdb.NameRun())
      && (NextIsNewer(before, lsdb.thisRouter) ==>
            NamesOf(lsdb.Names().index[lsdb.thisRouter].content) == NamesOf(namePrefixes.names))
      && lsdb.seqs.State() == c.(name := c.name + 1)
    }

    method Republish(ghost before: Run<seq<Name>>, ghost c: Counters, ghost published: seq<nat>)
      requires Valid() && Unchanged(before, c, published)
      modifies lsdb`published, lsdb.nameLsas, lsdb.npt, lsdb.npt.fib, lsdb.seqs
      ensures Valid() && Republished(before, c, published)
      ensures KeepsGrowing(published, c, lsdb.published, lsdb.seqs.State())
    {
      Rebuild(before, c);
      MoveKeepsGrowing(published, c, lsdb.seqs.State());
      Publish();
    }

    method Rebuild(ghost before: Run<seq<Name>>, ghost c: Counters)
      requires Valid() && lsdb.NameRun() == before && lsdb.seqs.State() == c
      modifies lsdb.nameLsas, lsdb.npt, lsdb.npt.fib, lsdb.seqs
      ensures Valid() && lsdb.seqs.Valid() && Renumbered(before, c)
    {
      lsdb.BuildAndInstallOwnNameLsa(namePrefixes.names);
    }

    method Publish()
      requires Valid() && lsdb.seqs.Valid()
      modifies lsdb`published, lsdb.seqs`file
      ensures Valid() && lsdb.published == old(lsdb.published) + [Combined(lsdb.seqs.State())]
    {
      lsdb.PublishRoutingUpdate();
    }
  }
}
