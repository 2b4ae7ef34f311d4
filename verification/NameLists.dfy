/** Duplicate-free lists of names, and the two-way difference by which an updated Name LSA is applied
    (src/name-prefix-list.cpp, installNameLsa in src/lsdb.cpp). */
module NameLists {
  import opened Names
  import opened Listings

  ghost function NamesOf(s: seq<Name>): set<Name> {
    set n | n in s
  }

  /** In increasing order, which also rules out duplicates. */
  ghost predicate Increasing(s: seq<Name>) {
    forall i, j :: 0 <= i < j < |s| ==> LexLess(s[i], s[j])
  }

  function InsertName(n: Name, s: seq<Name>): seq<Name> {
    if s == [] || !LexLess(s[0], n) then [n] + s else [s[0]] + InsertName(n, s[1..])
  }

  function SortedNames(s: seq<Name>): seq<Name> {
    if s == [] then [] else InsertName(s[0], SortedNames(s[1..]))
  }

  lemma {:induction false} InsertNameIncreasing(n: Name, s: seq<Name>)
    requires Increasing(s) && n !in s
    ensures Increasing(InsertName(n, s)) && NamesOf(InsertName(n, s)) == NamesOf(s) + {n}
  {
    if s != [] && LexLess(s[0], n) {
      InsertNameIncreasing(n, s[1..]);
      var rest := InsertName(n, s[1..]);
      assert s == [s[0]] + s[1..];
      forall j | 0 <= j < |rest|
        ensures LexLess(s[0], rest[j])
      {
        assert rest[j] in NamesOf(rest);
        if rest[j] != n {
          assert rest[j] in s[1..];
        }
      }
    } else if s != [] {
      LexTotal(n, s[0]);
      forall j | 0 <= j < |s|
        ensures LexLess(n, s[j])
      {
        if j > 0 { LexTransitive(n, s[0], s[j]); }
      }
    }
  }

  /** Sorting a duplicate-free list keeps its names. */
  lemma {:induction false} SortedNamesIncreasing(s: seq<Name>)
    requires NoDuplicates(s)
    ensures Increasing(SortedNames(s)) && NamesOf(SortedNames(s)) == NamesOf(s)
    ensures NoDuplicates(SortedNames(s))
  {
    if s != [] {
      SortedNamesIncreasing(s[1..]);
      assert s[0] !in s[1..];
      assert s[0] !in NamesOf(SortedNames(s[1..]));
      InsertNameIncreasing(s[0], SortedNames(s[1..]));
      assert s == [s[0]] + s[1..];
    }
    IncreasingNoDuplicates(SortedNames(s));
  }

  lemma IncreasingNoDuplicates(s: seq<Name>)
    requires Increasing(s)
    ensures NoDuplicates(s)
  {
    forall i, j | 0 <= i < j < |s|
      ensures s[i] != s[j]
    {
      LexTotal(s[i], s[j]);
    }
  }

  /** std::set_difference: one pass over two ordered ranges. */
  function Difference(a: seq<Name>, b: seq<Name>): seq<Name>
    decreases |a| + |b|
  {
    if a == [] then []
    else if b == [] then a
    else if LexLess(a[0], b[0]) then [a[0]] + Difference(a[1..], b)
    else if LexLess(b[0], a[0]) then Difference(a, b[1..])
    else Difference(a[1..], b[1..])
  }

  lemma HeadIsLeast(s: seq<Name>, n: Name)
    requires Increasing(s) && s != [] && LexLess(n, s[0])
    ensures n !in s
  {
    if n in s {
      var i :| 0 <= i < |s| && s[i] == n;
      if i > 0 { LexTransitive(n, s[0], s[i]); }
      LexTotal(n, n);
    }
  }

  lemma HeadNotInTail(s: seq<Name>)
    requires Increasing(s) && s != []
    ensures s[0] !in s[1..] && NamesOf(s) == NamesOf(s[1..]) + {s[0]} && Increasing(s[1..])
  {
    IncreasingNoDuplicates(s);
    assert s == [s[0]] + s[1..];
  }

  /** On ordered duplicate-free lists it is exactly the difference of the sets. */
  lemma {:induction false} DifferenceExact(a: seq<Name>, b: seq<Name>)
    requires Increasing(a) && Increasing(b)
    ensures NamesOf(Difference(a, b)) == NamesOf(a) - NamesOf(b)
    decreases |a| + |b|
  {
    if a != [] && b != [] {
      HeadNotInTail(a);
      HeadNotInTail(b);
      if LexLess(a[0], b[0]) {
        HeadIsLeast(b, a[0]);
        DifferenceExact(a[1..], b);
        assert NamesOf([a[0]] + Difference(a[1..], b)) == {a[0]} + NamesOf(Difference(a[1..], b));
      } else if LexLess(b[0], a[0]) {
        HeadIsLeast(a, b[0]);
        DifferenceExact(a, b[1..]);
      } else {
        LexTotal(a[0], b[0]);
        DifferenceExact(a[1..], b[1..]);
      }
    }
  }

  class NamePrefixList {
    var names: seq<Name>

    constructor (initial: seq<Name>)
      ensures names == initial
    {
      names := initial;
    }

    method Find(n: Name) returns (at: int)
      ensures -1 <= at < |names| && (at == -1 <==> n !in names)
      ensures at != -1 ==> names[at] == n
    {
      at := 0;
      while at < |names| && names[at] != n
        invariant 0 <= at <= |names| && n !in names[..at]
      {
        at := at + 1;
      }
      if at == |names| {
        assert names[..at] == names;
        at := -1;
      }
    }

    method Insert(n: Name) returns (inserted: bool)
      requires NoDuplicates(names)
      modifies this
      ensures NoDuplicates(names) && NamesOf(names) == NamesOf(old(names)) + {n}
      ensures inserted <==> n !in old(names)
    {
      var at := Find(n);
      inserted := at == -1;
      if inserted {
        names := names + [n];
      }
    }

    method Remove(n: Name) returns (removed: bool)
      requires NoDuplicates(names)
      modifies this
      ensures NoDuplicates(names) && NamesOf(names) == NamesOf(old(names)) - {n}
      ensures removed <==> n in old(names)
    {
      var at := Find(n);
      removed := at != -1;
      if removed {
        CutNames(names, at);
        names := Dropped(names, at);
      }
    }

    method Sort()
      requires NoDuplicates(names)
      modifies this
      ensures NoDuplicates(names) && Increasing(names) && NamesOf(names) == NamesOf(old(names))
    {
      SortedNamesIncreasing(names);
      names := SortedNames(names);
    }
  }

  lemma CutNames(s: seq<Name>, at: nat)
    requires NoDuplicates(s) && at < |s|
    ensures NoDuplicates(Dropped(s, at)) && NamesOf(Dropped(s, at)) == NamesOf(s) - {s[at]}
  {
    var r := Dropped(s, at);
    forall n | n in NamesOf(s) - {s[at]}
      ensures n in r
    {
      var i :| 0 <= i < |s| && s[i] == n;
      assert r[if i < at then i else i - 1] == n;
    }
  }
}
