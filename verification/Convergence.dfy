/** Installing LSAs in any order: what the database ends up with depends only on what was delivered
    (the install functions of src/lsdb.cpp, without removals). */
module Convergence {
  import opened Names
  import opened LsaLists

  /** An LSA as a database holds it: its number and what its content means, whatever the order it is listed in. */
  datatype Held<M> = Held(number: Number, meaning: M)

  datatype Delivery<M> = Delivery(origin: Name, number: Number, meaning: M)

  ghost function Install<M>(held: map<Name, Held<M>>, d: Delivery<M>): map<Name, Held<M>> {
    if d.origin !in held || held[d.origin].number < d.number then held[d.origin := Held(d.number, d.meaning)] else held
  }

  ghost function InstallAll<M>(ds: seq<Delivery<M>>): map<Name, Held<M>> {
    if ds == [] then map[] else Install(InstallAll(ds[..|ds| - 1]), ds[|ds| - 1])
  }

  /** Held for each delivered key, and for no other, is a delivery with the highest number for that key. */
  lemma {:induction false} NewestIsHeld<M>(ds: seq<Delivery<M>>, o: Name)
    ensures var held := InstallAll(ds);
            && (o in held ==> Delivery(o, held[o].number, held[o].meaning) in ds)
            && forall d :: d in ds && d.origin == o ==> o in held && d.number <= held[o].number
  {
    if ds != [] {
      NewestIsHeld(ds[..|ds| - 1], o);
      assert ds == ds[..|ds| - 1] + [ds[|ds| - 1]];
    }
  }

  /** No origin has used its highest number for two contents. */
  ghost predicate TopUnique<M(!new)>(ds: seq<Delivery<M>>) {
    forall d, e :: IsTop(d, ds) && IsTop(e, ds) && d.origin == e.origin ==> d == e
  }

  ghost predicate IsTop<M(!new)>(d: Delivery<M>, ds: seq<Delivery<M>>) {
    d in ds && forall e :: e in ds && e.origin == d.origin ==> e.number <= d.number
  }

  ghost predicate SameDeliveries<M(!new)>(ds: seq<Delivery<M>>, es: seq<Delivery<M>>) {
    forall d :: d in ds <==> d in es
  }

  /** Two databases that got the same deliveries, each in any order and any number of times, hold the same
      LSAs with the same numbers. */
  lemma DatabasesConverge<M(!new)>(ds: seq<Delivery<M>>, es: seq<Delivery<M>>)
    requires TopUnique(ds) && SameDeliveries(ds, es)
    ensures InstallAll(ds) == InstallAll(es)
  {
    forall o
      ensures o in InstallAll(ds) <==> o in InstallAll(es)
      ensures o in InstallAll(ds) ==> InstallAll(ds)[o] == InstallAll(es)[o]
    {
      NewestIsHeld(ds, o);
      NewestIsHeld(es, o);
      if o in InstallAll(ds) && o in InstallAll(es) {
        var x, y := InstallAll(ds)[o], InstallAll(es)[o];
        assert IsTop(Delivery(o, x.number, x.meaning), ds) && IsTop(Delivery(o, y.number, y.meaning), ds);
      }
    }
  }

  /** That proviso is exact: the order of deliveries does not matter if and only if it holds. */
  lemma OrderMattersExactly<M(!new)>(ds: seq<Delivery<M>>)
    ensures TopUnique(ds) <==> forall es :: SameDeliveries(ds, es) ==> InstallAll(ds) == InstallAll(es)
  {
    if TopUnique(ds) {
      forall es | SameDeliveries(ds, es)
        ensures InstallAll(ds) == InstallAll(es)
      {
        DatabasesConverge(ds, es);
      }
    } else {
      var d, e :| IsTop(d, ds) && IsTop(e, ds) && d.origin == e.origin && d != e;
      RivalsDiverge(ds, d, e);
    }
  }

  lemma RivalsDiverge<M(!new)>(ds: seq<Delivery<M>>, d: Delivery<M>, e: Delivery<M>)
    requires IsTop(d, ds) && IsTop(e, ds) && d.origin == e.origin && d != e
    ensures SameDeliveries(ds, [d] + ds) && SameDeliveries(ds, [e] + ds)
    ensures InstallAll([d] + ds) != InstallAll([e] + ds)
  {
    FirstTopStays([], d, ds);
    FirstTopStays([], e, ds);
    assert [] + [d] + ds == [d] + ds && [] + [e] + ds == [e] + ds;
  }

  /** Of the deliveries with an origin's highest number, wherever they are in the list, the first stays. */
  lemma {:induction false} FirstTopStays<M(!new)>(pre: seq<Delivery<M>>, d: Delivery<M>, post: seq<Delivery<M>>)
    requires forall e :: e in pre && e.origin == d.origin ==> e.number < d.number
    requires forall e :: e in post && e.origin == d.origin ==> e.number <= d.number
    ensures var held := InstallAll(pre + [d] + post);
            d.origin in held && held[d.origin] == Held(d.number, d.meaning)
    decreases |post|
  {
    var ds := pre + [d] + post;
    if post == [] {
      NewestIsHeld(pre, d.origin);
      assert ds[..|ds| - 1] == pre && ds[|ds| - 1] == d;
    } else {
      var k := |post| - 1;
      FirstTopStays(pre, d, post[..k]);
      assert ds[..|ds| - 1] == pre + [d] + post[..k] && ds[|ds| - 1] == post[k];
      assert post[k] in post;
    }
  }
}
