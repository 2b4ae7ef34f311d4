/** Lists without duplicates, and lists searched by a key that occurs at most once: what the latter say is a
    map from keys to elements, and the ways the program edits them are map edits. */
module Listings {

  ghost predicate NoDuplicates<T(!new)>(s: seq<T>) {
    forall i, j :: 0 <= i < j < |s| ==> s[i] != s[j]
  }

  ghost predicate DistinctKeys<K(!new), T(!new)>(s: seq<T>, key: T -> K) {
    forall i, j :: 0 <= i < j < |s| ==> key(s[i]) != key(s[j])
  }

  ghost function Index<K(!new), T(!new)>(s: seq<T>, key: T -> K): map<K, T> {
    if s == [] then map[] else Index(s[..|s| - 1], key)[key(s[|s| - 1]) := s[|s| - 1]]
  }

  lemma {:induction false} IndexKeys<K(!new), T(!new)>(s: seq<T>, key: T -> K, k: K)
    ensures k in Index(s, key) <==> exists i :: 0 <= i < |s| && key(s[i]) == k
    ensures k in Index(s, key) ==> Index(s, key)[k] in s && key(Index(s, key)[k]) == k
  {
    if s != [] {
      var init := s[..|s| - 1];
      IndexKeys(init, key, k);
      if k in Index(init, key) {
        var i :| 0 <= i < |init| && key(init[i]) == k;
        assert key(s[i]) == k;
      }
      if i :| 0 <= i < |s| && key(s[i]) == k {
        assert i < |init| ==> key(init[i]) == k;
      }
    }
  }

  lemma {:induction false} IndexAt<K(!new), T(!new)>(s: seq<T>, key: T -> K, i: nat)
    requires DistinctKeys(s, key) && i < |s|
    ensures key(s[i]) in Index(s, key) && Index(s, key)[key(s[i])] == s[i]
    decreases |s|
  {
    if i < |s| - 1 {
      IndexAt(s[..|s| - 1], key, i);
      assert key(s[i]) != key(s[|s| - 1]);
    }
  }

  lemma IndexAppended<K(!new), T(!new)>(s: seq<T>, key: T -> K, e: T)
    requires DistinctKeys(s, key) && key(e) !in Index(s, key)
    ensures DistinctKeys(s + [e], key) && Index(s + [e], key) == Index(s, key)[key(e) := e]
  {
    IndexKeys(s, key, key(e));
    assert (s + [e])[..|s|] == s;
  }

  lemma {:induction false} IndexReplaced<K(!new), T(!new)>(s: seq<T>, key: T -> K, at: nat, e: T)
    requires DistinctKeys(s, key) && at < |s| && key(e) == key(s[at])
    ensures DistinctKeys(s[at := e], key) && Index(s[at := e], key) == Index(s, key)[key(e) := e]
    decreases |s|
  {
    var n, after := |s| - 1, s[at := e];
    if at < n {
      IndexReplaced(s[..n], key, at, e);
      assert after[..n] == s[..n][at := e];
      assert key(s[at]) != key(s[n]);
    } else {
      assert after[..n] == s[..n];
    }
    forall i, j | 0 <= i < j < |after|
      ensures key(after[i]) != key(after[j])
    {
      assert key(after[i]) == key(s[i]) && key(after[j]) == key(s[j]);
    }
  }

  lemma AbsentDropped<K, V>(m: map<K, V>, k: K)
    requires k !in m
    ensures m - {k} == m
  {
  }

  ghost function Position<T>(s: seq<T>, x: T): (k: nat)
    requires x in s
    ensures k < |s| && s[k] == x
  {
    var k :| 0 <= k < |s| && s[k] == x; k
  }

  /** The list without its at-th element. */
  function Dropped<T>(s: seq<T>, at: nat): (r: seq<T>)
    requires at < |s|
    ensures |r| == |s| - 1 && forall i :: 0 <= i < |r| ==> r[i] == s[if i < at then i else i + 1]
  {
    s[..at] + s[at + 1..]
  }

  lemma DroppedDistinct<K(!new), T(!new)>(s: seq<T>, key: T -> K, at: nat)
    requires DistinctKeys(s, key) && at < |s|
    ensures DistinctKeys(Dropped(s, at), key)
  {
    var after := Dropped(s, at);
    forall i, j | 0 <= i < j < |after|
      ensures key(after[i]) != key(after[j])
    {
      assert key(s[if i < at then i else i + 1]) != key(s[if j < at then j else j + 1]);
    }
  }

  lemma {:induction false} IndexDropped<K(!new), T(!new)>(s: seq<T>, key: T -> K, at: nat)
    requires DistinctKeys(s, key) && at < |s|
    ensures DistinctKeys(Dropped(s, at), key) && Index(Dropped(s, at), key) == Index(s, key) - {key(s[at])}
    decreases |s|
  {
    DroppedDistinct(s, key, at);
    var n, after := |s| - 1, Dropped(s, at);
    if at < n {
      IndexDropped(s[..n], key, at);
      assert after[..n - 1] == Dropped(s[..n], at);
      assert after[n - 1] == s[n];
      assert key(s[at]) != key(s[n]);
      assert Index(after, key) == Index(Dropped(s[..n], at), key)[key(s[n]) := s[n]];
      OtherKeyDropped(Index(s[..n], key), key(s[at]), key(s[n]), s[n]);
    } else {
      assert after == s[..n];
      IndexKeys(s[..n], key, key(s[at]));
    }
  }

  lemma OtherKeyDropped<K, V>(m: map<K, V>, k: K, j: K, v: V)
    requires k != j
    ensures m[j := v] - {k} == (m - {k})[j := v]
  {
  }
}
