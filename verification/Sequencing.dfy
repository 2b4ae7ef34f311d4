/** The three LSA counters packed into one 64-bit number (src/sequencing-manager.cpp,
    src/sequencing-manager.hpp). Words are natural numbers; `|` is spelled out bit by bit. */
module Sequencing {
  import opened Names

  const WORD: nat := 0x1_0000_0000_0000_0000
  const TWO20: nat := 0x10_0000
  const TWO24: nat := 0x100_0000
  const TWO40: nat := 0x100_0000_0000

  /** Bitwise or. */
  function Or(a: nat, b: nat): nat
    decreases a + b
  {
    if a == 0 then b else if b == 0 then a
    else 2 * Or(a / 2, b / 2) + (if a % 2 == 1 || b % 2 == 1 then 1 else 0)
  }

  function Pow2(k: nat): nat {
    if k == 0 then 1 else 2 * Pow2(k - 1)
  }

  lemma OrDouble(x: nat, y: nat, bit: nat)
    requires bit < 2
    ensures Or(2 * x + bit, 2 * y) == 2 * Or(x, y) + bit
  {
    assert (2 * x + bit) / 2 == x && (2 * x + bit) % 2 == bit;
  }

  /** a moved up by k bits. */
  function Shl(a: nat, k: nat): nat {
    if k == 0 then a else 2 * Shl(a, k - 1)
  }

  lemma {:induction false} ShlIsProduct(a: nat, k: nat)
    ensures Shl(a, k) == a * Pow2(k)
  {
    if k > 0 {
      ShlIsProduct(a, k - 1);
      TimesTwice(a, Pow2(k - 1));
    }
  }

  lemma TimesTwice(a: nat, p: nat)
    ensures a * (2 * p) == 2 * (a * p)
  {
  }

  /** Bits below the k-th stand beside an or of the bits above. */
  lemma {:induction false} OrAboveShl(low: nat, a: nat, b: nat, k: nat)
    requires low < Pow2(k)
    ensures Or(low + Shl(a, k), Shl(b, k)) == low + Shl(Or(a, b), k)
    decreases k
  {
    if k > 0 {
      OrAboveShl(low / 2, a, b, k - 1);
      OrDoubled(low / 2, low % 2, Shl(a, k - 1), Shl(b, k - 1), Shl(Or(a, b), k - 1));
      assert low == 2 * (low / 2) + low % 2;
    }
  }

  lemma OrAbove(low: nat, a: nat, b: nat, k: nat)
    requires low < Pow2(k)
    ensures Or(low + a * Pow2(k), b * Pow2(k)) == low + Or(a, b) * Pow2(k)
  {
    OrAboveShl(low, a, b, k);
    ShlIsProduct(a, k);
    ShlIsProduct(b, k);
    ShlIsProduct(Or(a, b), k);
  }

  lemma OrDoubled(h: nat, bit: nat, x: nat, y: nat, z: nat)
    requires bit < 2 && Or(h + x, y) == h + z
    ensures Or(2 * h + bit + 2 * x, 2 * y) == 2 * h + bit + 2 * z
  {
    var n := h + x;
    OrDouble(n, y, bit);
    assert 2 * n + bit == 2 * h + bit + 2 * x;
  }

  /** Below the lowest set bit of the other word, or is addition. */
  lemma OrAddsDisjoint(low: nat, high: nat, k: nat)
    requires low < Pow2(k)
    ensures Or(low, high * Pow2(k)) == low + high * Pow2(k)
  {
    OrAbove(low, 0, high, k);
  }

  lemma PowersOfTwo()
    ensures Pow2(20) == TWO20 && Pow2(40) == TWO40
  {
    assert Pow2(10) == 1024;
    assert Pow2(20) == TWO20;
    assert Pow2(30) == 0x4000_0000;
  }

  /** `<<` on a 64-bit word. */
  function Shifted(a: nat, factor: nat): nat {
    (a * factor) % WORD
  }

  datatype Counters = Counters(name: nat, adj: nat, cor: nat)

  /** What fits the packed number: 24, 20 and 20 bits. */
  predicate InRange(c: Counters) {
    c.name < TWO24 && c.adj < TWO20 && c.cor < TWO20
  }

  function Combined(c: Counters): nat {
    Or(Or(c.adj, Shifted(c.cor, TWO20)), Shifted(c.name, TWO40))
  }

  function Split(n: nat): Counters {
    Counters((n / TWO40) % TWO24, n % TWO20, (n / TWO20) % TWO20)
  }

  /** In range, packing puts the three fields side by side. */
  lemma CombinedInRange(c: Counters)
    requires InRange(c)
    ensures Combined(c) == c.name * 0x100_0000_0000 + c.cor * 0x10_0000 + c.adj
  {
    PowersOfTwo();
    ShiftedFits(c);
    OrAddsDisjoint(c.adj, c.cor, 20);
    OrAddsDisjoint(c.adj + c.cor * TWO20, c.name, 40);
  }

  lemma ShiftedFits(c: Counters)
    requires c.cor <= TWO20 && c.name < TWO24
    ensures Shifted(c.cor, TWO20) == c.cor * TWO20 && Shifted(c.name, TWO40) == c.name * TWO40
  {
  }

  lemma SplitSum(c: Counters)
    requires InRange(c)
    ensures Split(c.name * TWO40 + c.cor * TWO20 + c.adj) == c
  {
    var n := c.name * TWO40 + c.cor * TWO20 + c.adj;
    assert n / TWO20 == c.name * TWO20 + c.cor && n / TWO40 == c.name;
  }

  lemma SplitInRange(n: nat)
    ensures InRange(Split(n))
  {
  }

  /** Splitting undoes combining exactly for counters that fit 24, 20 and 20 bits. */
  lemma SplitUndoesCombine(c: Counters)
    ensures Split(Combined(c)) == c <==> InRange(c)
    ensures Split(Combined(c)) == c <==> c.name < 0x100_0000 && c.adj < 0x10_0000 && c.cor < 0x10_0000
  {
    if InRange(c) {
      CombinedInRange(c);
      SplitSum(c);
    } else {
      SplitInRange(Combined(c));
    }
  }

  /** Combining undoes splitting for every 64-bit number. */
  lemma CombineUndoesSplit(n: nat)
    requires n < 0x1_0000_0000_0000_0000
    ensures InRange(Split(n)) && Combined(Split(n)) == n
  {
    CombinedInRange(Split(n));
    assert n / TWO40 < TWO24;
  }

  /** d is c with at least one counter moved on and none back. */
  predicate Advanced(c: Counters, d: Counters) {
    c.name <= d.name && c.adj <= d.adj && c.cor <= d.cor && c != d
  }

  /** In range, moving any counter on makes the published number strictly larger. */
  lemma CombinedGrows(c: Counters, d: Counters)
    requires InRange(c) && InRange(d) && Advanced(c, d)
    ensures Combined(c) < Combined(d)
  {
    CombinedInRange(c);
    CombinedInRange(d);
  }

  /** An adjacency counter that leaves its field spills into the lowest coordinate bit: the number still grows
      exactly if that bit was clear. */
  lemma NextAdjGrows(c: Counters)
    requires InRange(c)
    ensures Combined(c) < Combined(c.(adj := c.adj + 1)) <==> c.adj + 1 < TWO20 || c.cor % 2 == 0
  {
    CombinedInRange(c);
    if c.adj + 1 < TWO20 {
      CombinedInRange(c.(adj := c.adj + 1));
    } else {
      AdjSpills(c);
      CombinedInRange(Counters(c.name, 0, Or(1, c.cor)));
    }
  }

  lemma AdjSpills(c: Counters)
    requires InRange(c) && c.adj + 1 == TWO20
    ensures Or(1, c.cor) == (if c.cor % 2 == 0 then c.cor + 1 else c.cor) < TWO20
    ensures Combined(c.(adj := c.adj + 1)) == Combined(Counters(c.name, 0, Or(1, c.cor)))
  {
    OrOne(c.cor);
    var k := Or(1, c.cor);
    assert Shifted(c.cor, TWO20) == c.cor * TWO20 && Shifted(k, TWO20) == k * TWO20;
    assert Or(TWO20, c.cor * TWO20) == k * TWO20 by {
      PowersOfTwo();
      OrAbove(0, 1, c.cor, 20);
    }
  }

  /** The coordinate counter spills into the lowest Name bit. */
  lemma NextCorGrows(c: Counters)
    requires InRange(c)
    ensures Combined(c) < Combined(c.(cor := c.cor + 1)) <==> c.cor + 1 < TWO20 || c.name % 2 == 0
  {
    CombinedInRange(c);
    if c.cor + 1 < TWO20 {
      CombinedInRange(c.(cor := c.cor + 1));
    } else {
      CorSpills(c);
    }
  }

  lemma CorSpills(c: Counters)
    requires InRange(c) && c.cor + 1 == TWO20
    ensures Combined(c.(cor := c.cor + 1)) == c.adj + (if c.name % 2 == 0 then c.name + 1 else c.name) * TWO40
  {
    PowersOfTwo();
    OrAddsDisjoint(c.adj, 1, 40);
    OrAbove(c.adj, 1, c.name, 40);
    OrOne(c.name);
    ShiftedFits(c.(cor := TWO20));
  }

  /** The Name counter spills out of the word. */
  lemma NextNameGrows(c: Counters)
    requires InRange(c)
    ensures Combined(c) < Combined(c.(name := c.name + 1)) <==> c.name + 1 < TWO24
  {
    CombinedInRange(c);
    if c.name + 1 < TWO24 {
      CombinedInRange(c.(name := c.name + 1));
    } else {
      CombinedInRange(c.(name := 0));
      assert Shifted(TWO24, TWO40) == 0 && Shifted(0, TWO40) == 0;
    }
  }

  lemma OrOne(b: nat)
    ensures Or(1, b) == if b % 2 == 0 then b + 1 else b
  {
  }

  /** The counters, their packed form, and the file the packed form is kept in. */
  class SequencingManager {
    var nameLsaSeq: nat
    var adjLsaSeq: nat
    var corLsaSeq: nat
    var combinedSeqNo: nat
    /** What the sequence number file holds, if it exists. */
    var file: Option<nat>

    ghost function State(): Counters
      reads this
    {
      Counters(nameLsaSeq, adjLsaSeq, corLsaSeq)
    }

    ghost predicate Valid()
      reads this
    {
      combinedSeqNo == Combined(State())
    }

    constructor (seqNo: nat)
      requires seqNo < WORD
      ensures Valid() && combinedSeqNo == seqNo && State() == Split(seqNo)
    {
      file := None;
      combinedSeqNo := seqNo;
      adjLsaSeq := seqNo % TWO20;
      corLsaSeq := (seqNo / TWO20) % TWO20;
      nameLsaSeq := (seqNo / TWO40) % TWO24;
      CombineUndoesSplit(seqNo);
    }

    method SplitSequenceNo(seqNo: nat)
      requires seqNo < WORD
      modifies this`nameLsaSeq, this`adjLsaSeq, this`corLsaSeq, this`combinedSeqNo
      ensures Valid() && combinedSeqNo == seqNo && State() == Split(seqNo)
    {
      combinedSeqNo := seqNo;
      adjLsaSeq := combinedSeqNo % TWO20;
      corLsaSeq := (combinedSeqNo / TWO20) % TWO20;
      nameLsaSeq := (combinedSeqNo / TWO40) % TWO24;
      CombineUndoesSplit(seqNo);
    }

    method CombineSequenceNo()
      modifies this`combinedSeqNo
      ensures Valid()
    {
      combinedSeqNo := 0;
      combinedSeqNo := Or(combinedSeqNo, adjLsaSeq);
      combinedSeqNo := Or(combinedSeqNo, Shifted(corLsaSeq, TWO20));
      combinedSeqNo := Or(combinedSeqNo, Shifted(nameLsaSeq, TWO40));
    }

    method SetNameLsaSeq(n: nat)
      modifies this`nameLsaSeq, this`adjLsaSeq, this`corLsaSeq, this`combinedSeqNo
      ensures Valid() && State() == old(State()).(name := n)
    {
      nameLsaSeq := n;
      CombineSequenceNo();
    }

    method SetAdjLsaSeq(n: nat)
      modifies this`nameLsaSeq, this`adjLsaSeq, this`corLsaSeq, this`combinedSeqNo
      ensures Valid() && State() == old(State()).(adj := n)
    {
      adjLsaSeq := n;
      CombineSequenceNo();
    }

    method SetCorLsaSeq(n: nat)
      modifies this`nameLsaSeq, this`adjLsaSeq, this`corLsaSeq, this`combinedSeqNo
      ensures Valid() && State() == old(State()).(cor := n)
    {
      corLsaSeq := n;
      CombineSequenceNo();
    }

    method IncreaseNameLsaSeq()
      modifies this`nameLsaSeq, this`adjLsaSeq, this`corLsaSeq, this`combinedSeqNo
      ensures Valid() && State() == old(State()).(name := old(nameLsaSeq) + 1)
    {
      nameLsaSeq := nameLsaSeq + 1;
      CombineSequenceNo();
    }

    method IncreaseAdjLsaSeq()
      modifies this`nameLsaSeq, this`adjLsaSeq, this`corLsaSeq, this`combinedSeqNo
      ensures Valid() && State() == old(State()).(adj := old(adjLsaSeq) + 1)
    {
      adjLsaSeq := adjLsaSeq + 1;
      CombineSequenceNo();
    }

    method IncreaseCorLsaSeq()
      modifies this`nameLsaSeq, this`adjLsaSeq, this`corLsaSeq, this`combinedSeqNo
      ensures Valid() && State() == old(State()).(cor := old(corLsaSeq) + 1)
    {
      corLsaSeq := corLsaSeq + 1;
      CombineSequenceNo();
    }

    method WriteSeqNoToFile()
      modifies this`file
      ensures file == Some(combinedSeqNo)
    {
      file := Some(combinedSeqNo);
    }

    /** At start-up the counters resume ten above the file's, or from 0 without a file. */
    method InitiateSeqNoFromFile()
      requires file.Some? ==> file.value < WORD
      modifies this`nameLsaSeq, this`adjLsaSeq, this`corLsaSeq, this`combinedSeqNo
      ensures Valid()
      ensures State() == if file.Some? then Resumed(Split(file.value)) else Counters(0, 0, 0)
    {
      if file.Some? {
        SplitSequenceNo(file.value);
        adjLsaSeq := adjLsaSeq + 10;
        corLsaSeq := corLsaSeq + 10;
        nameLsaSeq := nameLsaSeq + 10;
        CombineSequenceNo();
      } else {
        SplitSequenceNo(0);
      }
    }
  }

  function Resumed(c: Counters): Counters {
    Counters(c.name + 10, c.adj + 10, c.cor + 10)
  }

  // ----- lives of a router -----

  /** What happens to the counters: one moves on, unpublished; one moves on and is published, which also
      writes the file; or the router restarts from the file. Nothing is published without a move. */
  datatype Step = Move(to: Counters) | Publish(to: Counters) | Restart

  /** The counters in memory, the file, and everything published so far, oldest first. */
  datatype Life = Life(counters: Counters, file: Option<nat>, published: seq<Counters>)

  ghost function AfterStep(l: Life, s: Step): Life {
    match s
    case Move(to) => l.(counters := to)
    case Publish(to) => Life(to, Some(Combined(to)), l.published + [to])
    case Restart => l.(counters := if l.file.Some? then Resumed(Split(l.file.value)) else Counters(0, 0, 0))
  }

  ghost function Lived(steps: seq<Step>): Life {
    if steps == [] then Life(Counters(0, 0, 0), None, []) else AfterStep(Lived(steps[..|steps| - 1]), steps[|steps| - 1])
  }

  /** Counters only ever move on. */
  ghost predicate StepsOn(l: Life, s: Step) {
    !s.Restart? ==> Advanced(l.counters, s.to)
  }

  ghost predicate Possible(steps: seq<Step>) {
    steps == []
    || (var init, s := steps[..|steps| - 1], steps[|steps| - 1];
        Possible(init) && StepsOn(Lived(init), s))
  }

  /** No counter is ahead of d's. */
  predicate NotAhead(c: Counters, d: Counters) {
    c.name <= d.name && c.adj <= d.adj && c.cor <= d.cor
  }

  ghost predicate PublishesInRange(l: Life) {
    forall i :: 0 <= i < |l.published| ==> InRange(l.published[i])
  }

  /** Nothing published is ahead of the file, nor the file ahead of memory. */
  ghost predicate LifeOk(l: Life) {
    && (l.file.None? <==> l.published == [])
    && (l.file.Some? ==> Split(l.file.value) == l.published[|l.published| - 1] && NotAhead(Split(l.file.value), l.counters))
    && forall i, j :: 0 <= i < j < |l.published| ==> Advanced(l.published[i], l.published[j])
  }

  lemma StepKeepsLifeOk(l: Life, s: Step)
    requires LifeOk(l) && PublishesInRange(l) && StepsOn(l, s) && (s.Publish? ==> InRange(s.to))
    ensures LifeOk(AfterStep(l, s)) && PublishesInRange(AfterStep(l, s))
  {
    if s.Publish? {
      SplitUndoesCombine(s.to);
      forall i | 0 <= i < |l.published|
        ensures Advanced(l.published[i], s.to)
      {
        assert NotAhead(l.published[i], l.counters);
      }
    }
  }

  lemma {:induction false} LivesAreOk(steps: seq<Step>)
    requires Possible(steps) && PublishesInRange(Lived(steps))
    ensures LifeOk(Lived(steps))
  {
    if steps != [] {
      var init, s := steps[..|steps| - 1], steps[|steps| - 1];
      var before, l := Lived(init), Lived(steps);
      forall i | 0 <= i < |before.published|
        ensures InRange(before.published[i])
      {
        assert before.published[i] == l.published[i];
      }
      LivesAreOk(init);
      if s.Publish? { assert l.published[|l.published| - 1] == s.to; }
      StepKeepsLifeOk(before, s);
    }
  }

  /** Over all lives of a router, while what it publishes stays in range, each published number is larger
      than every earlier one. */
  lemma PublishedGrow(steps: seq<Step>, i: nat, j: nat)
    requires Possible(steps) && PublishesInRange(Lived(steps))
    requires i < j < |Lived(steps).published|
    ensures var p := Lived(steps).published;
            Advanced(p[i], p[j]) && Combined(p[i]) < Combined(p[j])
  {
    LivesAreOk(steps);
    CombinedGrows(Lived(steps).published[i], Lived(steps).published[j]);
  }

  /** After a restart every counter is ten above what was published last, and so at least ten above every value
      published in earlier lives. */
  lemma RestartExceeds(steps: seq<Step>, i: nat)
    requires Possible(steps) && PublishesInRange(Lived(steps)) && i < |Lived(steps).published|
    ensures var c, p := AfterStep(Lived(steps), Restart).counters, Lived(steps).published;
            && c == Counters(p[|p| - 1].name + 10, p[|p| - 1].adj + 10, p[|p| - 1].cor + 10)
            && p[i].name + 10 <= c.name && p[i].adj + 10 <= c.adj && p[i].cor + 10 <= c.cor
  {
    LivesAreOk(steps);
    var p := Lived(steps).published;
    assert i == |p| - 1 || Advanced(p[i], p[|p| - 1]);
  }

  // ----- numbers handed out by one running router -----

  /** The numbers grow, and none is above what the counters now combine to. */
  ghost predicate Growing(published: seq<nat>, c: Counters) {
    && (forall i, j :: 0 <= i < j < |published| ==> published[i] < published[j])
    && forall i :: 0 <= i < |published| ==> published[i] <= Combined(c)
  }

  /** While the counters are in range, what is published keeps growing. */
  ghost predicate KeepsGrowing(published: seq<nat>, c: Counters, published': seq<nat>, c': Counters) {
    Growing(published, c) && InRange(c) && InRange(c') ==> Growing(published', c')
  }

  /** A counter moves on, and the new number is published or not. */
  lemma MoveKeepsGrowing(published: seq<nat>, c: Counters, c': Counters)
    requires Advanced(c, c')
    ensures KeepsGrowing(published, c, published, c') && KeepsGrowing(published, c, published + [Combined(c')], c')
  {
    if Growing(published, c) && InRange(c) && InRange(c') {
      CombinedGrows(c, c');
    }
  }
}
