/** Shutting down graphs with loops: objects that nullify all their interfaces first, and objects that do not. */
module InterfaceLoops {
  import opened InterfaceSpec
  import opened InterfaceTrees

  // ----- Objects that nullify all their interfaces before shutting any

  /** Every close operation nullifies every interface of its object first, as intfs_shutdown() does. */
  ghost predicate Thorough(w: Wiring) {
    forall o :: o in w.closer ==> w.closer[o].nullifyFirst && Covers(w, o, w.closer[o].intfs)
  }

  ghost predicate Covers(w: Wiring, o: nat, intfs: seq<nat>) {
    forall i :: i in w.holder && w.holder[i] == o ==> i in intfs
  }

  /** No object has been closed twice, and those closed no longer receive operations. */
  ghost predicate Quiet(w: Wiring, s: State) {
    && (forall o :: o in s.closed ==> o in w.closer && multiset(s.closed)[o] == 1)
    && (forall i :: i in w.holder && w.holder[i] in s.closed ==> i in s.nulled)
  }

  /** In any graph of such objects, no shutdown ever closes an object twice, whatever loops the links form. */
  lemma {:induction false} ShutdownQuiet(w: Wiring, s: State, i: nat)
    requires Thorough(w) && Quiet(w, s)
    ensures Quiet(w, Shutdown(w, s, i)) && s.nulled <= Shutdown(w, s, i).nulled && i in Shutdown(w, s, i).nulled
    decreases s.dest.Keys, 0, 0
  {
    hide Notify, Thorough;
    var cut := SetDest(Nullify(s, [i]), i, NULL);
    if i in s.dest {
      ShutStep(w, s, i);
      NotifyQuiet(w, Get(w, cut, s.dest[i]), s.dest[i]);
    }
  }

  lemma {:induction false} NotifyQuiet(w: Wiring, s: State, d: nat)
    requires Thorough(w) && Quiet(w, s)
    ensures Quiet(w, Notify(w, s, d)) && s.nulled <= Notify(w, s, d).nulled
    decreases s.dest.Keys, 2, 0
  {
    hide Shutdown, ShutdownEach;
    if d == NULL || d in s.nulled {
    } else if w.HasCloser(d) {
      var o := w.holder[d];
      var c := w.closer[o];
      var n := Nullify(s.(closed := s.closed + [o]), c.intfs);
      assert multiset(s.closed + [o]) == multiset(s.closed) + multiset{o};
      assert Covers(w, o, c.intfs);
      assert Quiet(w, n);
      EachQuiet(w, n, c.intfs);
    } else {
      ShutdownQuiet(w, s, d);
    }
  }

  lemma {:induction false} EachQuiet(w: Wiring, s: State, intfs: seq<nat>)
    requires Thorough(w) && Quiet(w, s)
    ensures Quiet(w, ShutdownEach(w, s, intfs)) && s.nulled <= ShutdownEach(w, s, intfs).nulled
    decreases s.dest.Keys, 1, |intfs|
  {
    hide Shutdown, Thorough, Quiet;
    if intfs != [] {
      ShutdownQuiet(w, s, intfs[0]);
      EachQuiet(w, Shutdown(w, s, intfs[0]), intfs[1..]);
    }
  }

  lemma EachOne(w: Wiring, s: State, i: nat)
    ensures ShutdownEach(w, s, [i]) == Shutdown(w, s, i)
  {
    assert [i][1..] == [];
  }

  lemma EachTwo(w: Wiring, s: State, i: nat, j: nat)
    ensures ShutdownEach(w, s, [i, j]) == Shutdown(w, Shutdown(w, s, i), j)
  {
    assert [i, j][1..] == [j];
    EachOne(w, Shutdown(w, s, i), j);
  }

  /** Two filters in a loop that shut their interfaces one at a time, closed through a third interface of the first. */
  ghost const RING: Wiring := Wiring(map[1 := 10, 2 := 10, 5 := 10, 3 := 20, 4 := 20],
                                     map[10 := Closer([5, 2, 1], false), 20 := Closer([4, 3], false)])

  ghost predicate Links(s: State, i: nat, d: nat) {
    i in s.dest && s.dest[i] == d
  }

  /** Without nullifying first, a loop of links has a close operation run twice. */
  lemma RingClosedTwice(s: State)
    requires Links(s, 6, 5) && Links(s, 5, 6) && Links(s, 2, 3) && Links(s, 3, 2) && Links(s, 4, 1) && Links(s, 1, 4)
    requires s.nulled == {} && s.closed == []
    ensures multiset(Shutdown(RING, s, 6).closed)[10] == 2
  {
    hide Shutdown, ShutdownEach, Put;
    ShutStep(RING, s, 6);
    var g := Get(RING, SetDest(Nullify(s, [6]), 6, NULL), 5);
    RingNotify(g, 5, 10);
    RingFirst(g.(closed := g.closed + [10]));
  }

  lemma RingNotify(s: State, d: nat, o: nat)
    requires d in RING.holder && RING.holder[d] == o && d !in s.nulled && d != NULL && o in RING.closer
    ensures Notify(RING, s, d) == ShutdownEach(RING, s.(closed := s.closed + [o]), RING.closer[o].intfs)
  {
    hide ShutdownEach;
  }

  lemma RingFirst(a: State)
    requires Links(a, 5, 6) && Links(a, 2, 3) && Links(a, 3, 2) && Links(a, 4, 1) && Links(a, 1, 4)
    requires a.nulled == {6} && a.closed == [10]
    ensures ShutdownEach(RING, a, [5, 2, 1]).closed == [10, 20, 10]
  {
    hide Shutdown, ShutdownEach, Put, Notify;
    EachThree(RING, a, 5, 2, 1);
    ShutBack(RING, a, 5);
    var b := Shutdown(RING, a, 5);
    ShutStep(RING, b, 2);
    var g := Get(RING, SetDest(Nullify(b, [2]), 2, NULL), 3);
    RingNotify(g, 3, 20);
    RingSecond(g.(closed := g.closed + [20]));
    ShutIdle(RING, Shutdown(RING, b, 2), 1);
  }

  lemma RingSecond(c: State)
    requires Links(c, 3, 2) && Links(c, 4, 1) && Links(c, 1, 4) && 5 !in c.dest && 2 !in c.dest
    requires c.nulled == {6, 5, 2} && c.closed == [10, 20]
    ensures var r := ShutdownEach(RING, c, [4, 3]); r.closed == [10, 20, 10] && 1 !in r.dest
  {
    hide Shutdown, ShutdownEach, Put, Notify;
    EachTwo(RING, c, 4, 3);
    ShutStep(RING, c, 4);
    var g := Get(RING, SetDest(Nullify(c, [4]), 4, NULL), 1);
    RingNotify(g, 1, 10);
    RingSettles(g.(closed := g.closed + [10]));
    ShutBack(RING, Shutdown(RING, c, 4), 3);
  }

  lemma EachThree(w: Wiring, s: State, i: nat, j: nat, k: nat)
    ensures ShutdownEach(w, s, [i, j, k]) == Shutdown(w, Shutdown(w, Shutdown(w, s, i), j), k)
  {
    assert [i, j, k][1..] == [j, k];
    EachTwo(w, Shutdown(w, s, i), j, k);
  }

  /** Shutting an interface that is not plugged closes nothing. */
  lemma ShutIdle(w: Wiring, s: State, i: nat)
    requires i !in s.dest
    ensures var r := Shutdown(w, s, i); r.dest == s.dest && r.nulled == s.nulled + {i} && r.closed == s.closed
  {}

  lemma RingSettles(d: State)
    requires Links(d, 3, 2) && Links(d, 1, 4) && 5 !in d.dest && 2 !in d.dest && d.nulled == {6, 5, 2, 4}
    ensures var e := ShutdownEach(RING, d, [5, 2, 1]);
            Links(e, 3, 2) && 1 !in e.dest && 2 in e.nulled && e.closed == d.closed
  {
    hide Shutdown, ShutdownEach;
    EachThree(RING, d, 5, 2, 1);
    ShutIdle(RING, d, 5);
    ShutIdle(RING, Shutdown(RING, d, 5), 2);
    ShutBack(RING, Shutdown(RING, Shutdown(RING, d, 5), 2), 1);
  }
}
