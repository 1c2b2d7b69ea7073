/**
 * Shutting down any graph of objects that shut all their interfaces one at a time: which objects are closed, and when
 * each of them is closed only once.
 */
module InterfaceLinks {
  import opened InterfaceSpec
  import opened InterfaceTrees
  import opened InterfaceLoops

  /** Every close operation shuts exactly the interfaces of its object, without nullifying all of them first. */
  ghost predicate Orderly(w: Wiring) {
    forall o :: o in w.closer ==> Shuts(w, o, w.closer[o])
  }

  ghost predicate Shuts(w: Wiring, o: nat, c: Closer) {
    !c.nullifyFirst && Covers(w, o, c.intfs) && forall i :: i in c.intfs ==> i in w.holder && w.holder[i] == o
  }

  /** The object of this interface has a close operation and is in the set. */
  ghost predicate Held(w: Wiring, j: nat, objects: set<nat>) {
    w.HasCloser(j) && w.holder[j] in objects
  }

  ghost predicate Mutual(dest: map<nat, nat>, j: nat) {
    j in dest && dest[j] in dest && dest[dest[j]] == j
  }

  /** What is plugged is not nullified, and plugged in both directions unless the other end has been cut off. */
  ghost predicate Settled(s: State) {
    NULL !in s.dest && forall j :: j in s.dest ==>
      j !in s.nulled && s.dest[j] != j && (Mutual(s.dest, j) || s.dest[j] in s.nulled)
  }

  /** An interface at which a close operation can start or arrive. */
  ghost predicate Ear(w: Wiring, root: nat, j: nat) {
    w.HasCloser(j) || j == root
  }

  /** Both ends of each link between such interfaces. */
  ghost function Live(w: Wiring, root: nat, dest: map<nat, nat>): set<nat> {
    set j | j in dest && Mutual(dest, j) && Ear(w, root, j) && Ear(w, root, dest[j])
  }

  /** No link leads out of the set, except to the interface where the shutdown started. */
  ghost predicate Contains(w: Wiring, root: nat, dest: map<nat, nat>, objects: set<nat>) {
    forall j :: Mutual(dest, j) && Held(w, j, objects) && w.HasCloser(dest[j]) && dest[j] != root ==>
      Held(w, dest[j], objects)
  }

  /** The objects closed since `s`. */
  ghost function Since(s: State, r: State): seq<nat>
    requires s.closed <= r.closed
  {
    r.closed[|s.closed|..]
  }

  /**
   * What happens between two states while the interfaces in `shut` are shut: links only go, two ends of them for each
   * object closed; closed objects have no links left; whatever went was shut or belongs to a closed object; and the
   * other end of a link that went is one of these, too.
   */
  ghost predicate Cascade(w: Wiring, root: nat, objects: set<nat>, s: State, r: State, shut: set<nat>) {
    && s.closed <= r.closed && Settled(r) && Shrinks(s.dest, r.dest)
    && 2 * |Since(s, r)| == |Live(w, root, s.dest)| - |Live(w, root, r.dest)|
    && (forall o :: o in Since(s, r) ==> o in objects && o in w.closer)
    && (forall j :: j in shut || (w.HasCloser(j) && w.holder[j] in Since(s, r)) ==> j !in r.dest)
    && (forall j :: j in s.dest && j !in r.dest && w.HasCloser(j) ==> j in shut || w.holder[j] in Since(s, r))
    && (forall j :: Mutual(s.dest, j) && w.HasCloser(s.dest[j])
                    && (j in shut || (w.HasCloser(j) && w.holder[j] in Since(s, r)))
                    ==> s.dest[j] in shut || w.holder[s.dest[j]] in Since(s, r))
  }

  ghost predicate Shrinks(before: map<nat, nat>, after: map<nat, nat>) {
    forall j :: j in after ==> j in before && after[j] == before[j]
  }

  lemma SinceParts(s: State, t: State, r: State)
    requires s.closed <= t.closed <= r.closed
    ensures Since(s, r) == Since(s, t) + Since(t, r)
  {
    assert r.closed == t.closed + Since(t, r);
  }

  lemma ContainsLater(w: Wiring, root: nat, before: map<nat, nat>, after: map<nat, nat>, objects: set<nat>)
    requires Shrinks(before, after) && Contains(w, root, before, objects)
    ensures Contains(w, root, after, objects)
  {
    forall j | Mutual(after, j)
      ensures Mutual(before, j) && before[j] == after[j]
    {}
  }

  /** One part of a shutdown after the other. */
  lemma CascadeTrans(w: Wiring, root: nat, objects: set<nat>, s: State, t: State, r: State, a: set<nat>, b: set<nat>)
    requires Cascade(w, root, objects, s, t, a) && Cascade(w, root, objects, t, r, b)
    requires forall j :: j in a || j in b ==> w.HasCloser(j)
    ensures Cascade(w, root, objects, s, r, a + b)
  {
    hide Settled, Live;
    SinceParts(s, t, r);
    forall j | Mutual(s.dest, j) && (j in a + b || (w.HasCloser(j) && w.holder[j] in Since(s, r))) &&
      w.HasCloser(s.dest[j])
      ensures s.dest[j] in a + b || w.holder[s.dest[j]] in Since(s, r)
    {
      if j in t.dest && s.dest[j] in t.dest {
        assert Mutual(t.dest, j);
      }
    }
  }

  /** Nothing is shut. */
  lemma CascadeNone(w: Wiring, root: nat, objects: set<nat>, s: State)
    requires Settled(s)
    ensures Cascade(w, root, objects, s, s, {})
  {}

  /** Shutting what is not plugged. */
  lemma CascadeIdle(w: Wiring, root: nat, objects: set<nat>, s: State, r: State, a: nat)
    requires Settled(s) && a !in s.dest && r.dest == s.dest && r.nulled == s.nulled + {a} && r.closed == s.closed
    ensures Cascade(w, root, objects, s, r, {a})
  {}

  /** Shutting what is plugged into an interface that does not hear of it. */
  lemma CascadeDeaf(w: Wiring, root: nat, objects: set<nat>, s: State, r: State, a: nat)
    requires Settled(s) && a in s.dest && s.dest[a] in s.nulled
    requires r.dest == s.dest - {a} && r.nulled == s.nulled + {a} && r.closed == s.closed
    ensures Cascade(w, root, objects, s, r, {a})
  {
    assert !Mutual(s.dest, a);
    assert forall j :: Mutual(s.dest, j) <==> Mutual(r.dest, j);
    assert Live(w, root, s.dest) == Live(w, root, r.dest);
  }

  /** Shutting what is plugged into an interface that restarts. */
  lemma CascadeRestart(w: Wiring, root: nat, objects: set<nat>, s: State, r: State, a: nat)
    requires Settled(s) && Mutual(s.dest, a) && !Ear(w, root, s.dest[a])
    requires r.dest == s.dest - {a, s.dest[a]} && r.nulled == s.nulled + {a} && r.closed == s.closed
    ensures Cascade(w, root, objects, s, r, {a})
  {
    assert forall j :: Mutual(r.dest, j) <==> Mutual(s.dest, j) && j != a && j != s.dest[a];
    assert Live(w, root, s.dest) == Live(w, root, r.dest);
  }

  /**
   * Shutting what is plugged into an object with a close operation: first the link, then all interfaces of the
   * object.
   */
  lemma CascadeClose(w: Wiring, root: nat, objects: set<nat>, s: State, g: State, r: State, a: nat)
    requires Orderly(w) && Settled(s) && Mutual(s.dest, a) && Ear(w, root, a) && Held(w, s.dest[a], objects)
    requires g.dest == s.dest - {a} && g.nulled == s.nulled + {a} && g.closed == s.closed + [w.holder[s.dest[a]]]
    requires Cascade(w, root, objects, g, r, Elements(w.closer[w.holder[s.dest[a]]].intfs))
    ensures Cascade(w, root, objects, s, r, {a})
  {
    hide Settled, Live;
    var d := s.dest[a];
    var o := w.holder[d];
    assert Shuts(w, o, w.closer[o]);
    SinceParts(s, g, r);
    assert Since(s, g) == [o];
    LinkCut(w, root, s, g.dest, a);
    forall j | Mutual(s.dest, j) && j != a && j != d
      ensures Mutual(g.dest, j)
    {}
  }

  /** Cutting one end of a link between ears takes both ends out of the links. */
  lemma LinkCut(w: Wiring, root: nat, s: State, after: map<nat, nat>, a: nat)
    requires Settled(s) && Mutual(s.dest, a) && Ear(w, root, a) && Ear(w, root, s.dest[a]) && after == s.dest - {a}
    ensures |Live(w, root, s.dest)| == |Live(w, root, after)| + 2
  {
    var d := s.dest[a];
    assert forall j :: Mutual(after, j) <==> Mutual(s.dest, j) && j != a && j != d;
    assert Live(w, root, s.dest) == Live(w, root, after) + {a, d};
  }

  lemma SettledCut(s: State, g: State, a: nat)
    requires Settled(s) && g.dest == s.dest - {a} && g.nulled == s.nulled + {a}
    ensures Settled(g)
  {
    forall j | j in g.dest && Mutual(s.dest, j) && s.dest[j] != a
      ensures Mutual(g.dest, j)
    {}
  }

  /** A cascade depends on neither counts nor what was freed. */
  lemma CascadeSame(w: Wiring, root: nat, objects: set<nat>, s: State, q: State, r: State, shut: set<nat>)
    requires Cascade(w, root, objects, s, q, shut) && r.dest == q.dest && r.nulled == q.nulled && r.closed == q.closed
    ensures Cascade(w, root, objects, s, r, shut)
  {}

  // ----- Every shutdown is such a cascade

  /** An interface that may be shut: the first of all, or one of an object in the set. */
  ghost predicate MayShut(w: Wiring, root: nat, objects: set<nat>, s: State, a: nat) {
    && (a == root || (Held(w, a, objects) && root !in s.dest))
    && (Mutual(s.dest, a) && w.HasCloser(s.dest[a]) ==> Held(w, s.dest[a], objects))
  }

  lemma {:induction false} ShutdownCascades(w: Wiring, root: nat, objects: set<nat>, s: State, a: nat)
    requires Orderly(w) && Settled(s) && Contains(w, root, s.dest, objects) && MayShut(w, root, objects, s, a)
    ensures Cascade(w, root, objects, s, Shutdown(w, s, a), {a})
    decreases s.dest.Keys, 0, 0
  {
    hide Shutdown, Cascade, Notify, Orderly, Contains;
    if a !in s.dest {
      ShutIdle(w, s, a);
      CascadeIdle(w, root, objects, s, Shutdown(w, s, a), a);
    } else if s.dest[a] in s.nulled {
      ShutBack(w, s, a);
      CascadeDeaf(w, root, objects, s, Shutdown(w, s, a), a);
    } else {
      var d := s.dest[a];
      var g := Get(w, SetDest(Nullify(s, [a]), a, NULL), d);
      ShutStep(w, s, a);
      GetCut(w, s, a);
      if w.HasCloser(d) {
        var o := w.holder[d];
        var h := g.(closed := g.closed + [o]);
        SettledCut(s, h, a);
        ContainsLater(w, root, s.dest, h.dest, objects);
        ClosesEach(w, g, d);
        EachCascades(w, root, objects, h, w.closer[o].intfs);
        var q := Notify(w, g, d);
        CascadeClose(w, root, objects, s, h, q, a);
        CascadeSame(w, root, objects, s, q, Shutdown(w, s, a), {a});
      } else {
        RestartsOnly(w, g, d);
        CascadeRestart(w, root, objects, s, Shutdown(w, s, a), a);
      }
    }
  }

  lemma GetCut(w: Wiring, s: State, a: nat)
    requires a in s.dest
    ensures var g := Get(w, SetDest(Nullify(s, [a]), a, NULL), s.dest[a]);
            g.dest == s.dest - {a} && g.nulled == s.nulled + {a} && g.closed == s.closed
  {}

  lemma ClosesEach(w: Wiring, s: State, d: nat)
    requires Orderly(w) && d != NULL && d !in s.nulled && w.HasCloser(d)
    ensures var o := w.holder[d];
            && Notify(w, s, d) == ShutdownEach(w, s.(closed := s.closed + [o]), w.closer[o].intfs)
            && forall i :: i in w.closer[o].intfs ==> i in w.holder && w.holder[i] == o
  {
    hide ShutdownEach;
    assert Shuts(w, w.holder[d], w.closer[w.holder[d]]);
  }

  lemma RestartsOnly(w: Wiring, s: State, d: nat)
    requires d != NULL && d !in s.nulled && !w.HasCloser(d) && d in s.dest && s.dest[d] in s.nulled
    ensures var q := Notify(w, s, d); q.dest == s.dest - {d} && q.nulled == s.nulled && q.closed == s.closed
  {
    hide Shutdown;
    ShutBack(w, s, d);
  }

  lemma CascadeLinks(w: Wiring, root: nat, objects: set<nat>, s: State, r: State, shut: set<nat>)
    requires Cascade(w, root, objects, s, r, shut)
    ensures Settled(r) && Shrinks(s.dest, r.dest) && s.closed <= r.closed
  {}

  lemma NextMayShut(w: Wiring, root: nat, objects: set<nat>, s: State, a: nat)
    requires Contains(w, root, s.dest, objects) && root !in s.dest && Held(w, a, objects)
    ensures MayShut(w, root, objects, s, a)
  {}

  lemma {:induction false} EachCascades(w: Wiring, root: nat, objects: set<nat>, s: State, intfs: seq<nat>)
    requires Orderly(w) && Settled(s) && Contains(w, root, s.dest, objects) && root !in s.dest
    requires forall i :: i in intfs ==> Held(w, i, objects)
    ensures Cascade(w, root, objects, s, ShutdownEach(w, s, intfs), Elements(intfs))
    decreases s.dest.Keys, 1, |intfs|
  {
    hide Shutdown, Orderly, Cascade, Settled, Contains, MayShut;
    if intfs == [] {
      CascadeNone(w, root, objects, s);
      assert Elements(intfs) == {};
    } else {
      var a, rest := intfs[0], intfs[1..];
      NextMayShut(w, root, objects, s, a);
      ShutdownCascades(w, root, objects, s, a);
      var t := Shutdown(w, s, a);
      CascadeLinks(w, root, objects, s, t, {a});
      ContainsLater(w, root, s.dest, t.dest, objects);
      EachCascades(w, root, objects, t, rest);
      CascadeTrans(w, root, objects, s, t, ShutdownEach(w, t, rest), {a}, Elements(rest));
      assert Elements(intfs) == {a} + Elements(rest);
    }
  }

  // ----- Which objects are closed, and how often

  /** Everything is plugged in both directions and nothing that is plugged is nullified. */
  ghost predicate Linked(s: State) {
    NULL !in s.dest && forall j :: j in s.dest ==> j !in s.nulled && s.dest[j] != j && Mutual(s.dest, j)
  }

  /**
   * The set has the object, if it has a close operation, at the other end of interface `i`, and with each object those
   * at the other ends of its links, other than `i` itself.
   */
  ghost predicate Spreads(w: Wiring, s: State, i: nat, objects: set<nat>)
    requires i in s.dest
  {
    && (w.HasCloser(s.dest[i]) ==> Held(w, s.dest[i], objects))
    && forall j :: j in s.dest && Held(w, j, objects) && w.HasCloser(s.dest[j]) && s.dest[j] != i ==>
      Held(w, s.dest[j], objects)
  }

  /** The objects that links lead to from interface `i`: the least such set. */
  ghost predicate Reached(w: Wiring, s: State, i: nat, objects: set<nat>)
    requires i in s.dest
  {
    && Spreads(w, s, i, objects) && objects <= w.closer.Keys
    && forall others: set<nat> :: Spreads(w, s, i, others) ==> objects <= others
  }

  /** Both ends of each link of these objects with each other or with interface `i`. */
  ghost function LinkEnds(w: Wiring, s: State, i: nat, objects: set<nat>): set<nat> {
    set j | j in Live(w, i, s.dest) && (Held(w, j, objects) || Held(w, s.dest[j], objects))
  }

  lemma LinkedSettled(w: Wiring, s: State, i: nat, objects: set<nat>)
    requires Linked(s) && i in s.dest && Spreads(w, s, i, objects)
    ensures Settled(s) && Contains(w, i, s.dest, objects) && MayShut(w, i, objects, s, i)
  {}

  /** What a shutdown closes spreads. */
  lemma CascadeSpreads(w: Wiring, s: State, i: nat, objects: set<nat>, r: State)
    requires Linked(s) && i in s.dest && Cascade(w, i, objects, s, r, {i})
    ensures Spreads(w, s, i, Elements(Since(s, r))) && Elements(Since(s, r)) <= objects
  {
    hide Settled, Live;
    assert Mutual(s.dest, i);
  }

  /** The links that a shutdown cuts are those of the objects that it closes. */
  lemma CascadeEnds(w: Wiring, s: State, i: nat, objects: set<nat>, r: State)
    requires Linked(s) && i in s.dest && Cascade(w, i, objects, s, r, {i})
    ensures |LinkEnds(w, s, i, Elements(Since(s, r)))| == 2 * |Since(s, r)|
  {
    hide Cascade, LinkEnds, Live, Linked, Spreads, Settled;
    CascadeSpreads(w, s, i, objects, r);
    CascadeCount(w, i, objects, s, r, {i});
    var ends, before, after := LinkEnds(w, s, i, Elements(Since(s, r))), Live(w, i, s.dest), Live(w, i, r.dest);
    forall j | j in before
      ensures j in after <==> j !in ends
    {
      EndGone(w, s, i, objects, r, j);
    }
    LiveLater(w, i, s.dest, r.dest);
    EndsLive(w, s, i, Elements(Since(s, r)));
    assert before == after + ends && after !! ends;
  }

  lemma CascadeCount(w: Wiring, root: nat, objects: set<nat>, s: State, r: State, shut: set<nat>)
    requires Cascade(w, root, objects, s, r, shut)
    ensures s.closed <= r.closed && Shrinks(s.dest, r.dest)
    ensures 2 * |Since(s, r)| == |Live(w, root, s.dest)| - |Live(w, root, r.dest)|
  {}

  lemma LiveLater(w: Wiring, root: nat, before: map<nat, nat>, after: map<nat, nat>)
    requires Shrinks(before, after)
    ensures Live(w, root, after) <= Live(w, root, before)
  {
    forall j | Mutual(after, j)
      ensures Mutual(before, j)
    {}
  }

  lemma EndsLive(w: Wiring, s: State, i: nat, objects: set<nat>)
    ensures LinkEnds(w, s, i, objects) <= Live(w, i, s.dest)
  {}

  lemma EndGone(w: Wiring, s: State, i: nat, objects: set<nat>, r: State, j: nat)
    requires Linked(s) && i in s.dest && Cascade(w, i, objects, s, r, {i}) && j in Live(w, i, s.dest)
    requires Spreads(w, s, i, Elements(Since(s, r)))
    ensures j in Live(w, i, r.dest) <==> j !in LinkEnds(w, s, i, Elements(Since(s, r)))
  {
    assert Mutual(s.dest, j) && Mutual(s.dest, s.dest[j]);
  }

  lemma {:induction false} Distinct(list: seq<nat>)
    ensures |Elements(list)| <= |list| &&
      (|Elements(list)| == |list| <==> forall o :: o in list ==> multiset(list)[o] == 1)
    decreases list
  {
    if list == [] {
      assert Elements(list) == {};
    } else {
      var rest := list[1..];
      assert list == [list[0]] + rest;
      Distinct(rest);
      assert Elements(list) == {list[0]} + Elements(rest);
      if list[0] in rest {
        assert Elements(list) == Elements(rest);
        assert multiset(list)[list[0]] > 1;
      } else {
        assert forall o :: o in rest ==> multiset(list)[o] == multiset(rest)[o];
      }
    }
  }

  /** The objects that a shutdown closes are those that links lead to. */
  lemma ClosedAreReached(w: Wiring, s: State, i: nat)
    requires Orderly(w) && Linked(s) && i in s.dest
    ensures s.closed <= Shutdown(w, s, i).closed && Reached(w, s, i, Elements(Since(s, Shutdown(w, s, i))))
  {
    hide Shutdown, Cascade, Orderly, Spreads;
    var r := Shutdown(w, s, i);
    var all := w.closer.Keys;
    AllSpread(w, s, i);
    LinkedSettled(w, s, i, all);
    ShutdownCascades(w, i, all, s, i);
    CascadeLinks(w, i, all, s, r, {i});
    CascadeSpreads(w, s, i, all, r);
    forall others: set<nat> | Spreads(w, s, i, others)
      ensures Elements(Since(s, r)) <= others
    {
      LinkedSettled(w, s, i, others);
      ShutdownCascades(w, i, others, s, i);
      CascadeSpreads(w, s, i, others, r);
    }
  }

  lemma AllSpread(w: Wiring, s: State, i: nat)
    requires i in s.dest
    ensures Spreads(w, s, i, w.closer.Keys)
  {}

  /**
   * In any graph of such objects, whatever loops the links form, a shutdown closes exactly the objects that links lead
   * to, as many times in all as they have links. So each is closed only once if and only if there are as many links as
   * objects.
   */
  lemma ClosedOnceExactly(w: Wiring, s: State, i: nat, objects: set<nat>)
    requires Orderly(w) && Linked(s) && i in s.dest && Reached(w, s, i, objects)
    ensures var r := Shutdown(w, s, i);
            && s.closed <= r.closed && Elements(Since(s, r)) == objects
            && |LinkEnds(w, s, i, objects)| == 2 * |Since(s, r)|
            && ((forall o :: o in objects ==> multiset(Since(s, r))[o] == 1) <==>
              |LinkEnds(w, s, i, objects)| == 2 * |objects|)
  {
    hide Shutdown, Cascade, Orderly, Spreads, LinkEnds;
    var r := Shutdown(w, s, i);
    LinkedSettled(w, s, i, objects);
    ShutdownCascades(w, i, objects, s, i);
    CascadeLinks(w, i, objects, s, r, {i});
    CascadeSpreads(w, s, i, objects, r);
    CascadeEnds(w, s, i, objects, r);
    Distinct(Since(s, r));
  }
}
