/** The object interfaces of src/core/interface.c, updated in place, with the reference counts of src/core/refcnt.c. */
module Interface {
  import opened InterfaceSpec
  import opened InterfaceCounts
  import opened InterfaceChains

  class Graph {
    const w: Wiring
    var dest: map<nat, nat>
    var nulled: set<nat>
    var count: map<nat, int>
    /** The objects whose close and free methods have run, in order. */
    var closed: seq<nat>
    var freed: seq<nat>
    /** The references held by callers: those of owners, and those of operations in progress. */
    ghost var held: multiset<nat>

    ghost function View(): State
      reads this
    {
      State(dest, nulled, count, closed, freed)
    }

    ghost predicate Valid()
      reads this
    {
      Counted(w, View(), held)
    }

    constructor (w: Wiring)
      requires w.Valid()
      ensures Valid() && this.w == w && View() == State(map[], {}, map[], [], []) && held == multiset{}
    {
      this.w := w;
      dest, nulled, count, closed, freed, held := map[], {}, map[], [], [], multiset{};
      new;
      forall o
        ensures Balanced(w, View(), held, o) && FreedOnce(View(), o)
      {
        assert Plugs(w, dest, o) == {};
      }
    }

    /** ref_init(): a new object belongs to its creator. */
    method Create(o: nat)
      requires Valid() && o !in count
      modifies `count, `held
      ensures Valid() && held == old(held) + multiset{o}
      ensures View() == old(View()).(count := old(count)[o := 0])
    {
      count := count[o := 0];
      held := held + multiset{o};
      forall p
        ensures Balanced(w, View(), held, p) && FreedOnce(View(), p)
      {
        assert Balanced(w, old(View()), old(held), p) && FreedOnce(old(View()), p);
      }
    }

    /** One if interface `d` belongs to object `o`, and otherwise zero. */
    ghost function Share(d: nat, o: nat): nat {
      if d in w.holder && w.holder[d] == o then 1 else 0
    }

    /** ref_increment() */
    method RefUp(d: nat)
      modifies `count
      ensures View() == Get(w, old(View()), d)
      ensures forall o :: CountOf(o) == old(CountOf(o)) + Share(d, o)
    {
      if d in w.holder {
        count := count[w.holder[d] := CountOf(w.holder[d]) + 1];
      }
    }

    /** ref_decrement() */
    method RefDown(d: nat)
      modifies `count, `freed
      ensures View() == Put(w, old(View()), d)
      ensures forall o :: CountOf(o) == old(CountOf(o)) - Share(d, o)
      ensures freed == old(freed) + if d in w.holder && old(CountOf(w.holder[d])) == 0 then [w.holder[d]] else []
    {
      if d !in w.holder {
        return;
      }
      var o := w.holder[d];
      count := count[o := CountOf(o) - 1];
      if count[o] >= 0 {
        return;
      }
      if count[o] < -1 {
        return;
      }
      freed := freed + [o];
    }

    /** intf_get() by a caller to whom some reference to the object is known to exist. */
    method Acquire(d: nat)
      requires Valid() && Alive(w, View(), d)
      modifies `count, `held
      ensures Valid() && held == old(held) + Ref(w, d) && View() == Get(w, old(View()), d)
    {
      hide Counted;
      GetCounted(w, View(), d, held);
      RefUp(d);
      held := held + Ref(w, d);
    }

    /** intf_put(): gives a held reference back, freeing the object if it was the last. */
    method Release(d: nat)
      requires Valid() && Ref(w, d) <= held
      modifies `count, `held, `freed
      ensures Valid() && held == old(held) - Ref(w, d) && View() == Put(w, old(View()), d)
    {
      hide Counted;
      assert held - Ref(w, d) + Ref(w, d) == held;
      PutCounted(w, View(), d, held - Ref(w, d));
      RefDown(d);
      held := held - Ref(w, d);
    }

    function CountOf(o: nat): int
      reads `count
    {
      if o in count then count[o] else -1
    }

    function DestOf(i: nat): nat
      reads `dest
    {
      if i in dest then dest[i] else NULL
    }

    method SetDestination(i: nat, d: nat)
      modifies `dest
      ensures View() == SetDest(old(View()), i, d)
      ensures dest == if d == NULL then old(dest) - {i} else old(dest)[i := d]
    {
      dest := if d == NULL then dest - {i} else dest[i := d];
    }

    /** intf_plug(): the interface moves to another destination. */
    method PlugInto(i: nat, d: nat)
      requires Valid() && Alive(w, View(), d)
      modifies `dest, `count, `freed
      ensures Valid() && View() == Plug(w, old(View()), i, d)
      ensures i == NULL ==> View() == old(View())
      ensures i != NULL ==> dest == if d == NULL then old(dest) - {i} else old(dest)[i := d]
      ensures i != NULL ==> forall o :: CountOf(o) == old(CountOf(o)) + Share(d, o) - Share(old(DestOf(i)), o)
      ensures i != NULL ==> freed == old(freed) + LastOf(old(DestOf(i)), d, old(count))
    {
      hide Counted, Get, Put, SetDest;
      PlugCounted(w, View(), i, d, held);
      if i == NULL {
        return;
      }
      var was := DestOf(i);
      RefUp(d);
      RefDown(was);
      SetDestination(i, d);
    }

    /** The object of interface `was`, if its last reference goes and interface `d` does not belong to it, too. */
    ghost function LastOf(was: nat, d: nat, counts: map<nat, int>): seq<nat> {
      if was in w.holder && w.holder[was] in counts && counts[w.holder[was]] == 0 && Share(d, w.holder[was]) == 0
      then [w.holder[was]] else []
    }

    method PlugTogether(a: nat, b: nat)
      requires Valid() && Holding(w, a, held) && Holding(w, b, held)
      modifies `dest, `count, `freed
      ensures Valid() && View() == PlugPlug(w, old(View()), a, b)
    {
      hide Counted, Holding, Plug, Alive;
      HoldingAlive(w, View(), b, held);
      PlugInto(a, b);
      HoldingAlive(w, View(), a, held);
      PlugInto(b, a);
    }

    method UnplugFrom(i: nat)
      requires Valid()
      modifies `dest, `count, `freed
      ensures Valid() && View() == Unplug(w, old(View()), i)
      ensures dest == old(dest) - {i}
      ensures forall o :: CountOf(o) == old(CountOf(o)) - Share(old(DestOf(i)), o)
      ensures var was := old(DestOf(i));
              freed == old(freed) + if was in w.holder && old(CountOf(w.holder[was])) == 0 then [w.holder[was]] else []
    {
      hide Counted, Put, SetDest;
      UnplugCounted(w, View(), i, held);
      RefDown(DestOf(i));
      SetDestination(i, NULL);
    }

    /** intf_insert(): a filter whose ends the caller holds goes between an interface and its destination. */
    method InsertFilter(i: nat, upper: nat, lower: nat)
      requires Valid() && Holding(w, i, held) && Holding(w, upper, held) && Holding(w, lower, held)
      modifies `dest, `count, `freed, `held
      ensures Valid() && held == old(held) && View() == Insert(w, old(View()), i, upper, lower)
      ensures Distinct4(i, upper, lower, old(DestOf(i))) ==> Between(old(dest), dest, i, upper, lower, old(DestOf(i)))
    {
      hide Counted, PlugPlug, Get, Put, Between;
      var d := DestOf(i);
      if Distinct4(i, upper, lower, d) {
        InsertBetween(w, View(), i, upper, lower);
      }
      DestAlive(w, View(), i, held);
      Acquire(d);
      PlugTogether(i, upper);
      PlugTogether(lower, d);
      assert old(held) + Ref(w, d) - Ref(w, d) == old(held);
      Release(d);
    }

    /** intf_shutdown(): nullifies the interface, cuts it off, and only then tells its destination. */
    method ShutdownIntf(i: nat)
      modifies `dest, `nulled, `count, `closed, `freed
      ensures View() == Shutdown(w, old(View()), i) && (old(Valid()) ==> Valid())
      ensures i !in dest && old(nulled) + {i} <= nulled
      decreases dest.Keys, 0, 0
    {
      hide Counted, Get, Put, Notify;
      NulledStay(w, View(), i);
      if Valid() {
        ShutdownCounted(w, View(), i, held);
      }
      nulled := nulled + {i};
      if i !in dest {
        assert View() == SetDest(Nullify(old(View()), [i]), i, NULL);
        return; // The null interface ignores the close.
      }
      var tmp := dest[i];
      dest := dest - {i};
      assert View() == SetDest(Nullify(old(View()), [i]), i, NULL);
      RefUp(tmp);
      CloseReceived(tmp);
      RefDown(tmp);
      RefDown(tmp);
    }

    /** intf_close() as it arrives at an interface: its object's close operation runs, or else it restarts. */
    method CloseReceived(d: nat)
      modifies `dest, `nulled, `count, `closed, `freed
      ensures View() == Notify(w, old(View()), d)
      decreases dest.Keys, 2, 0
    {
      hide Counted, Shutdown, ShutdownEach;
      if d == NULL || d in nulled {
        return;
      }
      if w.HasCloser(d) {
        var o := w.holder[d];
        closed := closed + [o];
        CloseObject(w.closer[o]);
      } else {
        RestartIntf(d);
      }
    }

    /**
     * A close operation: blktrans_close() shuts its interfaces in turn, intfs_shutdown() nullifies all of them first.
     */
    method CloseObject(c: Closer)
      modifies `dest, `nulled, `count, `closed, `freed
      ensures View() == RunCloser(w, old(View()), c)
      decreases dest.Keys, 1, |c.intfs| + 1
    {
      hide Counted, Shutdown, ShutdownEach;
      if c.nullifyFirst {
        NullifyAll(c.intfs);
      }
      ghost var start := View();
      assert c.intfs[0..] == c.intfs;
      var k := 0;
      while k < |c.intfs|
        invariant 0 <= k <= |c.intfs| && dest.Keys <= old(dest).Keys
        invariant ShutdownEach(w, View(), c.intfs[k..]) == ShutdownEach(w, start, c.intfs)
      {
        EachFirst(w, View(), c.intfs, k);
        ShutdownIntf(c.intfs[k]);
        k := k + 1;
      }
      assert c.intfs[k..] == [];
      EachNone(w, View());
    }

    method NullifyAll(intfs: seq<nat>)
      modifies `nulled
      ensures View() == Nullify(old(View()), intfs)
    {
      for k := 0 to |intfs|
        invariant nulled == old(nulled) + Elements(intfs[..k])
      {
        assert Elements(intfs[..k + 1]) == Elements(intfs[..k]) + {intfs[k]};
        nulled := nulled + {intfs[k]};
      }
      assert intfs[..|intfs|] == intfs;
    }

    /** intf_restart(): the descriptor comes back only after the shutdown is over. */
    method RestartIntf(i: nat)
      modifies `dest, `nulled, `count, `closed, `freed
      ensures View() == Restart(w, old(View()), i) && (old(Valid()) ==> Valid())
      ensures i !in dest && i !in nulled && old(nulled) - {i} <= nulled
      decreases dest.Keys, 1, 0
    {
      hide Counted, Shutdown;
      NulledStay(w, View(), i);
      if Valid() {
        RestartCounted(w, View(), i, held);
      }
      ShutdownIntf(i);
      nulled := nulled - {i};
    }

    /**
     * block_translate(): creates a translator, inserts it into a link and drops the creator's reference, so that only
     * its neighbours keep it alive.
     */
    method Translate(i: nat, f: Filter)
      requires Valid() && f.id !in count && IsFilter(w, f) && Holding(w, i, held)
      modifies `dest, `count, `freed, `held
      ensures Valid() && held == old(held)
      ensures View() == Put(w, Insert(w, old(View()).(count := old(count)[f.id := 0]), i, f.up, f.down), f.up)
    {
      hide Counted, Insert, Put, IsFilter;
      FilterHolder(w, f);
      Create(f.id);
      InsertFilter(i, f.up, f.down);
      assert old(held) + multiset{f.id} - multiset{f.id} == old(held);
      Release(f.up);
    }
  }

  lemma FilterHolder(w: Wiring, f: Filter)
    requires IsFilter(w, f)
    ensures Ref(w, f.up) == multiset{f.id} && w.holder[f.up] == w.holder[f.down] == f.id && f.up in w.holder
  {}

  lemma EachFirst(w: Wiring, s: State, intfs: seq<nat>, k: nat)
    requires k < |intfs|
    ensures ShutdownEach(w, s, intfs[k..]) == ShutdownEach(w, Shutdown(w, s, intfs[k]), intfs[k + 1..])
  {
    hide Shutdown;
    assert intfs[k..][1..] == intfs[k + 1..];
  }

  /** Whatever a shutdown leads to, the interface and those nullified before stay nullified, and it is unplugged. */
  lemma {:induction false} NulledStay(w: Wiring, s: State, i: nat)
    ensures s.nulled + {i} <= Shutdown(w, s, i).nulled && i !in Shutdown(w, s, i).dest
    decreases s.dest.Keys, 0, 0
  {
    hide Notify;
    if i in s.dest {
      var cut := SetDest(Nullify(s, [i]), i, NULL);
      var g := Get(w, cut, s.dest[i]);
      assert g.dest == s.dest - {i} && g.nulled == s.nulled + {i};
      NotifiedStay(w, g, s.dest[i]);
    }
  }

  lemma {:induction false} NotifiedStay(w: Wiring, s: State, d: nat)
    ensures s.nulled <= Notify(w, s, d).nulled
    decreases s.dest.Keys, 2, 0
  {
    hide Shutdown, ShutdownEach;
    if d == NULL || d in s.nulled {
    } else if w.HasCloser(d) {
      var c := w.closer[w.holder[d]];
      var t := s.(closed := s.closed + [w.holder[d]]);
      EachStay(w, if c.nullifyFirst then Nullify(t, c.intfs) else t, c.intfs);
    } else {
      NulledStay(w, s, d);
    }
  }

  lemma {:induction false} EachStay(w: Wiring, s: State, intfs: seq<nat>)
    ensures s.nulled <= ShutdownEach(w, s, intfs).nulled
    decreases s.dest.Keys, 1, |intfs|
  {
    hide Shutdown;
    if intfs != [] {
      NulledStay(w, s, intfs[0]);
      EachStay(w, Shutdown(w, s, intfs[0]), intfs[1..]);
    }
  }

  lemma EachNone(w: Wiring, s: State)
    ensures ShutdownEach(w, s, []) == s
  {}

  /** Four different interfaces, of which only the last may be the null interface. */
  ghost predicate Distinct4(i: nat, upper: nat, lower: nat, d: nat) {
    i != upper && i != lower && upper != lower && d != i && d != upper && d != lower
    && i != NULL && upper != NULL && lower != NULL
  }

  lemma PlugLinks(w: Wiring, s: State, i: nat, d: nat)
    ensures Plug(w, s, i, d).dest ==
      if i == NULL then s.dest else if d == NULL then s.dest - {i} else s.dest[i := d]
  {}

  lemma CountLinks(w: Wiring, s: State, d: nat)
    ensures Get(w, s, d).dest == s.dest && Put(w, s, d).dest == s.dest
  {}

  lemma InsertBetween(w: Wiring, s: State, i: nat, upper: nat, lower: nat)
    requires Distinct4(i, upper, lower, Dest(s, i))
    ensures Between(s.dest, Insert(w, s, i, upper, lower).dest, i, upper, lower, Dest(s, i))
  {
    hide Plug, Get, Put;
    var d := Dest(s, i);
    var a := Get(w, s, d);
    CountLinks(w, s, d);
    PlugLinks(w, a, i, upper);
    var b := Plug(w, a, i, upper);
    PlugLinks(w, b, upper, i);
    var c := Plug(w, b, upper, i);
    PlugLinks(w, c, lower, d);
    PlugLinks(w, Plug(w, c, lower, d), d, lower);
    CountLinks(w, PlugPlug(w, c, lower, d), d);
  }

  /** The links after a filter has been put between interface `i` and its former destination `d`. */
  ghost predicate Between(was: map<nat, nat>, dest: map<nat, nat>, i: nat, upper: nat, lower: nat, d: nat) {
    && i in dest && dest[i] == upper && upper in dest && dest[upper] == i
    && (if d == NULL then lower !in dest else lower in dest && dest[lower] == d && d in dest && dest[d] == lower)
    && forall j :: j !in {i, upper, lower, d} ==> ((j in dest <==> j in was) && (j in was ==> dest[j] == was[j]))
  }
}
