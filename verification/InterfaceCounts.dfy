/** Reference counts: every interface operation keeps them equal to the references that exist. */
module InterfaceCounts {
  import opened InterfaceSpec

  /** The interfaces plugged into an object. */
  ghost function Plugs(w: Wiring, dest: map<nat, nat>, o: nat): set<nat> {
    set i | i in dest && dest[i] in w.holder && w.holder[dest[i]] == o
  }

  /** The reference that holding interface `d` takes on its object. */
  ghost function Ref(w: Wiring, d: nat): multiset<nat> {
    if d in w.holder then multiset{w.holder[d]} else multiset{}
  }

  /** A count is one less than the references held by callers and by plugged interfaces. */
  ghost predicate Balanced(w: Wiring, s: State, held: multiset<nat>, o: nat) {
    Count(s, o) + 1 == held[o] + |Plugs(w, s.dest, o)|
  }

  /** An object's free method has run once if nothing refers to it any more, and not at all otherwise. */
  ghost predicate FreedOnce(s: State, o: nat) {
    multiset(s.freed)[o] == if o in s.count && s.count[o] < 0 then 1 else 0
  }

  ghost predicate Counted(w: Wiring, s: State, held: multiset<nat>) {
    && NULL !in s.dest && (forall i :: i in s.dest ==> s.dest[i] != NULL) && w.Valid()
    && (forall o :: Balanced(w, s, held, o))
    && (forall o :: FreedOnce(s, o))
  }

  /** Something refers to the object of interface `d`, if that is reference counted. */
  ghost predicate Alive(w: Wiring, s: State, d: nat) {
    d in w.holder ==> Count(s, w.holder[d]) >= 0
  }

  lemma GetCounted(w: Wiring, s: State, d: nat, held: multiset<nat>)
    requires Counted(w, s, held) && Alive(w, s, d)
    ensures Counted(w, Get(w, s, d), held + Ref(w, d))
  {
    hide Plugs;
    var r := Get(w, s, d);
    forall o
      ensures Balanced(w, r, held + Ref(w, d), o) && FreedOnce(r, o)
    {
      assert Balanced(w, s, held, o) && FreedOnce(s, o);
    }
  }

  lemma PutCounted(w: Wiring, s: State, d: nat, held: multiset<nat>)
    requires Counted(w, s, held + Ref(w, d))
    ensures Counted(w, Put(w, s, d), held)
  {
    hide Plugs;
    var r := Put(w, s, d);
    forall o
      ensures Balanced(w, r, held, o) && FreedOnce(r, o)
    {
      assert Balanced(w, s, held + Ref(w, d), o) && FreedOnce(s, o);
    }
  }

  lemma PlugsCut(w: Wiring, dest: map<nat, nat>, i: nat, o: nat)
    requires i in dest
    ensures |Plugs(w, dest, o)| == |Plugs(w, dest - {i}, o)| + Ref(w, dest[i])[o]
  {
    if i in Plugs(w, dest, o) {
      assert Plugs(w, dest - {i}, o) == Plugs(w, dest, o) - {i};
    } else {
      assert Plugs(w, dest - {i}, o) == Plugs(w, dest, o);
    }
  }

  lemma CutCounted(w: Wiring, s: State, i: nat, held: multiset<nat>)
    requires Counted(w, s, held)
    ensures Counted(w, SetDest(s, i, NULL), held + Ref(w, Dest(s, i)))
  {
    hide Plugs;
    var r := SetDest(s, i, NULL);
    forall o
      ensures Balanced(w, r, held + Ref(w, Dest(s, i)), o) && FreedOnce(r, o)
    {
      assert Balanced(w, s, held, o) && FreedOnce(s, o);
      if i in s.dest {
        PlugsCut(w, s.dest, i, o);
      } else {
        assert s.dest - {i} == s.dest;
      }
    }
  }

  lemma LinkCounted(w: Wiring, s: State, i: nat, d: nat, held: multiset<nat>)
    requires Counted(w, s, held + Ref(w, d)) && i !in s.dest && i != NULL
    ensures Counted(w, SetDest(s, i, d), held)
  {
    hide Plugs;
    var r := SetDest(s, i, d);
    forall o
      ensures Balanced(w, r, held, o) && FreedOnce(r, o)
    {
      assert Balanced(w, s, held + Ref(w, d), o) && FreedOnce(s, o);
      if d != NULL {
        PlugsCut(w, r.dest, i, o);
        assert r.dest - {i} == s.dest;
      } else {
        assert s.dest - {i} == s.dest;
      }
    }
  }

  /** A reference that is held keeps the count from falling below zero. */
  lemma HeldAlive(w: Wiring, s: State, d: nat, held: multiset<nat>)
    requires Counted(w, s, held) && d in w.holder && w.holder[d] in held
    ensures Count(s, w.holder[d]) >= 0
  {
    assert Balanced(w, s, held, w.holder[d]);
  }

  lemma PluggedAlive(w: Wiring, s: State, i: nat, held: multiset<nat>)
    requires Counted(w, s, held) && i in s.dest && s.dest[i] in w.holder
    ensures Count(s, w.holder[s.dest[i]]) >= 0
  {
    var o := w.holder[s.dest[i]];
    assert Balanced(w, s, held, o);
    assert i in Plugs(w, s.dest, o);
  }

  // ----- Plugging

  /** The caller holds a reference to the object of interface `d`, if that is reference counted. */
  ghost predicate Holding(w: Wiring, d: nat, held: multiset<nat>) {
    d in w.holder ==> w.holder[d] in held
  }

  lemma HoldingAlive(w: Wiring, s: State, d: nat, held: multiset<nat>)
    requires Counted(w, s, held) && Holding(w, d, held)
    ensures Alive(w, s, d)
  {
    if d in w.holder {
      HeldAlive(w, s, d, held);
    }
  }

  lemma PlugInSteps(w: Wiring, s: State, i: nat, d: nat)
    requires i != NULL
    ensures Plug(w, s, i, d) == SetDest(Put(w, SetDest(Get(w, s, d), i, NULL), Dest(Get(w, s, d), i)), i, d)
  {
    assert s.dest - {i} - {i} == s.dest - {i};
    assert (s.dest - {i})[i := d] == s.dest[i := d];
  }

  lemma PlugCounted(w: Wiring, s: State, i: nat, d: nat, held: multiset<nat>)
    requires Counted(w, s, held) && Alive(w, s, d)
    ensures Counted(w, Plug(w, s, i, d), held)
  {
    hide Counted, Plugs, Ref;
    if i != NULL {
      GetCounted(w, s, d, held);
      var g := Get(w, s, d);
      CutCounted(w, g, i, held + Ref(w, d));
      PutCounted(w, SetDest(g, i, NULL), Dest(g, i), held + Ref(w, d));
      LinkCounted(w, Put(w, SetDest(g, i, NULL), Dest(g, i)), i, d, held);
      PlugInSteps(w, s, i, d);
    }
  }

  lemma PlugPlugCounted(w: Wiring, s: State, a: nat, b: nat, held: multiset<nat>)
    requires Counted(w, s, held) && Holding(w, a, held) && Holding(w, b, held)
    ensures Counted(w, PlugPlug(w, s, a, b), held)
  {
    hide Counted, Plug, Holding, Alive;
    HoldingAlive(w, s, b, held);
    PlugCounted(w, s, a, b, held);
    HoldingAlive(w, Plug(w, s, a, b), a, held);
    PlugCounted(w, Plug(w, s, a, b), b, a, held);
  }

  lemma UnplugCounted(w: Wiring, s: State, i: nat, held: multiset<nat>)
    requires Counted(w, s, held)
    ensures Counted(w, Unplug(w, s, i), held)
  {
    hide Counted, Plugs, Ref;
    CutCounted(w, s, i, held);
    PutCounted(w, SetDest(s, i, NULL), Dest(s, i), held);
  }

  lemma InsertCounted(w: Wiring, s: State, i: nat, upper: nat, lower: nat, held: multiset<nat>)
    requires Counted(w, s, held) && Holding(w, i, held) && Holding(w, upper, held) && Holding(w, lower, held)
    ensures Counted(w, Insert(w, s, i, upper, lower), held)
  {
    hide Counted, PlugPlug, Get, Put, Plugs;
    var d := Dest(s, i);
    DestAlive(w, s, i, held);
    GetCounted(w, s, d, held);
    PlugPlugCounted(w, Get(w, s, d), i, upper, held + Ref(w, d));
    PlugPlugCounted(w, PlugPlug(w, Get(w, s, d), i, upper), lower, d, held + Ref(w, d));
    PutCounted(w, PlugPlug(w, PlugPlug(w, Get(w, s, d), i, upper), lower, d), d, held);
  }

  lemma DestAlive(w: Wiring, s: State, i: nat, held: multiset<nat>)
    requires Counted(w, s, held)
    ensures Alive(w, s, Dest(s, i))
  {
    if i in s.dest && s.dest[i] in w.holder {
      PluggedAlive(w, s, i, held);
    }
  }

  // ----- Shutting down

  lemma NullifyCounted(w: Wiring, s: State, intfs: seq<nat>, held: multiset<nat>)
    requires Counted(w, s, held)
    ensures Counted(w, Nullify(s, intfs), held)
  {
    SameReferences(w, s, Nullify(s, intfs), held);
  }

  /** Counting depends only on the destinations, the counts and the frees. */
  lemma SameReferences(w: Wiring, s: State, r: State, held: multiset<nat>)
    requires Counted(w, s, held) && r.dest == s.dest && r.count == s.count && r.freed == s.freed
    ensures Counted(w, r, held)
  {
    hide Plugs;
    forall o
      ensures Balanced(w, r, held, o) && FreedOnce(r, o)
    {
      assert Balanced(w, s, held, o) && FreedOnce(s, o);
    }
  }

  lemma {:induction false} ShutdownCounted(w: Wiring, s: State, i: nat, held: multiset<nat>)
    requires Counted(w, s, held)
    ensures Counted(w, Shutdown(w, s, i), held)
    decreases s.dest.Keys, 0, 0
  {
    hide Counted, Plugs, Ref, Get, Put, Notify;
    var n := Nullify(s, [i]);
    NullifyCounted(w, s, [i], held);
    var cut := SetDest(n, i, NULL);
    CutCounted(w, n, i, held);
    if i in s.dest {
      var d := s.dest[i];
      TmpAlive(w, cut, d, held);
      GetCounted(w, cut, d, held + Ref(w, d));
      GetDest(w, cut, d);
      NotifyCounted(w, Get(w, cut, d), d, held + Ref(w, d) + Ref(w, d));
      PutCounted(w, Notify(w, Get(w, cut, d), d), d, held + Ref(w, d));
      PutCounted(w, Put(w, Notify(w, Get(w, cut, d), d), d), d, held);
    } else {
      NoDest(w, s, n, cut, i, held);
    }
  }

  lemma GetDest(w: Wiring, s: State, d: nat)
    ensures Get(w, s, d).dest == s.dest
  {}

  lemma NoDest(w: Wiring, s: State, n: State, cut: State, i: nat, held: multiset<nat>)
    requires i !in s.dest && n.dest == s.dest && cut == SetDest(n, i, NULL) &&
      Counted(w, cut, held + Ref(w, Dest(n, i)))
    requires w.Valid()
    ensures Counted(w, cut, held)
  {
    assert held + Ref(w, Dest(n, i)) == held;
  }

  lemma TmpAlive(w: Wiring, s: State, d: nat, held: multiset<nat>)
    requires Counted(w, s, held + Ref(w, d))
    ensures Alive(w, s, d)
  {
    if d in w.holder {
      HeldAlive(w, s, d, held + Ref(w, d));
    }
  }

  lemma {:induction false} NotifyCounted(w: Wiring, s: State, d: nat, held: multiset<nat>)
    requires Counted(w, s, held)
    ensures Counted(w, Notify(w, s, d), held)
    decreases s.dest.Keys, 2, 0
  {
    hide Counted, Plugs, Shutdown, ShutdownEach;
    if d == NULL || d in s.nulled {
    } else if w.HasCloser(d) {
      var c := w.closer[w.holder[d]];
      var l := s.(closed := s.closed + [w.holder[d]]);
      var n := if c.nullifyFirst then Nullify(l, c.intfs) else l;
      SameReferences(w, s, n, held);
      EachCounted(w, n, c.intfs, held);
    } else {
      ShutdownCounted(w, s, d, held);
      SameReferences(w, Shutdown(w, s, d), Restart(w, s, d), held);
    }
  }

  lemma {:induction false} EachCounted(w: Wiring, s: State, intfs: seq<nat>, held: multiset<nat>)
    requires Counted(w, s, held)
    ensures Counted(w, ShutdownEach(w, s, intfs), held)
    decreases s.dest.Keys, 1, |intfs|
  {
    hide Counted, Plugs, Shutdown;
    if intfs != [] {
      ShutdownCounted(w, s, intfs[0], held);
      EachCounted(w, Shutdown(w, s, intfs[0]), intfs[1..], held);
    }
  }

  lemma RestartCounted(w: Wiring, s: State, i: nat, held: multiset<nat>)
    requires Counted(w, s, held)
    ensures Counted(w, Restart(w, s, i), held)
  {
    hide Counted, Shutdown;
    ShutdownCounted(w, s, i, held);
    SameReferences(w, Shutdown(w, s, i), Restart(w, s, i), held);
  }

  /** An object is freed exactly once, when the last reference to it goes. */
  lemma FreedWhenUnreferenced(w: Wiring, s: State, held: multiset<nat>, o: nat)
    requires Counted(w, s, held) && o in s.count
    ensures multiset(s.freed)[o] <= 1
    ensures o in s.freed <==> held[o] == 0 && Plugs(w, s.dest, o) == {}
  {
    assert Balanced(w, s, held, o) && FreedOnce(s, o);
  }
}
