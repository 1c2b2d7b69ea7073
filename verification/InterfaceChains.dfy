/** Chains of filter objects, such as block device translators: where filters go, and what a shutdown does. */
module InterfaceChains {
  import opened InterfaceSpec
  import opened InterfaceCounts
  import opened InterfaceTrees

  /** A filter object with one interface towards each end of a chain, such as a block device translator. */
  datatype Filter = Filter(id: nat, up: nat, down: nat)

  /** Every interface of a chain that leads from interface `a` through the filters to interface `e`. */
  ghost function Intfs(a: nat, fs: seq<Filter>, e: nat): set<nat>
    decreases fs
  {
    {a} + (if fs == [] then {e} else {fs[0].up} + Intfs(fs[0].down, fs[1..], e))
  }

  ghost predicate Distinct(a: nat, fs: seq<Filter>, e: nat)
    decreases fs
  {
    if fs == [] then a != e
    else
      && a != fs[0].up && a !in Intfs(fs[0].down, fs[1..], e) && fs[0].up !in Intfs(fs[0].down, fs[1..], e)
      && Distinct(fs[0].down, fs[1..], e)
  }

  /** The interfaces face each other in pairs. */
  ghost predicate Linked(dest: map<nat, nat>, a: nat, fs: seq<Filter>, e: nat)
    decreases fs
  {
    var d := if fs == [] then e else fs[0].up;
    a in dest && dest[a] == d && d in dest && dest[d] == a && (fs != [] ==> Linked(dest, fs[0].down, fs[1..], e))
  }

  /** Each filter's close operation shuts both of its interfaces, in either order. */
  ghost predicate IsFilter(w: Wiring, f: Filter) {
    && f.up != NULL && f.up in w.holder && f.down in w.holder && w.holder[f.up] == w.holder[f.down] == f.id
    && f.id in w.closer && (w.closer[f.id].intfs == [f.up, f.down] || w.closer[f.id].intfs == [f.down, f.up])
  }

  /** The far end restarts when closed, or shuts its interface. */
  ghost predicate IsEnd(w: Wiring, e: nat) {
    e != NULL && (w.HasCloser(e) ==> w.closer[w.holder[e]].intfs == [e])
  }

  ghost predicate Receiving(nulled: set<nat>, fs: seq<Filter>, e: nat) {
    e !in nulled && forall f :: f in fs ==> f.up !in nulled
  }

  ghost predicate Chain(w: Wiring, s: State, a: nat, fs: seq<Filter>, e: nat) {
    && Distinct(a, fs, e) && Linked(s.dest, a, fs, e) && Receiving(s.nulled, fs, e)
    && (forall f :: f in fs ==> IsFilter(w, f)) && IsEnd(w, e)
  }

  lemma {:induction false} LinkedFrame(dest: map<nat, nat>, dest': map<nat, nat>, a: nat, fs: seq<Filter>, e: nat)
    requires Linked(dest, a, fs, e) && forall i :: i in Intfs(a, fs, e) ==>
      i in dest' && (i in dest ==> dest'[i] == dest[i])
    ensures Linked(dest', a, fs, e)
    decreases fs
  {
    if fs != [] {
      LinkedFrame(dest, dest', fs[0].down, fs[1..], e);
    }
  }

  lemma {:induction false} LinkedPlugged(dest: map<nat, nat>, a: nat, fs: seq<Filter>, e: nat)
    requires Linked(dest, a, fs, e)
    ensures forall i :: i in Intfs(a, fs, e) ==> i in dest
    decreases fs
  {
    if fs != [] {
      LinkedPlugged(dest, fs[0].down, fs[1..], e);
    }
  }

  // ----- A chain is a tree

  ghost function TreeOf(w: Wiring, a: nat, fs: seq<Filter>, e: nat): (t: Tree)
    ensures t.from == a
    decreases fs
  {
    if fs != [] then Node(a, fs[0].up, fs[0].id, [TreeOf(w, fs[0].down, fs[1..], e)])
    else if w.HasCloser(e) then Node(a, e, w.holder[e], [])
    else Leaf(a, e)
  }

  lemma OneKid(t: Tree)
    ensures SpanAll([t]) == Span(t) && ClosedAll([t]) == Closed(t) && EarsAll([t]) == Ears(t) && Froms([t]) == {t.from}
  {
    assert [t][1..] == [];
  }

  lemma OneHangs(w: Wiring, dest: map<nat, nat>, t: Tree)
    requires Hangs(w, dest, t)
    ensures AllHang(w, dest, [t])
  {
    hide Hangs;
    assert [t][1..] == [];
  }

  lemma {:induction false} ChainSpan(w: Wiring, a: nat, fs: seq<Filter>, e: nat)
    ensures Span(TreeOf(w, a, fs, e)) == Intfs(a, fs, e)
    decreases fs
  {
    if fs != [] {
      ChainSpan(w, fs[0].down, fs[1..], e);
      OneKid(TreeOf(w, fs[0].down, fs[1..], e));
    }
  }

  lemma FilterCloses(w: Wiring, a: nat, f: Filter, t: Tree)
    requires IsFilter(w, f) && t.from == f.down && f.up != f.down
    ensures ClosesAll(w, Node(a, f.up, f.id, [t]))
  {
    OneKid(t);
    assert [f.up, f.down][1..] == [f.down] && [f.down, f.up][1..] == [f.up];
  }

  lemma {:induction false} ChainHangs(w: Wiring, dest: map<nat, nat>, a: nat, fs: seq<Filter>, e: nat)
    requires Distinct(a, fs, e) && Linked(dest, a, fs, e) && (forall f :: f in fs ==> IsFilter(w, f)) && IsEnd(w, e)
    ensures Hangs(w, dest, TreeOf(w, a, fs, e))
    decreases fs
  {
    hide IsFilter;
    if fs == [] {
      if w.HasCloser(e) {
        EndCloses(w, a, e);
      }
    } else {
      var t := TreeOf(w, fs[0].down, fs[1..], e);
      assert IsFilter(w, fs[0]);
      ChainHangs(w, dest, fs[0].down, fs[1..], e);
      ChainSpan(w, fs[0].down, fs[1..], e);
      FilterUp(w, fs[0]);
      FilterCloses(w, a, fs[0], t);
      OneKid(t);
      OneHangs(w, dest, t);
    }
  }

  lemma EndCloses(w: Wiring, a: nat, e: nat)
    requires IsEnd(w, e) && w.HasCloser(e)
    ensures ClosesAll(w, Node(a, e, w.holder[e], []))
  {
    assert [e][1..] == [];
  }

  lemma FilterUp(w: Wiring, f: Filter)
    requires IsFilter(w, f)
    ensures f.up != NULL
  {}

  lemma {:induction false} ChainEars(w: Wiring, nulled: set<nat>, a: nat, fs: seq<Filter>, e: nat)
    requires Receiving(nulled, fs, e)
    ensures Ears(TreeOf(w, a, fs, e)) !! nulled
    decreases fs
  {
    if fs != [] {
      ChainEars(w, nulled, fs[0].down, fs[1..], e);
      OneKid(TreeOf(w, fs[0].down, fs[1..], e));
    }
  }

  lemma {:induction false} ChainIds(w: Wiring, a: nat, fs: seq<Filter>, e: nat, o: nat)
    ensures o in Closed(TreeOf(w, a, fs, e)) <==>
      (exists f :: f in fs && f.id == o) || (w.HasCloser(e) && w.holder[e] == o)
    decreases fs
  {
    if fs != [] {
      ChainIds(w, fs[0].down, fs[1..], e, o);
      OneKid(TreeOf(w, fs[0].down, fs[1..], e));
    }
  }

  /**
   * Shutting down one end of a chain, however long and in whatever order its filters shut their sides, unplugs every
   * link, and closes each filter, and the far end if that has a close operation, exactly once.
   */
  lemma ShutdownChain(w: Wiring, s: State, a: nat, fs: seq<Filter>, e: nat, o: nat)
    requires Chain(w, s, a, fs, e)
    ensures Shutdown(w, s, a).dest == s.dest - Intfs(a, fs, e)
    ensures multiset(Shutdown(w, s, a).closed)[o] == multiset(s.closed)[o]
      + (if (exists f :: f in fs && f.id == o) || (w.HasCloser(e) && w.holder[e] == o) then 1 else 0)
  {
    hide Shutdown, Hangs, Ears, Span, Closed, TreeOf, Linked, Distinct, IsFilter, IsEnd;
    var t := TreeOf(w, a, fs, e);
    ChainHangs(w, s.dest, a, fs, e);
    ChainEars(w, s.nulled, a, fs, e);
    ChainSpan(w, a, fs, e);
    ChainIds(w, a, fs, e, o);
    ShutTree(w, s, t);
    EachOnce(w, s.dest, t, o);
  }

  /** A filter that only its neighbours refer to is freed, once, when the chain is shut down. */
  lemma ChainFreed(w: Wiring, s: State, a: nat, fs: seq<Filter>, e: nat, held: multiset<nat>, f: Filter)
    requires Chain(w, s, a, fs, e) && Counted(w, s, held) && f in fs && f.id in s.count
    requires held[f.id] == 0 && Plugs(w, s.dest, f.id) <= Intfs(a, fs, e)
    ensures f.id !in s.freed && multiset(Shutdown(w, s, a).freed)[f.id] == 1
  {
    hide Shutdown, Hangs, Ears, Span, Closed, TreeOf, Linked, Distinct, IsFilter, IsEnd, Counted, Plugs;
    ChainHangs(w, s.dest, a, fs, e);
    ChainEars(w, s.nulled, a, fs, e);
    ChainSpan(w, a, fs, e);
    ChainIds(w, a, fs, e, f.id);
    TreeFreed(w, s, TreeOf(w, a, fs, e), held, f.id);
  }

  // ----- Inserting a filter

  /** The interface at which link `k` of a chain starts. */
  ghost function LinkStart(a: nat, fs: seq<Filter>, k: nat): nat
    requires k <= |fs|
  {
    if k == 0 then a else fs[k - 1].down
  }

  /** The interfaces of a filter that is not yet part of a chain. */
  ghost predicate Fresh(a: nat, fs: seq<Filter>, e: nat, f: Filter) {
    NULL !in Intfs(a, fs, e) && f.up != NULL && f.down != NULL && f.up != f.down && {f.up, f.down} !! Intfs(a, fs, e)
  }

  /** The destinations of all interfaces but these are as before. */
  ghost predicate SameElsewhere(dest: map<nat, nat>, dest': map<nat, nat>, changed: set<nat>) {
    forall i :: i in dest && i !in changed ==> i in dest' && dest'[i] == dest[i]
  }

  lemma PlugPlugDest(w: Wiring, s: State, a: nat, b: nat)
    requires a != NULL && b != NULL
    ensures PlugPlug(w, s, a, b).dest == s.dest[a := b][b := a]
  {}

  /** What intf_insert() makes of the two ends of a link and the two ends of the filter. */
  lemma InsertDest(w: Wiring, s: State, i: nat, upper: nat, lower: nat)
    requires i in s.dest && NULL !in {i, upper, lower, s.dest[i]} && i != s.dest[i]
    requires upper != lower && {upper, lower} !! {i, s.dest[i]}
    ensures var d, r := s.dest[i], Insert(w, s, i, upper, lower).dest;
            {i, upper, lower, d} <= r.Keys && r[i] == upper && r[upper] == i && r[lower] == d && r[d] == lower
    ensures SameElsewhere(s.dest, Insert(w, s, i, upper, lower).dest, {i, upper, lower, s.dest[i]})
  {
    hide PlugPlug;
    var g := Get(w, s, s.dest[i]);
    PlugPlugDest(w, g, i, upper);
    PlugPlugDest(w, PlugPlug(w, g, i, upper), lower, s.dest[i]);
  }

  /** Inserting a filter into the first link makes it the first filter. */
  lemma InsertFirst(w: Wiring, s: State, a: nat, fs: seq<Filter>, e: nat, f: Filter)
    requires Linked(s.dest, a, fs, e) && Distinct(a, fs, e) && Fresh(a, fs, e, f)
    ensures var r := Insert(w, s, a, f.up, f.down);
            Linked(r.dest, a, [f] + fs, e) && SameElsewhere(s.dest, r.dest, Intfs(a, fs, e) + {f.up, f.down})
  {
    hide Insert;
    var r := Insert(w, s, a, f.up, f.down).dest;
    InsertDest(w, s, a, f.up, f.down);
    if fs != [] {
      LinkedPlugged(s.dest, fs[0].down, fs[1..], e);
      LinkedFrame(s.dest, r, fs[0].down, fs[1..], e);
    }
    assert Linked(r, f.down, fs, e);
    assert ([f] + fs)[1..] == fs;
  }

  /** Inserting a filter after the first is inserting it into the rest. */
  lemma InsertLater(fs: seq<Filter>, f: Filter, k: nat)
    requires 0 < k <= |fs|
    ensures var longer := fs[..k] + [f] + fs[k..];
            longer[0] == fs[0] && longer[1..] == fs[1..][..k - 1] + [f] + fs[1..][k - 1..]
  {}

  /** The first link and the rest of a chain. */
  lemma LinkedTail(dest: map<nat, nat>, a: nat, fs: seq<Filter>, e: nat)
    requires fs != [] && Linked(dest, a, fs, e)
    ensures Linked(dest, fs[0].down, fs[1..], e)
    ensures a in dest && dest[a] == fs[0].up && fs[0].up in dest && dest[fs[0].up] == a
  {}

  lemma LinkedCons(dest: map<nat, nat>, a: nat, fs: seq<Filter>, e: nat)
    requires fs != [] && Linked(dest, fs[0].down, fs[1..], e)
    requires a in dest && dest[a] == fs[0].up && fs[0].up in dest && dest[fs[0].up] == a
    ensures Linked(dest, a, fs, e)
  {}

  lemma FreshTail(a: nat, fs: seq<Filter>, e: nat, f: Filter)
    requires fs != [] && Fresh(a, fs, e, f) && Distinct(a, fs, e)
    ensures Fresh(fs[0].down, fs[1..], e, f) && Distinct(fs[0].down, fs[1..], e)
    ensures {a, fs[0].up} !! Intfs(fs[0].down, fs[1..], e) + {f.up, f.down}
    ensures Intfs(fs[0].down, fs[1..], e) <= Intfs(a, fs, e)
  {}

  lemma {:induction false} InsertLinked(w: Wiring, s: State, a: nat, fs: seq<Filter>, e: nat, f: Filter, k: nat)
    requires Linked(s.dest, a, fs, e) && Distinct(a, fs, e) && Fresh(a, fs, e, f) && k <= |fs|
    ensures var r := Insert(w, s, LinkStart(a, fs, k), f.up, f.down);
            Linked(r.dest, a, fs[..k] + [f] + fs[k..], e) &&
              SameElsewhere(s.dest, r.dest, Intfs(a, fs, e) + {f.up, f.down})
    decreases fs
  {
    hide Insert, Linked, Distinct, Fresh, Intfs, LinkStart, SameElsewhere;
    if k == 0 {
      InsertFirst(w, s, a, fs, e, f);
      StartFirst(a, fs);
      assert fs[..k] + [f] + fs[k..] == [f] + fs;
    } else {
      var r := Insert(w, s, LinkStart(a, fs, k), f.up, f.down).dest;
      var inner := Intfs(fs[0].down, fs[1..], e) + {f.up, f.down};
      LinkedTail(s.dest, a, fs, e);
      FreshTail(a, fs, e, f);
      StartLater(a, fs, k);
      InsertLinked(w, s, fs[0].down, fs[1..], e, f, k - 1);
      InsertLater(fs, f, k);
      StillThere(s.dest, r, inner, a);
      StillThere(s.dest, r, inner, fs[0].up);
      LinkedCons(r, a, fs[..k] + [f] + fs[k..], e);
      Elsewhere(s.dest, r, inner, Intfs(a, fs, e) + {f.up, f.down});
    }
  }

  lemma StartFirst(a: nat, fs: seq<Filter>)
    ensures LinkStart(a, fs, 0) == a
  {}

  lemma StartLater(a: nat, fs: seq<Filter>, k: nat)
    requires 0 < k <= |fs|
    ensures LinkStart(a, fs, k) == LinkStart(fs[0].down, fs[1..], k - 1)
  {}

  lemma StillThere(dest: map<nat, nat>, dest': map<nat, nat>, changed: set<nat>, i: nat)
    requires SameElsewhere(dest, dest', changed) && i in dest && i !in changed
    ensures i in dest' && dest'[i] == dest[i]
  {}

  lemma Elsewhere(dest: map<nat, nat>, dest': map<nat, nat>, changed: set<nat>, more: set<nat>)
    requires SameElsewhere(dest, dest', changed) && changed <= more
    ensures SameElsewhere(dest, dest', more)
  {}

  lemma {:induction false} InsertDistinct(a: nat, fs: seq<Filter>, e: nat, f: Filter, k: nat)
    requires Distinct(a, fs, e) && Fresh(a, fs, e, f) && k <= |fs|
    ensures Distinct(a, fs[..k] + [f] + fs[k..], e)
    ensures Intfs(a, fs[..k] + [f] + fs[k..], e) == Intfs(a, fs, e) + {f.up, f.down}
    decreases fs
  {
    var longer := fs[..k] + [f] + fs[k..];
    if k == 0 {
      assert longer == [f] + fs;
      assert ([f] + fs)[1..] == fs;
      RenameStart(a, f.down, fs, e);
    } else {
      InsertDistinct(fs[0].down, fs[1..], e, f, k - 1);
      InsertLater(fs, f, k);
    }
  }

  lemma RenameStart(a: nat, b: nat, fs: seq<Filter>, e: nat)
    requires Distinct(a, fs, e) && b !in Intfs(a, fs, e)
    ensures Distinct(b, fs, e) && Intfs(b, fs, e) == Intfs(a, fs, e) - {a} + {b} && a in Intfs(a, fs, e)
  {}

  /** A filter may be inserted into any link of a chain, and makes a longer chain. */
  lemma InsertChain(w: Wiring, s: State, a: nat, fs: seq<Filter>, e: nat, f: Filter, k: nat)
    requires Chain(w, s, a, fs, e) && Fresh(a, fs, e, f) && k <= |fs| && IsFilter(w, f) && f.up !in s.nulled
    ensures Chain(w, Insert(w, s, LinkStart(a, fs, k), f.up, f.down), a, fs[..k] + [f] + fs[k..], e)
  {
    hide Insert, Linked, Distinct, IsFilter, IsEnd, Intfs;
    InsertLinked(w, s, a, fs, e, f, k);
    InsertDistinct(a, fs, e, f, k);
    InsertNulled(w, s, LinkStart(a, fs, k), f.up, f.down);
    forall g | g in fs[..k] + [f] + fs[k..]
      ensures g in fs || g == f
    {}
  }

  lemma InsertNulled(w: Wiring, s: State, i: nat, upper: nat, lower: nat)
    ensures Insert(w, s, i, upper, lower).nulled == s.nulled
  {
    hide PlugPlug;
    var d := Dest(s, i);
    PlugPlugNulled(w, Get(w, s, d), i, upper);
    PlugPlugNulled(w, PlugPlug(w, Get(w, s, d), i, upper), lower, d);
  }

  lemma PlugPlugNulled(w: Wiring, s: State, a: nat, b: nat)
    ensures PlugPlug(w, s, a, b).nulled == s.nulled
  {}
}
