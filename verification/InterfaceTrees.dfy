/** Shutting down a tree of objects, each with any number of interfaces that it shuts in any order. */
module InterfaceTrees {
  import opened ListOps
  import opened InterfaceSpec
  import opened InterfaceCounts

  /** Shutting an interface whose destination is already nullified goes no further. */
  lemma ShutBack(w: Wiring, s: State, i: nat)
    requires i in s.dest && s.dest[i] in s.nulled
    ensures var r := Shutdown(w, s, i); r.dest == s.dest - {i} && r.nulled == s.nulled + {i} && r.closed == s.closed
  {}

  /** Dropping the references at the end changes neither links nor close operations. */
  lemma ShutStep(w: Wiring, s: State, i: nat)
    requires i in s.dest
    ensures var r, q := Shutdown(w, s, i), Notify(w, Get(w, SetDest(Nullify(s, [i]), i, NULL), s.dest[i]), s.dest[i]);
            r.dest == q.dest && r.nulled == q.nulled && r.closed == q.closed
  {
    hide Notify, RunCloser, ShutdownEach, Restart;
  }

  // ----- Trees

  /**
   * A link from an interface `from` to an interface `up` that restarts, or to that of an object on whose other
   * interfaces further trees hang.
   */
  datatype Tree = Leaf(from: nat, up: nat) | Node(from: nat, up: nat, id: nat, kids: seq<Tree>)

  ghost function Span(t: Tree): set<nat>
    decreases t, 0
  {
    {t.from, t.up} + if t.Node? then SpanAll(t.kids) else {}
  }

  ghost function SpanAll(ts: seq<Tree>): set<nat>
    decreases ts, 1
  {
    if ts == [] then {} else Span(ts[0]) + SpanAll(ts[1..])
  }

  ghost function Closed(t: Tree): multiset<nat>
    decreases t, 0
  {
    if t.Node? then multiset{t.id} + ClosedAll(t.kids) else multiset{}
  }

  ghost function ClosedAll(ts: seq<Tree>): multiset<nat>
    decreases ts, 1
  {
    if ts == [] then multiset{} else Closed(ts[0]) + ClosedAll(ts[1..])
  }

  ghost function Froms(ts: seq<Tree>): set<nat> {
    set t | t in ts :: t.from
  }

  /** The object's close operation shuts its interface towards the root and all others, each once, in some order. */
  ghost predicate ClosesAll(w: Wiring, t: Tree)
    requires t.Node?
  {
    && t.up in w.holder && w.holder[t.up] == t.id && t.id in w.closer && NoDuplicates(w.closer[t.id].intfs)
    && (forall i :: i in w.closer[t.id].intfs <==> i == t.up || i in Froms(t.kids))
  }

  /** The interfaces that must hear of a close. */
  ghost function Ears(t: Tree): set<nat>
    decreases t, 0
  {
    {t.up} + if t.Node? then EarsAll(t.kids) else {}
  }

  ghost function EarsAll(ts: seq<Tree>): set<nat>
    decreases ts, 1
  {
    if ts == [] then {} else Ears(ts[0]) + EarsAll(ts[1..])
  }

  /** The tree is linked in pairs and has no interface twice. */
  ghost predicate Hangs(w: Wiring, dest: map<nat, nat>, t: Tree)
    decreases t, 0
  {
    && t.from != t.up && t.up != NULL
    && t.from in dest && dest[t.from] == t.up && t.up in dest && dest[t.up] == t.from
    && (t.Leaf? ==> !w.HasCloser(t.up))
    && (t.Node? ==> ClosesAll(w, t) && {t.from, t.up} !! SpanAll(t.kids) && AllHang(w, dest, t.kids))
  }

  ghost predicate AllHang(w: Wiring, dest: map<nat, nat>, ts: seq<Tree>)
    decreases ts, 1
  {
    ts == [] || (Hangs(w, dest, ts[0]) && AllHang(w, dest, ts[1..]) && Span(ts[0]) !! SpanAll(ts[1..]))
  }

  // ----- Parts of a tree

  lemma {:induction false} HangsFrame(w: Wiring, dest: map<nat, nat>, dest': map<nat, nat>, t: Tree)
    requires Hangs(w, dest, t) && forall i :: i in Span(t) && i in dest ==> i in dest' && dest'[i] == dest[i]
    ensures Hangs(w, dest', t)
    decreases t, 0
  {
    if t.Node? {
      AllHangFrame(w, dest, dest', t.kids);
    }
  }

  lemma {:induction false} AllHangFrame(w: Wiring, dest: map<nat, nat>, dest': map<nat, nat>, ts: seq<Tree>)
    requires AllHang(w, dest, ts) && forall i :: i in SpanAll(ts) && i in dest ==> i in dest' && dest'[i] == dest[i]
    ensures AllHang(w, dest', ts)
    decreases ts, 1
  {
    if ts != [] {
      HangsFrame(w, dest, dest', ts[0]);
      AllHangFrame(w, dest, dest', ts[1..]);
    }
  }

  lemma {:induction false} EarsInSpan(t: Tree)
    ensures Ears(t) <= Span(t)
    decreases t, 0
  {
    if t.Node? {
      EarsAllInSpan(t.kids);
    }
  }

  lemma {:induction false} EarsAllInSpan(ts: seq<Tree>)
    ensures EarsAll(ts) <= SpanAll(ts)
    decreases ts, 1
  {
    if ts != [] {
      EarsInSpan(ts[0]);
      EarsAllInSpan(ts[1..]);
    }
  }

  lemma {:induction false} KidIn(w: Wiring, dest: map<nat, nat>, ts: seq<Tree>, k: Tree)
    requires AllHang(w, dest, ts) && k in ts
    ensures Hangs(w, dest, k) && Span(k) <= SpanAll(ts) && Ears(k) <= EarsAll(ts)
  {
    if k != ts[0] {
      KidIn(w, dest, ts[1..], k);
    }
  }

  lemma {:induction false} KidsApart(w: Wiring, dest: map<nat, nat>, ts: seq<Tree>, k: Tree, l: Tree)
    requires AllHang(w, dest, ts) && k in ts && l in ts && k != l
    ensures Span(k) !! Span(l)
  {
    if k == ts[0] {
      KidIn(w, dest, ts[1..], l);
    } else if l == ts[0] {
      KidIn(w, dest, ts[1..], k);
    } else {
      KidsApart(w, dest, ts[1..], k, l);
    }
  }

  /** No interface that must hear of a close is one on which a tree hangs. */
  lemma FromsDeaf(w: Wiring, dest: map<nat, nat>, ts: seq<Tree>)
    requires AllHang(w, dest, ts)
    ensures Froms(ts) !! EarsAll(ts)
  {
    forall k | k in ts
      ensures k.from !in EarsAll(ts)
    {
      FromDeaf(w, dest, ts, k);
    }
  }

  lemma {:induction false} FromDeaf(w: Wiring, dest: map<nat, nat>, ts: seq<Tree>, k: Tree)
    requires AllHang(w, dest, ts) && k in ts
    ensures k.from !in EarsAll(ts)
  {
    EarsAllInSpan(ts[1..]);
    EarsInSpan(ts[0]);
    if k == ts[0] {
      if k.Node? {
        EarsAllInSpan(k.kids);
      }
    } else {
      KidIn(w, dest, ts[1..], k);
      FromDeaf(w, dest, ts[1..], k);
    }
  }

  // ----- Going through the interfaces of an object in any order

  /** The tree that hangs on interface `i`. */
  ghost function KidAt(ts: seq<Tree>, i: nat): (k: Tree)
    requires i in Froms(ts)
    ensures k in ts && k.from == i
  {
    if ts[0].from == i then ts[0] else KidAt(ts[1..], i)
  }

  /** What shutting interface `i` of an object unplugs. */
  ghost function SpanAt(t: Tree, i: nat): set<nat>
    requires t.Node? && (i == t.up || i in Froms(t.kids))
  {
    if i == t.up then {i} else Span(KidAt(t.kids, i))
  }

  ghost function ClosedAt(t: Tree, i: nat): multiset<nat>
    requires t.Node? && (i == t.up || i in Froms(t.kids))
  {
    if i == t.up then multiset{} else Closed(KidAt(t.kids, i))
  }

  ghost predicate Own(t: Tree, intfs: seq<nat>)
    requires t.Node?
  {
    forall i :: i in intfs ==> i == t.up || i in Froms(t.kids)
  }

  ghost function SpanList(t: Tree, intfs: seq<nat>): set<nat>
    requires t.Node? && Own(t, intfs)
  {
    if intfs == [] then {} else SpanAt(t, intfs[0]) + SpanList(t, intfs[1..])
  }

  ghost function ClosedList(t: Tree, intfs: seq<nat>): multiset<nat>
    requires t.Node? && Own(t, intfs)
  {
    if intfs == [] then multiset{} else ClosedAt(t, intfs[0]) + ClosedList(t, intfs[1..])
  }

  /** Interfaces `gone` were unplugged and `ran` were closed; none that was nullified receives operations again. */
  ghost predicate Shut(s: State, r: State, gone: set<nat>, ran: multiset<nat>) {
    && r.dest == s.dest - gone && multiset(r.closed) == multiset(s.closed) + ran
    && s.nulled <= r.nulled <= s.nulled + gone
  }

  /** Shutting interface `i` will unplug just the tree on it. */
  ghost predicate Intact(w: Wiring, s: State, t: Tree, i: nat)
    requires t.Node? && (i == t.up || i in Froms(t.kids))
  {
    if i == t.up then i in s.dest && s.dest[i] in s.nulled
    else Hangs(w, s.dest, KidAt(t.kids, i)) && Ears(KidAt(t.kids, i)) !! s.nulled
  }

  /** The parts of the tree on different interfaces of an object have nothing in common. */
  ghost predicate Apart(t: Tree)
    requires t.Node?
  {
    forall i, j :: (i == t.up || i in Froms(t.kids)) && (j == t.up || j in Froms(t.kids)) && i != j
      ==> SpanAt(t, i) !! SpanAt(t, j)
  }

  /** Shutting one interface leaves the parts on the others as they were. */
  lemma StillIntact(w: Wiring, s: State, r: State, t: Tree, i: nat, j: nat, ran: multiset<nat>)
    requires t.Node? && Apart(t) && (i == t.up || i in Froms(t.kids)) && (j == t.up || j in Froms(t.kids)) && i != j
    requires Intact(w, s, t, j) && Shut(s, r, SpanAt(t, i), ran)
    ensures Intact(w, r, t, j)
  {
    hide Hangs, Apart;
    SpansApart(t, i, j);
    if j != t.up {
      var k := KidAt(t.kids, j);
      EarsInSpan(k);
      HangsFrame(w, s.dest, r.dest, k);
    }
  }

  lemma SpansApart(t: Tree, i: nat, j: nat)
    requires t.Node? && Apart(t) && (i == t.up || i in Froms(t.kids)) && (j == t.up || j in Froms(t.kids)) && i != j
    ensures SpanAt(t, i) !! SpanAt(t, j) && j in SpanAt(t, j)
  {}

  lemma ShutTwice(s: State, m: State, r: State, a: set<nat>, b: set<nat>, x: multiset<nat>, y: multiset<nat>)
    requires Shut(s, m, a, x) && Shut(m, r, b, y)
    ensures Shut(s, r, a + b, x + y)
  {
    assert s.dest - a - b == s.dest - (a + b);
  }

  /** Shutting the interfaces of an object one after the other shuts every tree on them. */
  lemma {:induction false} ShutList(w: Wiring, s: State, t: Tree, intfs: seq<nat>)
    requires t.Node? && Apart(t) && Own(t, intfs) && NoDuplicates(intfs) && forall i :: i in intfs ==>
      Intact(w, s, t, i)
    ensures Shut(s, ShutdownEach(w, s, intfs), SpanList(t, intfs), ClosedList(t, intfs))
    decreases t, 0, |intfs|
  {
    hide Shutdown, Apart, Intact, Shut, SpanAt, ClosedAt;
    if intfs == [] {
      NothingShut(s);
    } else {
      var i, rest := intfs[0], intfs[1..];
      var m := Shutdown(w, s, i);
      ShutOne(w, s, t, i);
      forall j | j in rest
        ensures Intact(w, m, t, j)
      {
        StillIntact(w, s, m, t, i, j, ClosedAt(t, i));
      }
      ShutList(w, m, t, rest);
      ShutTwice(s, m, ShutdownEach(w, s, intfs), SpanAt(t, i), SpanList(t, rest), ClosedAt(t, i), ClosedList(t, rest));
    }
  }

  lemma NothingShut(s: State)
    ensures Shut(s, s, {}, multiset{})
  {
    assert s.dest - {} == s.dest;
  }

  lemma ShutOne(w: Wiring, s: State, t: Tree, i: nat)
    requires t.Node? && (i == t.up || i in Froms(t.kids)) && Intact(w, s, t, i)
    ensures Shut(s, Shutdown(w, s, i), SpanAt(t, i), ClosedAt(t, i))
    decreases t, 0, 0
  {
    hide Shutdown, Hangs;
    if i == t.up {
      ShutBack(w, s, i);
    } else {
      ShutTree(w, s, KidAt(t.kids, i));
    }
  }

  lemma ShutLeaf(w: Wiring, s: State, t: Tree)
    requires t.Leaf? && Hangs(w, s.dest, t) && t.up !in s.nulled
    ensures Shut(s, Shutdown(w, s, t.from), Span(t), Closed(t))
  {
    hide Shutdown;
    var g := Get(w, SetDest(Nullify(s, [t.from]), t.from, NULL), t.up);
    ShutStep(w, s, t.from);
    ShutBack(w, g, t.up);
    assert Notify(w, g, t.up) == Restart(w, g, t.up);
    assert s.dest - {t.from} - {t.up} == s.dest - {t.from, t.up};
  }

  /** The state in which the interfaces of the first object of a tree are shut, one after the other. */
  ghost function Reached(w: Wiring, s: State, t: Tree): State
    requires t.Node? && ClosesAll(w, t)
  {
    var g := Get(w, SetDest(Nullify(s, [t.from]), t.from, NULL), t.up);
    var l := g.(closed := g.closed + [t.id]);
    if w.closer[t.id].nullifyFirst then Nullify(l, w.closer[t.id].intfs) else l
  }

  lemma ReachedFacts(w: Wiring, s: State, t: Tree)
    requires t.Node? && ClosesAll(w, t)
    ensures var n := Reached(w, s, t);
            && n.dest == s.dest - {t.from} && n.closed == s.closed + [t.id]
            && s.nulled + {t.from} <= n.nulled <= s.nulled + {t.from, t.up} + Froms(t.kids)
  {}

  lemma ShutNode(w: Wiring, s: State, t: Tree)
    requires t.Node? && ClosesAll(w, t) && t.from in s.dest && s.dest[t.from] == t.up
    requires t.up != NULL && t.up != t.from && t.up !in s.nulled
    ensures var r, q := Shutdown(w, s, t.from), ShutdownEach(w, Reached(w, s, t), w.closer[t.id].intfs);
            r.dest == q.dest && r.nulled == q.nulled && r.closed == q.closed
  {
    hide Shutdown, ShutdownEach;
    var g := Get(w, SetDest(Nullify(s, [t.from]), t.from, NULL), t.up);
    ShutStep(w, s, t.from);
    assert w.HasCloser(t.up) && t.up !in g.nulled;
    assert Notify(w, g, t.up) == ShutdownEach(w, Reached(w, s, t), w.closer[t.id].intfs);
  }

  lemma NodeApart(w: Wiring, dest: map<nat, nat>, t: Tree)
    requires t.Node? && Hangs(w, dest, t)
    ensures Apart(t)
  {
    hide Span, Hangs, AllHang;
    NodeFacts(w, dest, t);
    forall i, j | (i == t.up || i in Froms(t.kids)) && (j == t.up || j in Froms(t.kids)) && i != j
      ensures SpanAt(t, i) !! SpanAt(t, j)
    {
      if i != t.up {
        KidIn(w, dest, t.kids, KidAt(t.kids, i));
      }
      if j != t.up {
        KidIn(w, dest, t.kids, KidAt(t.kids, j));
      }
      if i != t.up && j != t.up {
        KidsApart(w, dest, t.kids, KidAt(t.kids, i), KidAt(t.kids, j));
      }
    }
  }

  lemma NodeFacts(w: Wiring, dest: map<nat, nat>, t: Tree)
    requires t.Node? && Hangs(w, dest, t)
    ensures ClosesAll(w, t) && {t.from, t.up} !! SpanAll(t.kids) && AllHang(w, dest, t.kids)
    ensures t.up != NULL && t.from != t.up && t.from in dest && dest[t.from] == t.up && t.up in dest &&
      dest[t.up] == t.from
  {}

  /** When the first object is reached, all the trees on its other interfaces are as they were. */
  lemma NodeIntact(w: Wiring, s: State, t: Tree, i: nat)
    requires t.Node? && Hangs(w, s.dest, t) && Ears(t) !! s.nulled && (i == t.up || i in Froms(t.kids)) &&
      ClosesAll(w, t)
    ensures Intact(w, Reached(w, s, t), t, i)
  {
    hide Span, SpanAll, Hangs, AllHang, Reached, ClosesAll, EarsAll;
    NodeFacts(w, s.dest, t);
    ReachedFacts(w, s, t);
    if i != t.up {
      var k := KidAt(t.kids, i);
      KidIn(w, s.dest, t.kids, k);
      HangsFrame(w, s.dest, Reached(w, s, t).dest, k);
      FromsDeaf(w, s.dest, t.kids);
      EarsAllInSpan(t.kids);
    }
  }

  // ----- All interfaces together are the whole tree

  lemma {:induction false} SpanListElements(t: Tree, intfs: seq<nat>, x: nat)
    requires t.Node? && Own(t, intfs)
    ensures x in SpanList(t, intfs) <==> exists i :: i in intfs && x in SpanAt(t, i)
  {
    hide SpanAt;
    if intfs != [] {
      SpanListElements(t, intfs[1..], x);
    }
  }

  lemma {:induction false} SpanAllElements(ts: seq<Tree>, x: nat)
    ensures x in SpanAll(ts) <==> exists k :: k in ts && x in Span(k)
  {
    hide Span;
    if ts != [] {
      SpanAllElements(ts[1..], x);
      if x in Span(ts[0]) {
        assert ts[0] in ts;
      }
      if k :| k in ts && x in Span(k) && k != ts[0] {
        assert k in ts[1..];
      }
    }
  }

  lemma NodeSpan(w: Wiring, dest: map<nat, nat>, t: Tree)
    requires t.Node? && Hangs(w, dest, t) && ClosesAll(w, t) && Own(t, w.closer[t.id].intfs)
    ensures {t.from} + SpanList(t, w.closer[t.id].intfs) == Span(t)
  {
    hide Hangs, SpanList;
    var intfs := w.closer[t.id].intfs;
    NodeFacts(w, dest, t);
    forall x: nat
      ensures x in SpanList(t, intfs) <==> x == t.up || x in SpanAll(t.kids)
    {
      SpanListElements(t, intfs, x);
      SpanAllElements(t.kids, x);
      if x in SpanAll(t.kids) {
        var k :| k in t.kids && x in Span(k);
        SameKid(w, dest, t.kids, k);
        FromInSpan(k);
        SpanAllElements(t.kids, k.from);
        assert k.from in intfs && x in SpanAt(t, k.from);
      }
      assert t.up in intfs && t.up in SpanAt(t, t.up);
    }
  }

  /** The tree on an interface is found from that interface. */
  lemma {:induction false} SameKid(w: Wiring, dest: map<nat, nat>, ts: seq<Tree>, k: Tree)
    requires AllHang(w, dest, ts) && k in ts
    ensures k.from in Froms(ts) && KidAt(ts, k.from) == k
  {
    if KidAt(ts, k.from) != k {
      KidsApart(w, dest, ts, KidAt(ts, k.from), k);
    }
  }

  lemma {:induction false} ClosedListRemove(t: Tree, intfs: seq<nat>, x: nat)
    requires t.Node? && Own(t, intfs) && x in intfs && NoDuplicates(intfs)
    ensures Own(t, Without(intfs, x)) && ClosedList(t, intfs) == ClosedAt(t, x) + ClosedList(t, Without(intfs, x))
  {
    hide ClosedAt;
    WithoutElements(intfs, x);
    if intfs[0] != x {
      ClosedListRemove(t, intfs[1..], x);
      assert Without(intfs, x)[1..] == Without(intfs[1..], x);
    }
  }

  /** However the interfaces are ordered, the same objects are closed. */
  lemma {:induction false} ClosedListAll(w: Wiring, dest: map<nat, nat>, t: Tree, ts: seq<Tree>, intfs: seq<nat>)
    requires t.Node? && Own(t, intfs) && NoDuplicates(intfs) && AllHang(w, dest, t.kids) && AllHang(w, dest, ts)
    requires (forall k :: k in ts ==> k in t.kids) && t.up !in SpanAll(t.kids)
    requires forall i :: i in intfs <==> i == t.up || i in Froms(ts)
    ensures ClosedList(t, intfs) == ClosedAll(ts)
    decreases ts
  {
    hide Span, Hangs;
    if ts == [] {
      ClosedListRemove(t, intfs, t.up);
      WithoutElements(intfs, t.up);
      if Without(intfs, t.up) != [] {
        SomeElement(Without(intfs, t.up));
      }
    } else {
      var k, rest := ts[0], Without(intfs, ts[0].from);
      SameKid(w, dest, t.kids, k);
      KidIn(w, dest, t.kids, k);
      FromInSpan(k);
      assert k.from in Froms(ts);
      ClosedListRemove(t, intfs, k.from);
      WithoutElements(intfs, k.from);
      FromsFirst(w, dest, ts);
      ClosedListAll(w, dest, t, ts[1..], rest);
    }
  }

  lemma SomeElement(list: seq<nat>)
    requires list != []
    ensures exists c :: c in list
  {
    assert list[0] in list;
  }

  lemma SharedElement(list: seq<nat>, a: set<nat>, b: set<nat>)
    requires list != [] && forall c :: c in list ==> c in a && c in b
    ensures exists c :: c in a && c in b
  {
    assert list[0] in list;
  }

  lemma FromInSpan(t: Tree)
    ensures t.from in Span(t)
  {}

  lemma FromsFirst(w: Wiring, dest: map<nat, nat>, ts: seq<Tree>)
    requires AllHang(w, dest, ts) && ts != []
    ensures ts[0].from !in Froms(ts[1..]) && Froms(ts) == {ts[0].from} + Froms(ts[1..])
  {
    hide Span, Hangs;
    forall k | k in ts[1..]
      ensures k.from != ts[0].from
    {
      KidIn(w, dest, ts[1..], k);
      FromInSpan(k);
      FromInSpan(ts[0]);
    }
  }

  lemma OwnIntfs(w: Wiring, t: Tree)
    requires t.Node? && ClosesAll(w, t)
    ensures Own(t, w.closer[t.id].intfs) && NoDuplicates(w.closer[t.id].intfs)
  {}

  /** The first object and the trees on its interfaces make up the whole tree. */
  lemma NodeShut(w: Wiring, s: State, r: State, t: Tree, e: State)
    requires t.Node? && Hangs(w, s.dest, t) && ClosesAll(w, t) && Own(t, w.closer[t.id].intfs)
    requires Shut(Reached(w, s, t), e, SpanList(t, w.closer[t.id].intfs), ClosedList(t, w.closer[t.id].intfs))
    requires r.dest == e.dest && r.nulled == e.nulled && r.closed == e.closed
    ensures Shut(s, r, Span(t), Closed(t))
  {
    hide Span, Hangs, Reached, SpanList, ClosedList;
    var intfs := w.closer[t.id].intfs;
    NodeFacts(w, s.dest, t);
    OwnIntfs(w, t);
    NodeSpan(w, s.dest, t);
    ClosedListAll(w, s.dest, t, t.kids, intfs);
    ReachedFacts(w, s, t);
    SpanHas(t);
    assert multiset(s.closed + [t.id]) == multiset(s.closed) + multiset{t.id};
    assert s.dest - {t.from} - SpanList(t, intfs) == s.dest - Span(t);
  }

  lemma SpanHas(t: Tree)
    requires t.Node?
    ensures {t.from, t.up} <= Span(t) && Froms(t.kids) <= Span(t)
  {
    forall k | k in t.kids
      ensures k.from in Span(t)
    {
      SpanAllElements(t.kids, k.from);
    }
  }

  /**
   * Shutting the interface on which a tree of objects hangs, whatever the number of interfaces of each object and the
   * order in which it shuts them, unplugs every link and runs the close operations of exactly its objects.
   */
  lemma {:induction false} ShutTree(w: Wiring, s: State, t: Tree)
    requires Hangs(w, s.dest, t) && Ears(t) !! s.nulled
    ensures Shut(s, Shutdown(w, s, t.from), Span(t), Closed(t))
    decreases t, 1
  {
    hide Shutdown, ShutdownEach, Shut, Span, Closed, Hangs, Reached, ClosesAll, Intact;
    if t.Leaf? {
      ShutLeaf(w, s, t);
    } else {
      NodeFacts(w, s.dest, t);
      var n, intfs := Reached(w, s, t), w.closer[t.id].intfs;
      ShutNode(w, s, t);
      NodeApart(w, s.dest, t);
      OwnIntfs(w, t);
      forall i | i in intfs
        ensures Intact(w, n, t, i)
      {
        NodeIntact(w, s, t, i);
      }
      ShutList(w, n, t, intfs);
      NodeShut(w, s, Shutdown(w, s, t.from), t, ShutdownEach(w, n, intfs));
    }
  }

  // ----- Each object once

  /** The interfaces of an object that occurs in a tree are interfaces of that tree. */
  lemma {:induction false} IdWithin(w: Wiring, dest: map<nat, nat>, t: Tree, o: nat)
    requires Hangs(w, dest, t) && o in Closed(t)
    ensures o in w.closer && w.closer[o].intfs != [] && forall i :: i in w.closer[o].intfs ==> i in Span(t) - {t.from}
    decreases t, 0
  {
    if o == t.id {
      assert t.up in w.closer[o].intfs;
      forall k | k in t.kids
        ensures k.from in SpanAll(t.kids)
      {
        SpanAllElements(t.kids, k.from);
      }
    } else {
      IdWithinAll(w, dest, t.kids, o);
    }
  }

  lemma {:induction false} IdWithinAll(w: Wiring, dest: map<nat, nat>, ts: seq<Tree>, o: nat)
    requires AllHang(w, dest, ts) && o in ClosedAll(ts)
    ensures o in w.closer && w.closer[o].intfs != [] && forall i :: i in w.closer[o].intfs ==> i in SpanAll(ts)
    decreases ts, 1
  {
    if o in Closed(ts[0]) {
      IdWithin(w, dest, ts[0], o);
    } else {
      IdWithinAll(w, dest, ts[1..], o);
    }
  }

  /** No object occurs twice in a tree, so each is closed exactly once. */
  lemma {:induction false} EachOnce(w: Wiring, dest: map<nat, nat>, t: Tree, o: nat)
    requires Hangs(w, dest, t)
    ensures Closed(t)[o] <= 1
    decreases t, 0
  {
    hide ClosesAll;
    if t.Node? {
      EachOnceAll(w, dest, t.kids, o);
      if o == t.id && o in ClosedAll(t.kids) {
        IdWithinAll(w, dest, t.kids, o);
        UpShut(w, t);
      }
    }
  }

  lemma UpShut(w: Wiring, t: Tree)
    requires t.Node? && ClosesAll(w, t)
    ensures t.id in w.closer && t.up in w.closer[t.id].intfs
  {}

  lemma {:induction false} EachOnceAll(w: Wiring, dest: map<nat, nat>, ts: seq<Tree>, o: nat)
    requires AllHang(w, dest, ts)
    ensures ClosedAll(ts)[o] <= 1
    decreases ts, 1
  {
    hide ClosesAll;
    if ts != [] {
      EachOnce(w, dest, ts[0], o);
      EachOnceAll(w, dest, ts[1..], o);
      if o in Closed(ts[0]) && o in ClosedAll(ts[1..]) {
        IdWithin(w, dest, ts[0], o);
        IdWithinAll(w, dest, ts[1..], o);
        SharedElement(w.closer[o].intfs, Span(ts[0]), SpanAll(ts[1..]));
      }
    }
  }

  // ----- Each object freed

  /** Some interface is plugged into each object of a tree. */
  lemma {:induction false} PluggedInto(w: Wiring, dest: map<nat, nat>, t: Tree, o: nat) returns (i: nat)
    requires Hangs(w, dest, t) && o in Closed(t)
    ensures i in Plugs(w, dest, o)
    decreases t, 0
  {
    if o == t.id {
      i := t.from;
    } else {
      i := PluggedIntoAll(w, dest, t.kids, o);
    }
  }

  lemma {:induction false} PluggedIntoAll(w: Wiring, dest: map<nat, nat>, ts: seq<Tree>, o: nat) returns (i: nat)
    requires AllHang(w, dest, ts) && o in ClosedAll(ts)
    ensures i in Plugs(w, dest, o)
    decreases ts, 1
  {
    if o in Closed(ts[0]) {
      i := PluggedInto(w, dest, ts[0], o);
    } else {
      i := PluggedIntoAll(w, dest, ts[1..], o);
    }
  }

  /** An object to which only the tree refers is freed, once, when the tree is shut down. */
  lemma TreeFreed(w: Wiring, s: State, t: Tree, held: multiset<nat>, o: nat)
    requires Hangs(w, s.dest, t) && Ears(t) !! s.nulled && Counted(w, s, held)
    requires o in Closed(t) && o in s.count && held[o] == 0 && Plugs(w, s.dest, o) <= Span(t)
    ensures o !in s.freed && multiset(Shutdown(w, s, t.from).freed)[o] == 1
  {
    hide Shutdown, Hangs, Ears, Span, Closed, Counted;
    var r := Shutdown(w, s, t.from);
    ShutTree(w, s, t);
    ShutdownCounted(w, s, t.from, held);
    var i := PluggedInto(w, s.dest, t, o);
    FreedWhenUnreferenced(w, s, held, o);
    assert Plugs(w, r.dest, o) == {};
    FreedWhenUnreferenced(w, r, held, o);
  }
}
