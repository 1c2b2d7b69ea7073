/** Looking up an operation through filters that pass it on (src/core/interface.c). */
module InterfaceLookup {
  import opened InterfaceSpec
  import opened InterfaceCounts
  import opened InterfaceChains
  import opened Interface

  /**
   * The operations that the descriptor of each interface implements, and the interface to which it passes others on.
   */
  datatype Descriptors = Descriptors(ops: map<nat, set<nat>>, passthru: map<nat, nat>)

  /** A nullified interface implements nothing and passes nothing on. */
  predicate Implements(k: Descriptors, s: State, d: nat, op: nat) {
    d in k.ops && op in k.ops[d] && d !in s.nulled
  }

  predicate PassesOn(k: Descriptors, s: State, d: nat) {
    d in k.passthru && d !in s.nulled && d != NULL
  }

  /** The destination that a lookup at interface `i` ends at, if that is within `n` filters. */
  ghost function Target(k: Descriptors, s: State, i: nat, op: nat, n: nat): nat
    decreases n
  {
    var d := Dest(s, i);
    if n == 0 || Implements(k, s, d, op) || !PassesOn(k, s, d) then d else Target(k, s, k.passthru[d], op, n - 1)
  }

  /** A lookup ends within `n` filters: it does not go round in a loop of them. */
  ghost predicate Settles(k: Descriptors, s: State, i: nat, op: nat, n: nat)
    decreases n
  {
    var d := Dest(s, i);
    Implements(k, s, d, op) || !PassesOn(k, s, d) || (n > 0 && Settles(k, s, k.passthru[d], op, n - 1))
  }

  /**
   * A lookup goes from interface to interface: each destination on the way does not implement the operation and passes
   * it on, and the last implements it or passes nothing on.
   */
  lemma {:induction false} TargetPath(k: Descriptors, s: State, i: nat, op: nat, n: nat) returns (hops: seq<nat>)
    requires Settles(k, s, i, op, n)
    ensures 0 < |hops| <= n + 1 && hops[0] == i && Target(k, s, i, op, n) == Dest(s, hops[|hops| - 1])
    ensures forall j :: 0 < j < |hops| ==> Hop(k, s, op, hops[j - 1], hops[j])
    ensures var d := Target(k, s, i, op, n); Implements(k, s, d, op) || d !in k.passthru || d in s.nulled || d == NULL
    decreases n
  {
    var d := Dest(s, i);
    if Implements(k, s, d, op) || !PassesOn(k, s, d) {
      hops := [i];
    } else {
      var rest := TargetPath(k, s, k.passthru[d], op, n - 1);
      hops := [i] + rest;
      forall j | 0 < j < |hops|
        ensures Hop(k, s, op, hops[j - 1], hops[j])
      {
        assert hops[j] == rest[j - 1] && (j > 1 ==> hops[j - 1] == rest[j - 2]);
      }
    }
  }

  /** The destination of interface `a` passes the operation on to that of interface `b`. */
  ghost predicate Hop(k: Descriptors, s: State, op: nat, a: nat, b: nat) {
    a in s.dest && s.dest[a] in k.passthru && s.dest[a] !in s.nulled && k.passthru[s.dest[a]] == b
    && (s.dest[a] in k.ops ==> op !in k.ops[s.dest[a]])
  }

  /** Taking and dropping a reference to an object that someone refers to changes nothing. */
  lemma GetPut(w: Wiring, s: State, d: nat)
    requires Alive(w, s, d)
    ensures Put(w, Get(w, s, d), d) == s
  {
    if d in w.holder {
      var o := w.holder[d];
      assert s.count[o := s.count[o] + 1][o := s.count[o]] == s.count;
    }
  }

  /**
   * intf_get_dest_op(): the destination found, and whether it implements the operation. Whatever was held on the way,
   * one reference to the destination is held in the end.
   */
  method Lookup(g: Graph, k: Descriptors, i: nat, op: nat, ghost n: nat) returns (dest: nat, found: bool)
    requires g.Valid() && Settles(k, g.View(), i, op, n)
    modifies g`count, g`freed, g`held
    ensures g.Valid() && g.View() == Get(g.w, old(g.View()), dest) && g.held == old(g.held) + Ref(g.w, dest)
    ensures dest == Target(k, old(g.View()), i, op, n)
    ensures found == Implements(k, old(g.View()), dest, op) && (!found ==> !PassesOn(k, old(g.View()), dest))
    ensures found <==> dest in k.ops && op in k.ops[dest] && dest !in g.nulled
    decreases n
  {
    hide Counted, Get, Put;
    var j := i;
    ghost var left := n;
    ghost var s := g.View();
    while true
      invariant g.Valid() && g.View() == s && g.held == old(g.held)
      invariant Settles(k, s, j, op, left) && Target(k, s, j, op, left) == Target(k, s, i, op, n)
      decreases left
    {
      dest := g.DestOf(j);
      DestAlive(g.w, s, j, g.held);
      g.Acquire(dest);
      if dest in k.ops && op in k.ops[dest] && dest !in g.nulled {
        return dest, true;
      }
      if dest !in k.passthru || dest in g.nulled || dest == NULL {
        return dest, false;
      }
      GetPut(g.w, s, dest);
      assert old(g.held) + Ref(g.w, dest) - Ref(g.w, dest) == old(g.held);
      g.Release(dest);
      j := k.passthru[dest];
      left := left - 1;
    }
  }

  /** Every filter passes the operation on from one side to the other. */
  ghost predicate Transparent(k: Descriptors, s: State, fs: seq<Filter>, op: nat) {
    forall f :: f in fs ==> !Implements(k, s, f.up, op) && PassesOn(k, s, f.up) && k.passthru[f.up] == f.down
  }

  /** Through a chain of any number of filters that pass it on, an operation reaches the far end. */
  lemma {:induction false} LookupChain(k: Descriptors, s: State, a: nat, fs: seq<Filter>, e: nat, op: nat)
    requires Linked(s.dest, a, fs, e) && Transparent(k, s, fs, op)
    requires Implements(k, s, e, op) || !PassesOn(k, s, e)
    ensures Settles(k, s, a, op, |fs|) && Target(k, s, a, op, |fs|) == e
    decreases fs
  {
    if fs != [] {
      LookupChain(k, s, fs[0].down, fs[1..], e, op);
    }
  }
}
