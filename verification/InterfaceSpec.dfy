/** What the object interface operations of src/core/interface.c do to the graph of interfaces. */
module InterfaceSpec {

  /** The null interface; an interface that is not plugged has it as its destination. */
  const NULL: nat := 0

  /** What an object's close operation does: shuts these interfaces, perhaps nullifying all of them first. */
  datatype Closer = Closer(intfs: seq<nat>, nullifyFirst: bool)

  /**
   * The object that each interface belongs to, if reference counted, and the close operation of each object that has
   * one. The interfaces of other objects restart when closed.
   */
  datatype Wiring = Wiring(holder: map<nat, nat>, closer: map<nat, Closer>) {
    predicate Valid() {
      NULL !in holder
    }

    predicate HasCloser(i: nat) {
      i in holder && holder[i] in closer
    }
  }

  /** Destinations, nullified interfaces, reference counts, and the close and free methods that have run. */
  datatype State = State(dest: map<nat, nat>, nulled: set<nat>, count: map<nat, int>, closed: seq<nat>, freed: seq<nat>)

  function Dest(s: State, i: nat): nat {
    if i in s.dest then s.dest[i] else NULL
  }

  // ----- References

  /** ref_increment() of the object that interface `d` belongs to. */
  function Get(w: Wiring, s: State, d: nat): State {
    if d in w.holder then s.(count := s.count[w.holder[d] := Count(s, w.holder[d]) + 1]) else s
  }

  /** ref_decrement(), with the free method run when the count falls to -1. */
  function Put(w: Wiring, s: State, d: nat): State {
    if d in w.holder then
      var o := w.holder[d];
      s.(count := s.count[o := Count(s, o) - 1], freed := if Count(s, o) == 0 then s.freed + [o] else s.freed)
    else s
  }

  function Count(s: State, o: nat): int {
    if o in s.count then s.count[o] else -1
  }

  // ----- Plugging

  function SetDest(s: State, i: nat, d: nat): State {
    s.(dest := if d == NULL then s.dest - {i} else s.dest[i := d])
  }

  function Plug(w: Wiring, s: State, i: nat, d: nat): State {
    if i == NULL then s else SetDest(Put(w, Get(w, s, d), Dest(s, i)), i, d)
  }

  function PlugPlug(w: Wiring, s: State, a: nat, b: nat): State {
    Plug(w, Plug(w, s, a, b), b, a)
  }

  function Unplug(w: Wiring, s: State, i: nat): State {
    SetDest(Put(w, s, Dest(s, i)), i, NULL)
  }

  function Insert(w: Wiring, s: State, i: nat, upper: nat, lower: nat): State {
    var d := Dest(s, i);
    Put(w, PlugPlug(w, PlugPlug(w, Get(w, s, d), i, upper), lower, d), d)
  }

  // ----- Shutting down

  function Elements(intfs: seq<nat>): set<nat> {
    set i | i in intfs
  }

  /** intf_nullify() of each of these interfaces. */
  function Nullify(s: State, intfs: seq<nat>): State {
    s.(nulled := s.nulled + Elements(intfs))
  }

  /** intf_shutdown(): the interface is cut off before its destination hears of it. */
  function Shutdown(w: Wiring, s: State, i: nat): (r: State)
    ensures r.dest.Keys <= s.dest.Keys && s.count.Keys <= r.count.Keys
    decreases s.dest.Keys, 0, 0
  {
    var d := Dest(s, i);
    var cut := SetDest(Nullify(s, [i]), i, NULL);
    if i !in s.dest then cut
    else Put(w, Put(w, Notify(w, Get(w, cut, d), d), d), d)
  }

  /** The close operation as received by interface `d`. */
  function Notify(w: Wiring, s: State, d: nat): (r: State)
    ensures r.dest.Keys <= s.dest.Keys && s.count.Keys <= r.count.Keys
    decreases s.dest.Keys, 2, 0
  {
    if d == NULL || d in s.nulled then s
    else if w.HasCloser(d) then RunCloser(w, s.(closed := s.closed + [w.holder[d]]), w.closer[w.holder[d]])
    else Restart(w, s, d)
  }

  function RunCloser(w: Wiring, s: State, c: Closer): (r: State)
    ensures r.dest.Keys <= s.dest.Keys && s.count.Keys <= r.count.Keys
    decreases s.dest.Keys, 1, |c.intfs| + 1
  {
    ShutdownEach(w, if c.nullifyFirst then Nullify(s, c.intfs) else s, c.intfs)
  }

  function ShutdownEach(w: Wiring, s: State, intfs: seq<nat>): (r: State)
    ensures r.dest.Keys <= s.dest.Keys && s.count.Keys <= r.count.Keys
    decreases s.dest.Keys, 1, |intfs|
  {
    if intfs == [] then s else ShutdownEach(w, Shutdown(w, s, intfs[0]), intfs[1..])
  }

  /** intf_restart(): the interface receives operations again once it is shut down. */
  function Restart(w: Wiring, s: State, i: nat): (r: State)
    ensures r.dest.Keys <= s.dest.Keys && s.count.Keys <= r.count.Keys
    decreases s.dest.Keys, 1, 0
  {
    var r := Shutdown(w, s, i);
    r.(nulled := r.nulled - {i})
  }
}
