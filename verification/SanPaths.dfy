/** The paths of a SAN device (src/core/sanboot.c) as a state machine over the events that reach them. */
module SanPaths {
  import opened Units
  import opened ListOps
  import opened Wrappers

  /** Error numbers; only that they are not zero matters. */
  const ENODEV := 19
  const ENOTCONN := 107
  const EINPROGRESS := 115

  /**
   * What a caller that waits for the device sees: the script of events may end before the wait does, and a command may
   * be issued without an active path.
   */
  datatype Outcome = Waiting | Done(rc: int) | NoPath

  /** What can happen while the scheduler runs: only open paths and outstanding commands receive anything. */
  datatype Event =
    | BlockClosed(path: nat, rc: int)
    | Ready(path: nat)
    | Partial(data: seq<Byte>)
    | CommandDone(rc: int)
    | Expired

  datatype Paths = Paths(open: seq<nat>, closed: seq<nat>, active: Option<nat>, status: map<nat, int>)

  /** Every path is in exactly one of the two lists, and only an open path is active. */
  ghost predicate Sound(s: Paths, n: nat) {
    && (forall p: nat :: Copies(s, p) == if p < n then 1 else 0)
    && (s.active.Some? ==> s.active.value in s.open)
    && (forall p: nat :: p < n <==> p in s.status)
  }

  ghost function Copies(s: Paths, p: nat): nat {
    multiset(s.open)[p] + multiset(s.closed)[p]
  }

  /** sanpath_close() */
  function Close(s: Paths, p: nat, rc: int): Paths {
    Paths(Without(s.open, p), s.closed + [p], if s.active == Some(p) then None else s.active, s.status[p := rc])
  }

  /** sanpath_step() of a path whose window is open: it becomes active, or is closed as not needed. */
  function Available(s: Paths, p: nat): Paths {
    if s.active == Some(p) then s
    else if s.active.None? then s.(active := Some(p), status := s.status[p := 0])
    else Close(s, p, 0)
  }

  function Handle(s: Paths, e: Event): Paths {
    match e
    case BlockClosed(p, rc) => if p in s.open then Close(s, p, if rc == 0 then -ENOTCONN else rc) else s
    case Ready(p) => if p in s.open then Available(s, p) else s
    case _ => s
  }

  function HandleAll(s: Paths, events: seq<Event>): Paths
    decreases events
  {
    if events == [] then s else HandleAll(Handle(s, events[0]), events[1..])
  }

  /** sanpath_open() of a path whose URI could be opened. */
  function Open(s: Paths, p: nat): Paths {
    Paths(s.open + [p], Without(s.closed, p), s.active, s.status[p := -EINPROGRESS])
  }

  /** What an event does to the paths: it closes an open one, makes one active, or concerns none. */
  ghost predicate Received(e: Event, s: Paths, r: Paths) {
    if (e.BlockClosed? || e.Ready?) && e.path in s.open then
      var p := e.path;
      if e.BlockClosed? then
        Moved(p, s, r) && r.active == (if s.active == Some(p) then None else s.active)
        && r.status == s.status[p := if e.rc == 0 then -107 else e.rc]
      else if s.active == Some(p) then r == s
      else if s.active == None then r == s.(active := Some(p), status := s.status[p := 0])
      else Moved(p, s, r) && r.active == s.active && r.status == s.status[p := 0]
    else r == s
  }

  /** A path has gone from the open ones to the end of the closed ones. */
  ghost predicate Moved(p: nat, s: Paths, r: Paths) {
    r.closed == s.closed + [p]
    && exists k :: 0 <= k < |s.open| && s.open[k] == p && r.open == s.open[..k] + s.open[k + 1..]
  }

  lemma HandleReceived(s: Paths, e: Event)
    ensures Received(e, s, Handle(s, e))
  {
    hide Without;
    if (e.BlockClosed? || e.Ready?) && e.path in s.open {
      var k := WithoutIs(s.open, e.path);
    }
  }

  // ----- Soundness

  lemma Known(s: Paths, n: nat, p: nat)
    requires Sound(s, n) && (p in s.open || p in s.closed)
    ensures p < n && p in s.status
  {
    assert Copies(s, p) == if p < n then 1 else 0;
    assert p in multiset(s.open) || p in multiset(s.closed);
  }

  lemma CloseSound(s: Paths, n: nat, p: nat, rc: int)
    requires Sound(s, n) && p in s.open
    ensures Sound(Close(s, p, rc), n) && |Close(s, p, rc).open| == |s.open| - 1
  {
    Known(s, n, p);
    WithoutMultiset(s.open, p);
    var r := Close(s, p, rc);
    assert multiset(s.closed + [p]) == multiset(s.closed) + multiset{p};
    forall q: nat
      ensures Copies(r, q) == if q < n then 1 else 0
    {
      assert Copies(s, q) == if q < n then 1 else 0;
    }
    if r.active.Some? {
      assert r.active.value in multiset(s.open);
      assert r.active.value in multiset(r.open);
    }
  }

  lemma OpenSound(s: Paths, n: nat, p: nat)
    requires Sound(s, n) && p in s.closed
    ensures Sound(Open(s, p), n) && |Open(s, p).closed| == |s.closed| - 1
  {
    Known(s, n, p);
    WithoutMultiset(s.closed, p);
    var r := Open(s, p);
    assert multiset(s.open + [p]) == multiset(s.open) + multiset{p};
    forall q: nat
      ensures Copies(r, q) == if q < n then 1 else 0
    {
      assert Copies(s, q) == if q < n then 1 else 0;
    }
  }

  lemma HandleSound(s: Paths, n: nat, e: Event)
    requires Sound(s, n)
    ensures Sound(Handle(s, e), n)
  {
    hide Close, Copies;
    match e
    case BlockClosed(p, rc) =>
      if p in s.open { CloseSound(s, n, p, if rc == 0 then -ENOTCONN else rc); }
    case Ready(p) =>
      if p in s.open {
        if s.active.None? {
          ActivateSound(s, n, p);
        } else if s.active != Some(p) {
          CloseSound(s, n, p, 0);
        }
      }
    case _ =>
  }

  lemma ActivateSound(s: Paths, n: nat, p: nat)
    requires Sound(s, n) && p in s.open && s.active.None?
    ensures Sound(s.(active := Some(p), status := s.status[p := 0]), n)
  {
    Known(s, n, p);
    var r := s.(active := Some(p), status := s.status[p := 0]);
    forall q: nat
      ensures Copies(r, q) == if q < n then 1 else 0
    {
      assert Copies(s, q) == if q < n then 1 else 0;
    }
  }

  /** In every state that any events lead to, each path is in exactly one list and the active path is open. */
  lemma {:induction false} HandleAllSound(s: Paths, n: nat, events: seq<Event>)
    requires Sound(s, n)
    ensures Sound(HandleAll(s, events), n)
    decreases events
  {
    hide Sound, Handle;
    if events != [] {
      HandleSound(s, n, events[0]);
      HandleAllSound(Handle(s, events[0]), n, events[1..]);
    }
  }

  // ----- Waiting for a path

  datatype Wait = Wait(result: Outcome, paths: Paths, script: seq<seq<Event>>)

  /** The status that is reported when no path is left: that of the first to be closed. */
  function FirstStatus(s: Paths): int {
    if s.closed != [] && s.closed[0] in s.status then s.status[s.closed[0]] else -ENODEV
  }

  /** The wait in sandev_reopen(), with one entry of the script for each call of step(). */
  function WaitFor(s: Paths, script: seq<seq<Event>>): Wait
    decreases script
  {
    if s.active.Some? then Wait(Done(0), s, script)
    else if script == [] then Wait(Waiting, s, [])
    else
      var t := HandleAll(s, script[0]);
      if t.open == [] then Wait(Done(FirstStatus(t)), t, script[1..]) else WaitFor(t, script[1..])
  }

  /** When the wait is over, some open path is active or every path is closed. */
  lemma {:induction false} WaitSound(s: Paths, n: nat, script: seq<seq<Event>>)
    requires Sound(s, n)
    ensures var w := WaitFor(s, script);
            && Sound(w.paths, n) && |w.script| <= |script|
            && (w.result.Done? ==> w.paths.active.Some? || w.paths.open == [])
            && (w.result.Done? && w.paths.active.Some? ==> w.result.rc == 0)
            && (w.result.Done? && w.paths.active.None? ==> w.result.rc == FirstStatus(w.paths))
    decreases script
  {
    hide Handle, HandleAll;
    if s.active.None? && script != [] {
      var t := HandleAll(s, script[0]);
      HandleAllSound(s, n, script[0]);
      if t.open != [] {
        WaitSound(t, n, script[1..]);
      }
    }
  }

  // ----- The status that is reported

  /** Every event of these steps, in order. */
  ghost function Flat(steps: seq<seq<Event>>): seq<Event> {
    if steps == [] then [] else steps[0] + Flat(steps[1..])
  }

  /** The steps of a script that have been taken when `rest` of it is left. */
  ghost function Used(script: seq<seq<Event>>, rest: seq<seq<Event>>): seq<seq<Event>>
    requires |rest| <= |script|
  {
    script[..|script| - |rest|]
  }

  /** One of `n` paths becomes available. */
  ghost predicate Wins(n: nat, e: Event) {
    e.Ready? && e.path < n
  }

  /** One of `n` paths is lost. */
  ghost predicate Fails(n: nat, e: Event) {
    e.BlockClosed? && e.path < n
  }

  /** Events `i` and `j` are the availability of two different paths, and no path is lost before the second. */
  ghost predicate RaceAt(n: nat, events: seq<Event>, i: nat, j: nat) {
    && i < j < |events| && Wins(n, events[i]) && Wins(n, events[j]) && events[i].path != events[j].path
    && forall k :: 0 <= k < j ==> !Fails(n, events[k])
  }

  /** Two different paths become available before any is lost. */
  ghost predicate LosesRace(n: nat, events: seq<Event>) {
    exists i: nat, j: nat :: RaceAt(n, events, i, j)
  }

  lemma HandleCloses(s: Paths, n: nat, e: Event)
    requires Sound(s, n)
    ensures var t := Handle(s, e);
            && s.closed <= t.closed
            && (forall c :: c in s.closed ==> c in s.status && c in t.status && t.status[c] == s.status[c])
            && (|t.closed| == |s.closed| || |t.closed| == |s.closed| + 1)
            && (|t.closed| > |s.closed| ==> t.closed[|s.closed|] in t.status)
            && (|t.closed| > |s.closed| ==> (t.status[t.closed[|s.closed|]] == 0 <==> e.Ready?))
            && (|t.closed| > |s.closed| && e.Ready? ==> s.active.Some?)
  {
    forall c | c in s.closed
      ensures c in s.status && c !in s.open
    {
      assert Copies(s, c) == if c < n then 1 else 0;
    }
  }

  lemma {:induction false} ClosedStay(s: Paths, n: nat, events: seq<Event>)
    requires Sound(s, n) && s.closed != []
    ensures var t := HandleAll(s, events);
            t.closed != [] && t.closed[0] == s.closed[0] && FirstStatus(t) == FirstStatus(s)
    decreases events
  {
    hide Handle, Sound;
    if events != [] {
      HandleCloses(s, n, events[0]);
      HandleSound(s, n, events[0]);
      InStatus(s, n);
      ClosedStay(Handle(s, events[0]), n, events[1..]);
    }
  }

  lemma InStatus(s: Paths, n: nat)
    requires Sound(s, n) && s.closed != []
    ensures s.closed[0] in s.status
  {
    assert Copies(s, s.closed[0]) == if s.closed[0] < n then 1 else 0;
  }

  lemma {:induction false} HandleAppend(s: Paths, a: seq<Event>, b: seq<Event>)
    ensures HandleAll(s, a + b) == HandleAll(HandleAll(s, a), b)
    decreases a
  {
    hide Handle;
    if a == [] {
      assert a + b == b;
    } else {
      assert (a + b)[0] == a[0] && (a + b)[1..] == a[1..] + b;
      HandleAppend(Handle(s, a[0]), a[1..], b);
    }
  }

  lemma HandleNext(s: Paths, events: seq<Event>, k: nat)
    requires k < |events|
    ensures HandleAll(s, events[..k + 1]) == Handle(HandleAll(s, events[..k]), events[k])
  {
    hide Handle;
    HandleAppend(s, events[..k], [events[k]]);
    assert events[..k + 1] == events[..k] + [events[k]];
    assert HandleAll(HandleAll(s, events[..k]), [events[k]]) == Handle(HandleAll(s, events[..k]), events[k]);
  }

  /** Of the first `k` events none is the loss of a path, and those that make one available agree on it. */
  ghost predicate Undecided(n: nat, events: seq<Event>, k: nat) {
    && k <= |events| && (forall j :: 0 <= j < k ==> !Fails(n, events[j]))
    && (forall i, j :: 0 <= i < k && 0 <= j < k && Wins(n, events[i]) && Wins(n, events[j]) ==>
      events[i].path == events[j].path)
  }

  /** So far every path is open, and the one that became available, if any, is active. */
  ghost predicate Pending(s: Paths, n: nat, events: seq<Event>, k: nat)
    requires k <= |events|
  {
    && Sound(s, n) && s.closed == []
    && (s.active.None? ==> forall j :: 0 <= j < k ==> !Wins(n, events[j]))
    && (s.active.Some? ==> exists j :: 0 <= j < k && Wins(n, events[j]) && s.active.value == events[j].path)
  }

  lemma AllOpen(s: Paths, n: nat, p: nat)
    requires Sound(s, n) && s.closed == []
    ensures p in s.open <==> p < n
  {
    assert Copies(s, p) == if p < n then 1 else 0;
  }

  lemma PendingNext(s: Paths, n: nat, events: seq<Event>, k: nat)
    requires k < |events| && Undecided(n, events, k + 1) && Pending(s, n, events, k)
    ensures Pending(Handle(s, events[k]), n, events, k + 1)
  {
    hide Sound;
    var e := events[k];
    HandleSound(s, n, e);
    if e.Ready? || e.BlockClosed? {
      AllOpen(s, n, e.path);
    }
  }

  lemma {:induction false} StillPending(s: Paths, n: nat, events: seq<Event>, k: nat)
    requires Sound(s, n) && s.closed == [] && s.active.None? && Undecided(n, events, k)
    ensures Pending(HandleAll(s, events[..k]), n, events, k)
    decreases k
  {
    hide Handle, Sound;
    if k > 0 {
      StillPending(s, n, events, k - 1);
      HandleNext(s, events, k - 1);
      PendingNext(HandleAll(s, events[..k - 1]), n, events, k - 1);
    } else {
      assert events[..0] == [];
    }
  }

  /** The status of a path that is lost: never zero. */
  ghost function LossStatus(rc: int): int {
    if rc == 0 then -107 else rc
  }

  /** The event that decides: a loss closes its path with an error, and another path is closed as not needed. */
  lemma Decided(s: Paths, n: nat, events: seq<Event>, k: nat)
    requires k < |events| && Undecided(n, events, k) && !Undecided(n, events, k + 1) && Pending(s, n, events, k)
    ensures Handle(s, events[k]).closed != [] && Sound(Handle(s, events[k]), n)
    ensures FirstStatus(Handle(s, events[k])) == 0 <==> Wins(n, events[k])
    ensures Fails(n, events[k]) ==> FirstStatus(Handle(s, events[k])) == LossStatus(events[k].rc)
    ensures Wins(n, events[k]) <==> LosesRace(n, events)
  {
    hide Sound;
    var e := events[k];
    assert Wins(n, e) || Fails(n, e);
    AllOpen(s, n, e.path);
    HandleSound(s, n, e);
    HandleCloses(s, n, e);
    if Wins(n, e) {
      var i :| 0 <= i < k && Wins(n, events[i]) && events[i].path != e.path;
      assert RaceAt(n, events, i, k);
    }
  }

  lemma {:induction false} Decide(s: Paths, n: nat, events: seq<Event>, k: nat)
    requires Sound(s, n) && s.closed == [] && s.active.None? && Undecided(n, events, k)
    ensures FirstStatus(HandleAll(s, events)) == 0 <==> LosesRace(n, events)
    decreases |events| - k
  {
    hide Handle, Sound;
    StillPending(s, n, events, k);
    if k == |events| {
      assert events[..k] == events;
    } else if Undecided(n, events, k + 1) {
      Decide(s, n, events, k + 1);
    } else {
      var t := HandleAll(s, events[..k]);
      Decided(t, n, events, k);
      HandleNext(s, events, k);
      HandleAppend(s, events[..k + 1], events[k + 1..]);
      assert events == events[..k + 1] + events[k + 1..];
      ClosedStay(Handle(t, events[k]), n, events[k + 1..]);
    }
  }

  /** The first path to be closed reports zero if and only if two paths become available before any is lost. */
  lemma ZeroReported(s: Paths, n: nat, events: seq<Event>)
    requires Sound(s, n) && s.closed == [] && s.active.None?
    ensures FirstStatus(HandleAll(s, events)) == 0 <==> LosesRace(n, events)
  {
    Decide(s, n, events, 0);
  }

  /** If a path is lost before two become available, the status is that of its loss. */
  lemma LossReported(s: Paths, n: nat, events: seq<Event>, k: nat)
    requires Sound(s, n) && s.closed == [] && s.active.None?
    requires k < |events| && Undecided(n, events, k) && Fails(n, events[k])
    ensures FirstStatus(HandleAll(s, events)) == LossStatus(events[k].rc)
  {
    hide Handle, Sound;
    StillPending(s, n, events, k);
    var t := HandleAll(s, events[..k]);
    Decided(t, n, events, k);
    HandleNext(s, events, k);
    HandleAppend(s, events[..k + 1], events[k + 1..]);
    assert events == events[..k + 1] + events[k + 1..];
    ClosedStay(Handle(t, events[k]), n, events[k + 1..]);
  }

  /** The wait handles exactly the events of the steps that it takes. */
  lemma {:induction false} WaitUsed(s: Paths, script: seq<seq<Event>>)
    ensures var w := WaitFor(s, script);
            && |w.script| <= |script| && w.script == script[|script| - |w.script|..]
            && w.paths == HandleAll(s, Flat(Used(script, w.script)))
    decreases script
  {
    hide HandleAll;
    var w := WaitFor(s, script);
    if s.active.Some? || script == [] {
      assert script[0..] == script && Used(script, script) == [];
      HandleNone(s);
    } else {
      var t, rest := HandleAll(s, script[0]), script[1..];
      if t.open != [] {
        WaitUsed(t, rest);
      } else {
        assert Used(rest, rest) == [];
        HandleNone(t);
      }
      var used := Used(script, w.script);
      assert used[0] == script[0] && used[1..] == Used(rest, w.script);
      HandleAppend(s, script[0], Flat(Used(rest, w.script)));
    }
  }

  /** The wait goes on after each step but the last, because no path is active yet and some are open. */
  lemma {:induction false} WaitGoesOn(s: Paths, script: seq<seq<Event>>, k: nat)
    requires k + |WaitFor(s, script).script| < |script|
    ensures var t := HandleAll(s, Flat(script[..k])); t.active.None? && (k > 0 ==> t.open != [])
    decreases script
  {
    hide HandleAll;
    var t, rest := HandleAll(s, script[0]), script[1..];
    if k == 0 {
      assert script[..0] == [];
      HandleNone(s);
    } else {
      assert script[..k][0] == script[0] && script[..k][1..] == rest[..k - 1];
      HandleAppend(s, script[0], Flat(rest[..k - 1]));
      WaitGoesOn(t, rest, k - 1);
      if k == 1 {
        assert rest[..0] == [];
        HandleNone(t);
      }
    }
  }

  lemma HandleNone(s: Paths)
    ensures HandleAll(s, []) == s
  {}

  /**
   * A wait that ends without an active path reports success if and only if, in the steps that it took, two paths became
   * available before any was lost.
   */
  lemma ZeroWithoutPath(s: Paths, n: nat, script: seq<seq<Event>>)
    requires Sound(s, n) && s.closed == [] && s.active.None?
    ensures var w := WaitFor(s, script);
            && |w.script| <= |script|
            && (w.result.Done? && w.paths.active.None? ==>
                (w.result == Done(0) <==> LosesRace(n, Flat(Used(script, w.script)))))
            && (w.result.Done? && w.paths.active.None? ==> ReportsLoss(n, Flat(Used(script, w.script)), w.result.rc))
  {
    hide Sound, WaitFor, HandleAll, LosesRace, Undecided, LossStatus;
    WaitSound(s, n, script);
    WaitUsed(s, script);
    var events := Flat(Used(script, WaitFor(s, script).script));
    ZeroReported(s, n, events);
    forall k: nat | k < |events| && Undecided(n, events, k) && Fails(n, events[k])
      ensures FirstStatus(HandleAll(s, events)) == LossStatus(events[k].rc)
    {
      LossReported(s, n, events, k);
    }
  }

  /** The status is that of the first loss, if no two paths became available before it. */
  ghost predicate ReportsLoss(n: nat, events: seq<Event>, rc: int) {
    forall k: nat :: k < |events| && Undecided(n, events, k) && Fails(n, events[k]) ==> rc == LossStatus(events[k].rc)
  }

  /** Two paths become available in one step and the chosen one is lost again: success is reported without a path. */
  lemma LostRace()
    ensures var s := Paths([0, 1], [], None, map[0 := -EINPROGRESS, 1 := -EINPROGRESS]);
            var t := HandleAll(s, [Ready(0), Ready(1), BlockClosed(0, -5)]);
            t.open == [] && t.active.None? && FirstStatus(t) == 0
  {}

  /** If no step delivers more than one event, success is reported only with a path that is active. */
  lemma {:induction false} SteadyWait(s: Paths, n: nat, script: seq<seq<Event>>)
    requires Sound(s, n) && FirstStatus(s) != 0 && forall m :: m in script ==> |m| <= 1
    ensures WaitFor(s, script).result == Done(0) ==> WaitFor(s, script).paths.active.Some?
    decreases script
  {
    hide Handle, Sound;
    if s.active.None? && script != [] {
      var m := script[0];
      HandleAllSound(s, n, m);
      if m != [] {
        assert m[1..] == [] && HandleAll(s, m) == Handle(s, m[0]);
        HandleCloses(s, n, m[0]);
        if s.closed != [] {
          ClosedStay(s, n, m);
        }
      }
      SteadyWait(HandleAll(s, m), n, script[1..]);
    }
  }
}
