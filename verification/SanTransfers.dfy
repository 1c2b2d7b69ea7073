/** What the events of a SAN device do to the data of an outstanding read (src/core/sanboot.c). */
module SanTransfers {
  import opened Units
  import opened SanPaths
  import opened Wrappers

  const ETIMEDOUT := 110

  /** A read of whole blocks into the buffer at an offset. */
  datatype Request = Request(lba: nat, count: nat, at: nat)

  /** The outstanding command, the status of the last one, and the caller's buffer. */
  datatype Transfer = Transfer(request: Option<Request>, rc: int, buffer: seq<Byte>)

  /** The device: its block size and its contents. */
  datatype Medium = Medium(blksize: nat, content: nat -> Byte) {
    function Bytes(start: nat, len: nat): (r: seq<Byte>)
      ensures |r| == len
    {
      seq<Byte>(len, i requires 0 <= i => content(start + i))
    }
  }

  predicate Fits(m: Medium, r: Request, buffer: seq<Byte>) {
    r.at + r.count * m.blksize <= |buffer|
  }

  function Overwrite(buffer: seq<Byte>, at: nat, data: seq<Byte>): (b: seq<Byte>)
    requires at + |data| <= |buffer|
    ensures |b| == |buffer|
  {
    buffer[..at] + data + buffer[at + |data|..]
  }

  /** The data of the request is in the buffer. */
  ghost predicate Filled(m: Medium, r: Request, buffer: seq<Byte>) {
    Fits(m, r, buffer) && buffer[r.at..r.at + r.count * m.blksize] == m.Bytes(r.lba * m.blksize, r.count * m.blksize)
  }

  /** Data may arrive at any time, but a command succeeds only when all of it has. */
  function Deliver(m: Medium, t: Transfer, s: Paths, e: Event): Transfer
    requires t.request.Some? ==> Fits(m, t.request.value, t.buffer)
  {
    match e
    case Partial(data) =>
      if t.request.Some? && |data| == t.request.value.count * m.blksize
      then t.(buffer := Overwrite(t.buffer, t.request.value.at, data)) else t
    case CommandDone(rc) =>
      if t.request.None? then t
      else if rc != 0 then Transfer(None, rc, t.buffer)
      else
        var r := t.request.value;
        Transfer(None, 0, Overwrite(t.buffer, r.at, m.Bytes(r.lba * m.blksize, r.count * m.blksize)))
    case Expired => if t.request.Some? then Transfer(None, -ETIMEDOUT, t.buffer) else t
    case BlockClosed(p, rc) =>
      if p in s.open && s.active == Some(p) then Transfer(None, if rc == 0 then -ENOTCONN else rc, t.buffer) else t
    case Ready(_) => t
  }

  /** The command is still outstanding, or it is over and, if it succeeded, its data has arrived. */
  ghost predicate Honest(m: Medium, t: Transfer, r: Request) {
    && Fits(m, r, t.buffer)
    && (t.request.Some? ==> t.request == Some(r))
    && (t.request.None? && t.rc == 0 ==> Filled(m, r, t.buffer))
  }

  /** Nothing outside the request's part of the buffer is touched. */
  ghost predicate Untouched(m: Medium, r: Request, before: seq<Byte>, after: seq<Byte>) {
    && Fits(m, r, before) && |before| == |after| && before[..r.at] == after[..r.at]
    && before[r.at + r.count * m.blksize..] == after[r.at + r.count * m.blksize..]
  }

  lemma DeliverHonest(m: Medium, t: Transfer, s: Paths, e: Event, r: Request)
    requires Honest(m, t, r)
    ensures Honest(m, Deliver(m, t, s, e), r) && Untouched(m, r, t.buffer, Deliver(m, t, s, e).buffer)
  {
    hide Overwrite, Untouched, Filled, Fits;
    HonestFits(m, t, r);
    UntouchedSelf(m, t, r);
    if t.request.Some? {
      match e
      case Partial(data) =>
        if |data| == r.count * m.blksize { RequestWritten(m, r, t.buffer, data); }
      case CommandDone(rc) => RequestWritten(m, r, t.buffer, m.Bytes(r.lba * m.blksize, r.count * m.blksize));
      case _ =>
    }
  }

  lemma RequestWritten(m: Medium, r: Request, buffer: seq<Byte>, data: seq<Byte>)
    requires Fits(m, r, buffer) && |data| == r.count * m.blksize
    ensures r.at + |data| <= |buffer| && Untouched(m, r, buffer, Overwrite(buffer, r.at, data))
    ensures Fits(m, r, Overwrite(buffer, r.at, data))
    ensures data == m.Bytes(r.lba * m.blksize, r.count * m.blksize) ==> Filled(m, r, Overwrite(buffer, r.at, data))
  {
    OverwriteParts(buffer, r.at, data);
  }

  lemma OverwriteParts(buffer: seq<Byte>, at: nat, data: seq<Byte>)
    requires at + |data| <= |buffer|
    ensures var b := Overwrite(buffer, at, data);
            b[..at] == buffer[..at] && b[at..at + |data|] == data && b[at + |data|..] == buffer[at + |data|..]
  {}

  lemma UntouchedTrans(m: Medium, r: Request, a: seq<Byte>, b: seq<Byte>, c: seq<Byte>)
    requires Untouched(m, r, a, b) && Untouched(m, r, b, c)
    ensures Untouched(m, r, a, c)
  {}

  /** All the events of one step. */
  function DeliverAll(m: Medium, t: Transfer, s: Paths, events: seq<Event>): Transfer
    requires t.request.Some? ==> Fits(m, t.request.value, t.buffer)
    decreases events
  {
    if events == [] then t
    else
      DeliverFits(m, t, s, events[0]);
      DeliverAll(m, Deliver(m, t, s, events[0]), Handle(s, events[0]), events[1..])
  }

  lemma DeliverFits(m: Medium, t: Transfer, s: Paths, e: Event)
    requires t.request.Some? ==> Fits(m, t.request.value, t.buffer)
    ensures var u := Deliver(m, t, s, e);
            && (u.request.Some? ==> u.request == t.request && Fits(m, u.request.value, u.buffer))
            && |u.buffer| == |t.buffer| && (t.request.None? ==> u.buffer == t.buffer)
  {}

  lemma {:induction false} DeliverAllHonest(m: Medium, t: Transfer, s: Paths, events: seq<Event>, r: Request)
    requires Honest(m, t, r)
    ensures Honest(m, DeliverAll(m, t, s, events), r) && Untouched(m, r, t.buffer, DeliverAll(m, t, s, events).buffer)
    decreases events
  {
    hide Deliver, Honest, Untouched, Fits;
    HonestFits(m, t, r);
    if events == [] {
      UntouchedSelf(m, t, r);
    } else {
      DeliverFits(m, t, s, events[0]);
      DeliverHonest(m, t, s, events[0], r);
      var u := Deliver(m, t, s, events[0]);
      DeliverAllHonest(m, u, Handle(s, events[0]), events[1..], r);
      UntouchedTrans(m, r, t.buffer, u.buffer, DeliverAll(m, t, s, events).buffer);
    }
  }

  lemma HonestFits(m: Medium, t: Transfer, r: Request)
    requires Honest(m, t, r)
    ensures t.request.Some? ==> Fits(m, t.request.value, t.buffer)
  {}

  lemma UntouchedSelf(m: Medium, t: Transfer, r: Request)
    requires Honest(m, t, r)
    ensures Untouched(m, r, t.buffer, t.buffer)
  {}

  // ----- Waiting for a command

  datatype Ending = Ending(over: bool, transfer: Transfer, paths: Paths, script: seq<seq<Event>>)

  lemma {:induction false} DeliverAllFits(m: Medium, t: Transfer, s: Paths, events: seq<Event>)
    requires t.request.Some? ==> Fits(m, t.request.value, t.buffer)
    ensures var u := DeliverAll(m, t, s, events); u.request.Some? ==> Fits(m, u.request.value, u.buffer)
    decreases events
  {
    hide Deliver;
    if events != [] {
      DeliverFits(m, t, s, events[0]);
      DeliverAllFits(m, Deliver(m, t, s, events[0]), Handle(s, events[0]), events[1..]);
    }
  }

  /** The wait in sandev_command(), with one entry of the script for each call of step(). */
  function WaitForEnd(m: Medium, t: Transfer, s: Paths, script: seq<seq<Event>>): Ending
    requires t.request.Some? ==> Fits(m, t.request.value, t.buffer)
    decreases script
  {
    if t.request.None? then Ending(true, t, s, script)
    else if script == [] then Ending(false, t, s, [])
    else
      DeliverAllFits(m, t, s, script[0]);
      WaitForEnd(m, DeliverAll(m, t, s, script[0]), HandleAll(s, script[0]), script[1..])
  }

  // ----- Which events end a command, and with what status

  /** The event ends a command on the active path `a`. */
  ghost predicate Ends(a: nat, e: Event) {
    e.CommandDone? || e.Expired? || (e.BlockClosed? && e.path == a)
  }

  ghost function EndStatus(e: Event): int {
    match e
    case CommandDone(rc) => rc
    case BlockClosed(_, rc) => if rc == 0 then -ENOTCONN else rc
    case _ => -ETIMEDOUT
  }

  /** Event number `k` is the first that ends the command. */
  ghost predicate FirstEnd(a: nat, events: seq<Event>, k: nat) {
    k < |events| && Ends(a, events[k]) && forall i :: 0 <= i < k ==> !Ends(a, events[i])
  }

  /** Event number `j` is the loss of the path that is then active. */
  ghost predicate Loss(s: Paths, events: seq<Event>, j: nat) {
    j < |events| && events[j].BlockClosed? && HandleAll(s, events[..j]).active == Some(events[j].path)
  }

  /** Of `n` events, number `j` is the first that ends the command or a later loss, and no loss comes after. */
  ghost predicate Decides(s: Paths, a: nat, events: seq<Event>, j: nat, n: nat) {
    && j < n <= |events| && (exists k: nat :: k <= j && FirstEnd(a, events, k) && (j == k || Loss(s, events, j)))
    && forall i :: j < i < n ==> !Loss(s, events, i)
  }

  /** What the first `n` events have done to a command. */
  ghost predicate Effect(t: Transfer, s: Paths, a: nat, events: seq<Event>, n: nat, u: Transfer, v: Paths)
    requires n <= |events|
  {
    if forall i :: 0 <= i < n ==> !Ends(a, events[i]) then u.request == t.request && u.rc == t.rc && v.active == Some(a)
    else u.request.None? && exists j: nat :: Decides(s, a, events, j, n) && u.rc == EndStatus(events[j])
  }

  lemma {:induction false} DeliverAppend(m: Medium, t: Transfer, s: Paths, a: seq<Event>, b: seq<Event>)
    requires t.request.Some? ==> Fits(m, t.request.value, t.buffer)
    ensures var u := DeliverAll(m, t, s, a);
            && (u.request.Some? ==> Fits(m, u.request.value, u.buffer))
            && DeliverAll(m, t, s, a + b) == DeliverAll(m, u, HandleAll(s, a), b)
    decreases a
  {
    hide Deliver, Handle, Fits;
    DeliverAllFits(m, t, s, a);
    if a == [] {
      assert a + b == b;
    } else {
      assert (a + b)[0] == a[0] && (a + b)[1..] == a[1..] + b;
      DeliverFits(m, t, s, a[0]);
      DeliverAppend(m, Deliver(m, t, s, a[0]), Handle(s, a[0]), a[1..], b);
    }
  }

  lemma DeliverNext(m: Medium, t: Transfer, s: Paths, events: seq<Event>, k: nat)
    requires t.request.Some? ==> Fits(m, t.request.value, t.buffer)
    requires k < |events|
    ensures var u := DeliverAll(m, t, s, events[..k]);
            && (u.request.Some? ==> Fits(m, u.request.value, u.buffer))
            && DeliverAll(m, t, s, events[..k + 1]) == Deliver(m, u, HandleAll(s, events[..k]), events[k])
  {
    hide Deliver, Handle, Fits;
    DeliverAppend(m, t, s, events[..k], [events[k]]);
    assert events[..k + 1] == events[..k] + [events[k]];
    var u := DeliverAll(m, t, s, events[..k]);
    DeliverFits(m, u, HandleAll(s, events[..k]), events[k]);
    assert [events[k]][1..] == [];
  }

  /** One event, while the command is outstanding and after it has ended. */
  lemma OneEvent(m: Medium, u: Transfer, v: Paths, e: Event, a: nat, paths: nat)
    requires Sound(v, paths) && (u.request.Some? ==> Fits(m, u.request.value, u.buffer))
    ensures var r := Deliver(m, u, v, e);
            if u.request.Some? && v.active == Some(a) then
              if Ends(a, e) then r.request.None? && r.rc == EndStatus(e)
              else r.request == u.request && r.rc == u.rc && Handle(v, e).active == Some(a)
            else if u.request.None? then
              r.request.None? && r.rc == if e.BlockClosed? && v.active == Some(e.path) then EndStatus(e) else u.rc
            else true
  {
    hide Sound, Fits;
    ActiveOpen(v, paths);
  }

  lemma DecidesFirst(s: Paths, a: nat, events: seq<Event>, n: nat)
    requires n < |events| && Ends(a, events[n]) && forall i :: 0 <= i < n ==> !Ends(a, events[i])
    ensures Decides(s, a, events, n, n + 1)
  {
    hide HandleAll, Loss, Ends;
    assert FirstEnd(a, events, n);
  }

  lemma DecidesNext(s: Paths, a: nat, events: seq<Event>, j: nat, n: nat)
    requires n < |events| && Decides(s, a, events, j, n)
    ensures Decides(s, a, events, if Loss(s, events, n) then n else j, n + 1)
  {
    hide HandleAll, Loss, FirstEnd;
  }

  lemma EffectNext(m: Medium, t: Transfer, s: Paths, a: nat, events: seq<Event>, n: nat, u: Transfer, v: Paths,
                   paths: nat)
    requires n < |events| && t.request.Some? && Sound(v, paths) && v == HandleAll(s, events[..n])
    requires (u.request.Some? ==> Fits(m, u.request.value, u.buffer)) && Effect(t, s, a, events, n, u, v)
    ensures Effect(t, s, a, events, n + 1, Deliver(m, u, v, events[n]), Handle(v, events[n]))
  {
    hide Sound, Fits, HandleAll, Deliver, Handle, Loss, FirstEnd, Ends, EndStatus;
    OneEvent(m, u, v, events[n], a, paths);
    if forall i :: 0 <= i < n ==> !Ends(a, events[i]) {
      if Ends(a, events[n]) {
        DecidesFirst(s, a, events, n);
      }
    } else {
      var j: nat :| Decides(s, a, events, j, n) && u.rc == EndStatus(events[j]);
      DecidesNext(s, a, events, j, n);
      LossIs(s, events, n);
    }
  }

  lemma LossIs(s: Paths, events: seq<Event>, n: nat)
    requires n < |events|
    ensures Loss(s, events, n) <==>
      events[n].BlockClosed? && HandleAll(s, events[..n]).active == Some(events[n].path)
  {
    hide HandleAll;
  }

  lemma ActiveOpen(s: Paths, n: nat)
    requires Sound(s, n)
    ensures s.active.Some? ==> s.active.value in s.open
  {}

  /**
   * A command on path `a` is over exactly if the events include its completion, its timeout or the loss of that path.
   * Its status is that of the first of these, or of the last loss of an active path after it.
   */
  lemma {:induction false} CommandEnds(m: Medium, t: Transfer, s: Paths, paths: nat, a: nat, events: seq<Event>,
                                       n: nat)
    requires t.request.Some? && Fits(m, t.request.value, t.buffer) && Sound(s, paths) && s.active == Some(a)
    requires n <= |events|
    ensures Effect(t, s, a, events, n, DeliverAll(m, t, s, events[..n]), HandleAll(s, events[..n]))
    decreases n
  {
    hide Deliver, Handle, Fits, Sound, Effect;
    if n == 0 {
      assert events[..0] == [];
      EffectNone(t, s, a, events);
    } else {
      CommandEnds(m, t, s, paths, a, events, n - 1);
      HandleAllSound(s, paths, events[..n - 1]);
      DeliverNext(m, t, s, events, n - 1);
      HandleNext(s, events, n - 1);
      EffectNext(m, t, s, a, events, n - 1, DeliverAll(m, t, s, events[..n - 1]), HandleAll(s, events[..n - 1]), paths);
    }
  }

  lemma EffectNone(t: Transfer, s: Paths, a: nat, events: seq<Event>)
    requires s.active == Some(a)
    ensures Effect(t, s, a, events, 0, t, s)
  {}

  /** The wait handles exactly the events of the steps that it takes; none is left when the script has ended. */
  lemma {:induction false} EndUsed(m: Medium, t: Transfer, s: Paths, script: seq<seq<Event>>)
    requires t.request.Some? ==> Fits(m, t.request.value, t.buffer)
    ensures var w := WaitForEnd(m, t, s, script);
            && |w.script| <= |script| && (w.over <==> w.transfer.request.None?) && (!w.over ==> w.script == [])
            && w.transfer == DeliverAll(m, t, s, Flat(Used(script, w.script)))
            && w.paths == HandleAll(s, Flat(Used(script, w.script)))
    decreases script
  {
    hide DeliverAll, HandleAll, Fits;
    var w := WaitForEnd(m, t, s, script);
    if t.request.None? || script == [] {
      assert Used(script, script) == [];
      DeliverNone(m, t, s);
    } else {
      DeliverAllFits(m, t, s, script[0]);
      var u, v, rest := DeliverAll(m, t, s, script[0]), HandleAll(s, script[0]), script[1..];
      EndUsed(m, u, v, rest);
      var used := Used(script, w.script);
      assert used[0] == script[0] && used[1..] == Used(rest, w.script);
      HandleAppend(s, script[0], Flat(Used(rest, w.script)));
      DeliverAppend(m, t, s, script[0], Flat(Used(rest, w.script)));
    }
  }

  /** The wait goes on after each step but the last, because the command is still outstanding. */
  lemma {:induction false} EndGoesOn(m: Medium, t: Transfer, s: Paths, script: seq<seq<Event>>, k: nat)
    requires t.request.Some? ==> Fits(m, t.request.value, t.buffer)
    requires k + |WaitForEnd(m, t, s, script).script| < |script|
    ensures DeliverAll(m, t, s, Flat(script[..k])).request.Some?
    decreases script
  {
    hide DeliverAll, HandleAll, Fits;
    DeliverAllFits(m, t, s, script[0]);
    var u, v, rest := DeliverAll(m, t, s, script[0]), HandleAll(s, script[0]), script[1..];
    if k == 0 {
      assert script[..0] == [];
      DeliverNone(m, t, s);
    } else {
      assert script[..k][0] == script[0] && script[..k][1..] == rest[..k - 1];
      DeliverAppend(m, t, s, script[0], Flat(rest[..k - 1]));
      EndGoesOn(m, u, v, rest, k - 1);
    }
  }

  lemma DeliverNone(m: Medium, t: Transfer, s: Paths)
    requires t.request.Some? ==> Fits(m, t.request.value, t.buffer)
    ensures DeliverAll(m, t, s, []) == t && HandleAll(s, []) == s
  {}

  /** How a command ends, over the events of the steps that the wait for it takes. */
  ghost predicate EndsAs(s: Paths, a: nat, events: seq<Event>, over: bool, rc: int) {
    && (over <==> exists e :: e in events && Ends(a, e))
    && (over ==> exists j: nat :: Decides(s, a, events, j, |events|) && rc == EndStatus(events[j]))
  }

  lemma NotOver(s: Paths, a: nat, events: seq<Event>, rc: int)
    requires EndsAs(s, a, events, false, rc)
    ensures EndsAs(s, a, events, false, 0)
  {}

  lemma CommandEndsAs(m: Medium, t: Transfer, s: Paths, paths: nat, a: nat, script: seq<seq<Event>>)
    requires t.request.Some? && Fits(m, t.request.value, t.buffer) && Sound(s, paths) && s.active == Some(a)
    ensures var w := WaitForEnd(m, t, s, script);
            |w.script| <= |script| && EndsAs(s, a, Flat(Used(script, w.script)), w.over, w.transfer.rc)
  {
    hide Fits, Sound, DeliverAll, HandleAll, WaitForEnd, Flat, Decides, EndStatus;
    EndUsed(m, t, s, script);
    var events := Flat(Used(script, WaitForEnd(m, t, s, script).script));
    CommandEnds(m, t, s, paths, a, events, |events|);
    assert events[..|events|] == events;
    if i :| 0 <= i < |events| && Ends(a, events[i]) {
      assert events[i] in events;
    }
  }

  /** And no event of a step before the last that the wait takes ends the command. */
  lemma EndsInLastStep(m: Medium, t: Transfer, s: Paths, paths: nat, a: nat, script: seq<seq<Event>>, k: nat)
    requires t.request.Some? && Fits(m, t.request.value, t.buffer) && Sound(s, paths) && s.active == Some(a)
    requires k + |WaitForEnd(m, t, s, script).script| < |script|
    ensures forall e :: e in Flat(script[..k]) ==> !Ends(a, e)
  {
    hide Fits, Sound, DeliverAll, HandleAll, WaitForEnd, Flat, Decides, Ends;
    var events := Flat(script[..k]);
    EndGoesOn(m, t, s, script, k);
    CommandEnds(m, t, s, paths, a, events, |events|);
    assert events[..|events|] == events;
  }

  /** Without a loss of a path after it, the first event that ends the command gives the status. */
  lemma FirstDecides(s: Paths, a: nat, events: seq<Event>, k: nat, j: nat)
    requires FirstEnd(a, events, k) && Decides(s, a, events, j, |events|)
    requires forall i :: k < i < |events| ==> !events[i].BlockClosed?
    ensures j == k
  {
    var k': nat :| k' <= j && FirstEnd(a, events, k') && (j == k' || Loss(s, events, j));
    assert k' == k;
  }
}
