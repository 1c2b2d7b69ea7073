/** The SAN device of src/core/sanboot.c: opening paths, retrying commands and splitting reads into fragments. */
module SanBoot {
  import opened Units
  import opened ListOps
  import opened SanPaths
  import opened SanTransfers
  import opened Wrappers

  const ECONNRESET := 104
  /** The widths of a block address and of a block count. */
  const ADDRESS_BITS: nat := 64
  const COUNT_BITS: nat := 32
  const ISO9660_BLKSIZE := 2048
  const ISO9660_PRIMARY_LBA := 16
  /** Descriptor type 1 and identifier "CD001". */
  const PRIMARY: seq<Byte> := [1, 67, 68, 48, 48, 49]

  class Device {
    const paths: nat
    const medium: Medium
    const maxCount: nat
    const retryLimit: nat
    /** The results of opening a path's URI and of initiating a command, in the order in which these are tried. */
    const opening: nat -> int
    const initiating: nat -> int

    var open: seq<nat>
    var closed: seq<nat>
    var active: Option<nat>
    var status: map<nat, int>
    var openings: nat
    var starts: nat

    var request: Option<Request>
    var timer: bool
    var commandRc: int
    var buffer: seq<Byte>

    /** What each further call of step() delivers. */
    var script: seq<seq<Event>>

    var shift: nat
    var cdrom: bool

    /** The statuses with which commands have ended, and the delays after reopening failed. */
    ghost var ended: seq<int>
    ghost var delays: nat

    ghost function View(): Paths
      reads `open, `closed, `active, `status
    {
      Paths(open, closed, active, status)
    }

    ghost function Data(): Transfer
      reads `request, `commandRc, `buffer
    {
      Transfer(request, commandRc, buffer)
    }

    /** Between events: the paths are sound, and the timer runs exactly while a command is outstanding. */
    ghost predicate Valid()
      reads this
    {
      && Sound(View(), paths) && timer == request.Some?
      && (request.Some? ==> Fits(medium, request.value, buffer))
    }

    /** alloc_sandev() */
    constructor (paths: nat, medium: Medium, maxCount: nat, retryLimit: nat, opening: nat -> int,
                 initiating: nat -> int,
                 script: seq<seq<Event>>)
      ensures Valid() && open == [] && active.None? && shift == 0 && !cdrom && request.None?
      ensures closed == seq(paths, i => i) && forall p :: p in closed ==> p in status && status[p] == -EINPROGRESS
      ensures openings == starts == delays == 0 && ended == []
      ensures this.paths == paths && this.medium == medium && this.maxCount == maxCount && this.script == script
      ensures this.retryLimit == retryLimit && this.opening == opening && this.initiating == initiating
    {
      this.paths, this.medium, this.maxCount, this.retryLimit := paths, medium, maxCount, retryLimit;
      this.opening, this.initiating, this.script := opening, initiating, script;
      open, active, openings, starts := [], None, 0, 0;
      request, timer, commandRc, buffer, shift, cdrom := None, false, 0, [], 0, false;
      ended, delays := [], 0;
      var all: seq<nat> := seq(paths, i => i);
      closed := all;
      status := map p | p in all :: -EINPROGRESS;
      new;
      forall p: nat | p < paths
        ensures p in status
      {
        assert all[p] == p;
      }
      AllClosed(paths, View());
    }

    /** sandev_command_close() */
    method CommandClose(rc: int)
      modifies `timer, `request, `commandRc
      ensures Data() == Transfer(None, rc, old(buffer)) && !timer
    {
      timer := false;
      request := None;
      commandRc := rc;
    }

    /** sanpath_close() */
    method ClosePath(p: nat, rc: int)
      modifies `open, `closed, `active, `status, `timer, `request, `commandRc
      ensures View() == Close(old(View()), p, rc)
      ensures Data() == if old(active) == Some(p) then Transfer(None, rc, old(buffer)) else old(Data())
      ensures timer == (old(timer) && old(active) != Some(p))
    {
      status := status[p := rc];
      open := Without(open, p);
      closed := closed + [p];
      if active == Some(p) {
        active := None;
        CommandClose(rc);
      }
    }

    /** sanpath_step() of a path whose window is open. */
    method PathStep(p: nat)
      modifies `open, `closed, `active, `status, `timer, `request, `commandRc
      ensures View() == Available(old(View()), p) && Data() == old(Data()) && timer == old(timer)
    {
      if active == Some(p) {
        return;
      }
      status := status[p := 0];
      if active.None? {
        active := Some(p);
      } else {
        ClosePath(p, 0);
        assert old(status)[p := 0][p := 0] == old(status)[p := 0];
      }
    }

    method Receive(e: Event)
      requires Valid()
      modifies `open, `closed, `active, `status, `timer, `request, `commandRc, `buffer
      ensures Valid() && View() == Handle(old(View()), e) && Data() == Deliver(medium, old(Data()), old(View()), e)
      ensures Received(e, old(View()), View())
    {
      hide Sound, Close, Available, Received;
      HandleReceived(View(), e);
      HandleSound(View(), paths, e);
      DeliverFits(medium, Data(), View(), e);
      match e
      case BlockClosed(p, rc) =>
        if p in open {
          ClosePath(p, if rc == 0 then -ENOTCONN else rc);
        }
      case Ready(p) =>
        if p in open {
          PathStep(p);
        }
      case Partial(data) =>
        if request.Some? && |data| == request.value.count * medium.blksize {
          buffer := Overwrite(buffer, request.value.at, data);
        }
      case CommandDone(rc) =>
        if request.Some? {
          if rc == 0 {
            var r := request.value;
            buffer := Overwrite(buffer, r.at, medium.Bytes(r.lba * medium.blksize, r.count * medium.blksize));
          }
          CommandClose(rc);
        }
      case Expired =>
        if request.Some? {
          CommandClose(-ETIMEDOUT);
        }
    }

    /** step(): false if the script has ended. */
    method Step() returns (ran: bool)
      requires Valid()
      modifies `open, `closed, `active, `status, `timer, `request, `commandRc, `buffer, `script
      ensures Valid() && ran == (old(script) != [])
      ensures ran ==> script == old(script)[1..] && View() == HandleAll(old(View()), old(script)[0])
                      && Data() == DeliverAll(medium, old(Data()), old(View()), old(script)[0])
      ensures !ran ==> script == [] && View() == old(View()) && Data() == old(Data())
    {
      if script == [] {
        return false;
      }
      var events := script[0];
      script := script[1..];
      ReceiveAll(events);
      ran := true;
    }

    method ReceiveAll(events: seq<Event>)
      requires Valid()
      modifies `open, `closed, `active, `status, `timer, `request, `commandRc, `buffer
      ensures Valid() && View() == HandleAll(old(View()), events)
      ensures Data() == DeliverAll(medium, old(Data()), old(View()), events)
      decreases events
    {
      hide Sound, Handle, Deliver;
      if events != [] {
        Receive(events[0]);
        ReceiveAll(events[1..]);
      }
    }

    /** sandev_restart(): closes every path and any outstanding command. */
    method Restart(rc: int)
      requires Valid()
      modifies `open, `closed, `active, `status, `timer, `request, `commandRc
      ensures Valid() && open == [] && active.None? && Data() == Transfer(None, rc, old(buffer))
      ensures closed == old(closed) + old(open)
    {
      hide Copies;
      while open != []
        invariant Valid() && buffer == old(buffer) && closed + open == old(closed) + old(open)
        decreases |open|
      {
        CloseSound(View(), paths, open[0], rc);
        Associative(closed, [open[0]], open[1..]);
        ClosePath(open[0], rc);
      }
      active := None;
      CommandClose(rc);
    }

    /** sanpath_open() */
    method OpenPath(p: nat) returns (rc: int)
      requires Valid() && p in closed
      modifies `open, `closed, `status, `openings
      ensures Valid() && View() == if rc == 0 then Open(old(View()), p) else old(View())
      ensures rc == opening(old(openings)) && openings == old(openings) + 1
    {
      rc := opening(openings);
      openings := openings + 1;
      if rc != 0 {
        return;
      }
      OpenSound(View(), paths, p);
      closed := Without(closed, p);
      open := open + [p];
      status := status[p := -EINPROGRESS];
    }

    /** Opens every path, stopping at the first that cannot be opened. */
    method OpenAll() returns (rc: int)
      requires Valid() && active.None? && open == []
      modifies `open, `closed, `status, `openings
      ensures Valid() && old(openings) <= openings &&
        Opened(opening, old(openings), if rc == 0 then openings else openings - 1)
      ensures rc == 0 ==> View() == Fresh(old(closed)) && openings == old(openings) + |old(closed)|
      ensures rc != 0 ==> old(openings) < openings <= old(openings) + |old(closed)| && rc == opening(openings - 1)
    {
      hide Sound;
      ghost var all := closed;
      while closed != []
        invariant Valid() && active.None? && open + closed == all && openings == old(openings) + |open|
        invariant Opened(opening, old(openings), openings) && forall p :: p in open ==>
          p in status && status[p] == -EINPROGRESS
        decreases |closed|
      {
        OpenSound(View(), paths, closed[0]);
        Associative(open, [closed[0]], closed[1..]);
        rc := OpenPath(closed[0]);
        if rc != 0 {
          return;
        }
      }
      rc := 0;
      assert open + [] == open;
      AllFresh(View(), paths);
    }

    /** The wait of sandev_reopen() for a path to become active or for all to fail. */
    method WaitForPath() returns (r: Outcome)
      requires Valid() && request.None?
      modifies `open, `closed, `active, `status, `timer, `request, `commandRc, `buffer, `script
      ensures Valid() && Wait(r, View(), script) == WaitFor(old(View()), old(script))
      ensures request.None? && buffer == old(buffer) && r != NoPath
    {
      hide Sound, HandleAll, DeliverAll;
      ghost var w := WaitFor(View(), script);
      while active.None?
        invariant Valid() && request.None? && buffer == old(buffer) && WaitFor(View(), script) == w
        decreases |script|
      {
        NothingDelivered(medium, Data(), View(), if script == [] then [] else script[0]);
        var ran := Step();
        if !ran {
          return Waiting;
        }
        if open == [] {
          return Done(if closed != [] && closed[0] in status then status[closed[0]] else -ENODEV);
        }
      }
      r := Done(0);
    }

    /**
     * sandev_reopen(): if every path can be opened, the result is that of the wait that starts with all of them in
     * progress, and otherwise the status of the first that cannot. When it returns, a path is active and the status is
     * zero, or every path is closed. In the latter case the status is zero if and only if two paths became available
     * before any was lost, which cannot happen if no step delivers more than one event.
     */
    method Reopen() returns (r: Outcome)
      requires Valid()
      modifies `open, `closed, `active, `status, `timer, `request, `commandRc, `buffer, `script, `openings
      ensures Valid() && request.None? && buffer == old(buffer) && Follows(old(script), script)
      ensures r.Done? ==> active.Some? || open == []
      ensures r.Done? && active.Some? ==> r.rc == 0
      ensures var order := old(closed) + old(open);
              if Opened(opening, old(openings), old(openings) + |order|)
              then Reopened(r, View(), script, WaitFor(Fresh(order), old(script)))
              else old(openings) < openings <= old(openings) + |order| && Opened(opening, old(openings), openings - 1)
                   && opening(openings - 1) != 0 && r == Done(opening(openings - 1)) && open == [] &&
                     script == old(script)
      ensures r.Done? && active.None? ==> (r == Done(0) <==> LosesRace(paths, Flat(Used(old(script), script))))
      ensures r.Done? && active.None? && script != old(script) ==>
        ReportsLoss(paths, Flat(Used(old(script), script)), r.rc)
      ensures r == Done(0) && Steady(old(script)) ==> active.Some?
      ensures r != NoPath && (r.Waiting? ==> script == [])
    {
      hide Sound, WaitFor, LosesRace, ReportsLoss, Steady, Flat;
      Restart(-ECONNRESET);
      ghost var order := closed;
      var rc := OpenAll();
      NoRace(paths, script);
      assert script == old(script);
      if rc != 0 {
        Restart(rc);
        return Done(rc);
      }
      WaitSound(View(), paths, script);
      WaitUsed(View(), script);
      WaitScript(View(), script);
      ZeroWithoutPath(View(), paths, script);
      if Steady(script) {
        SteadyStart(View(), paths, script);
      }
      r := WaitForPath();
      if r.Done? && active.None? {
        Restart(r.rc);
      }
    }

    /** Waits for the outstanding command: true if it is over, false if the script ended first. */
    method WaitForCommand(ghost r: Request) returns (over: bool)
      requires Valid() && Honest(medium, Data(), r)
      modifies `open, `closed, `active, `status, `timer, `request, `commandRc, `buffer, `script
      ensures Valid() && Honest(medium, Data(), r) && Untouched(medium, r, old(buffer), buffer)
      ensures over ==> request.None? && (old(timer) ==> |script| < |old(script)|)
      ensures Follows(old(script), script) && (!over ==> script == [])
      ensures Ending(over, Data(), View(), script) == WaitForEnd(medium, old(Data()), old(View()), old(script))
    {
      hide Sound, HandleAll, DeliverAll, Honest, Untouched, Fits;
      UntouchedSelf(medium, Data(), r);
      ghost var w := WaitForEnd(medium, Data(), View(), script);
      while timer
        invariant Valid() && Honest(medium, Data(), r) && Untouched(medium, r, old(buffer), buffer)
        invariant Follows(old(script), script) && (old(timer) && !timer ==> |script| < |old(script)|)
        invariant WaitForEnd(medium, Data(), View(), script) == w
        decreases |script|
      {
        ghost var events, was := if script == [] then [] else script[0], buffer;
        HonestFits(medium, Data(), r);
        DeliverAllHonest(medium, Data(), View(), events, r);
        var ran := Step();
        if !ran {
          return false;
        }
        UntouchedTrans(medium, r, old(buffer), was, buffer);
      }
      over := true;
    }

    /** Initiates a command on the active path and waits for it. */
    method Attempt(r: Request) returns (o: Outcome)
      requires Valid() && request.None? && Fits(medium, r, buffer)
      modifies `open, `closed, `active, `status, `timer, `request, `commandRc, `buffer, `script, `starts, `ended
      ensures Valid() && Untouched(medium, r, old(buffer), buffer) && Follows(old(script), script) && o != NoPath
      ensures o == Done(0) ==> Filled(medium, r, buffer) && |script| < |old(script)|
      ensures (o.Done? ==> request.None?) && (o.Waiting? ==> script == [])
      ensures starts == old(starts) + 1 && ended == old(ended) + (if o.Done? then [o.rc] else [])
      ensures var rc := initiating(old(starts));
              if rc != 0 then o == Done(rc) && View() == old(View()) && script == old(script)
              else Attempted(o, Data(), View(), script,
                             WaitForEnd(medium, Transfer(Some(r), old(commandRc), old(buffer)), old(View()),
                                        old(script)))
      ensures initiating(old(starts)) == 0 && old(active).Some? ==>
        EndsAs(old(View()), old(active).value, Flat(Used(old(script), script)), o.Done?, if o.Done? then o.rc else 0)
    {
      hide Sound, Honest, Untouched, Fits, Filled, WaitForEnd, EndsAs, Flat;
      RequestUntouched(medium, r, buffer);
      var rc := initiating(starts);
      starts := starts + 1;
      if rc != 0 {
        ended := ended + [rc];
        return Done(rc);
      }
      request := Some(r);
      timer := true;
      if active.Some? {
        CommandEndsAs(medium, Data(), View(), paths, active.value, script);
      }
      StartHonest(medium, r, Data());
      var over := WaitForCommand(r);
      if !over {
        if old(active).Some? {
          NotOver(old(View()), old(active).value, Flat(Used(old(script), script)), commandRc);
        }
        return Waiting;
      }
      if commandRc == 0 {
        HonestFilled(medium, r, Data());
      }
      ended := ended + [commandRc];
      o := Done(commandRc);
    }

    /**
     * Reopens the device if no path is active, with a delay if that fails. There is still no active path, with success
     * reported, only after a lost race.
     */
    method EnsureOpen() returns (o: Outcome)
      requires Valid() && request.None?
      modifies `open, `closed, `active, `status, `timer, `request, `commandRc, `buffer, `script, `openings, `delays
      ensures Valid() && request.None? && buffer == old(buffer) && Follows(old(script), script)
      ensures o.Done? && o.rc != 0 ==> |script| < |old(script)|
      ensures delays == old(delays) + if o.Done? && o.rc != 0 then 1 else 0
      ensures o == Done(0) ==> active.Some?
      ensures old(active).Some? ==> o == Done(0) && View() == old(View()) && script == old(script)
      ensures o.Waiting? ==> script == []
      ensures o.NoPath? ==> RaceWithin(paths, old(script)) && !Steady(old(script))
    {
      hide Sound, Steady, LosesRace, Flat, WaitFor, Reopened, Opened, Fresh, ReportsLoss, Follows, RaceWithin;
      FollowsSelf(script);
      if active.Some? {
        return Done(0);
      }
      o := Reopen();
      ghost var before := script;
      FollowsShorter(old(script), before);
      if o.Done? && o.rc != 0 {
        var ran := Sleep();
        FollowsTrans(old(script), before, script);
        if !ran {
          return Waiting;
        }
        delays := delays + 1;
      } else if o.Done? && active.None? {
        RaceUsed(paths, old(script), script);
        o := NoPath;
      }
    }

    /**
     * One turn of the loop in sandev_command(): a command, whose status is recorded when it ends, or else a delay.
     * `counted` tells whether it counts as a retry unless it succeeds.
     */
    method Retry(r: Request) returns (o: Outcome, counted: bool)
      requires Valid() && request.None? && Fits(medium, r, buffer)
      modifies `open, `closed, `active, `status, `timer, `request, `commandRc, `buffer, `script, `openings, `starts,
               `ended, `delays
      ensures Valid() && Untouched(medium, r, old(buffer), buffer) && Follows(old(script), script)
      ensures o == Done(0) ==> Filled(medium, r, buffer) && |script| < |old(script)|
      ensures (o.Done? ==> request.None?) && (o.Waiting? ==> script == [])
      ensures o.Done? ==> (counted <==> starts > old(starts) || paths <= 1)
      ensures o.Done? && starts == old(starts) ==> o.rc != 0 && delays == old(delays) + 1 && |script| < |old(script)|
      ensures o.Done? && starts > old(starts) ==> delays == old(delays)
      ensures old(starts) <= starts <= old(starts) + 1 && old(delays) <= delays
      ensures ended == old(ended) + (if o.Done? && starts > old(starts) then [o.rc] else [])
      ensures starts > old(starts) && initiating(old(starts)) != 0 ==> o == Done(initiating(old(starts)))
      ensures o.NoPath? ==> RaceWithin(paths, old(script)) && !Steady(old(script))
    {
      hide Sound, Untouched, Fits, Filled, Steady, WaitForEnd, RaceWithin, Attempted, Follows;
      RequestUntouched(medium, r, buffer);
      o := EnsureOpen();
      counted := o == Done(0) || paths <= 1;
      if o == Done(0) {
        ghost var before := script;
        FollowsShorter(old(script), before);
        o := Attempt(r);
        FollowsTrans(old(script), before, script);
      }
    }

    /**
     * sandev_command() for a read: reopens the device, initiates the command and waits for it, as often as the limit on
     * retries allows. It succeeds if and only if one of the commands did, which is then the last and has its data in
     * the buffer, whatever failed ones left there. A failure means that commands, together with delays if there is only
     * one path, have used up the retries.
     */
    method Command(r: Request) returns (o: Outcome)
      requires Valid() && request.None? && Fits(medium, r, buffer)
      modifies `open, `closed, `active, `status, `timer, `request, `commandRc, `buffer, `script, `openings, `starts,
               `ended, `delays
      ensures Valid() && Untouched(medium, r, old(buffer), buffer) && Follows(old(script), script)
      ensures o == Done(0) ==> Filled(medium, r, buffer) && |script| < |old(script)|
      ensures (o.Done? ==> request.None?) && (o.Waiting? ==> script == [])
      ensures CommandsEnded(o == Done(0), old(ended), ended) && Initiated(old(starts), old(ended), ended)
      ensures o.Done? ==> |ended| - |old(ended)| == starts - old(starts)
      ensures old(starts) <= starts <= old(starts) + retryLimit + 1 && old(delays) <= delays
      ensures o.Done? && o.rc != 0 ==> UsedUp(starts - old(starts), delays - old(delays))
      ensures o.Done? && o.rc != 0 && paths > 1 ==> o.rc == ended[|ended| - 1]
      ensures o.NoPath? ==> RaceWithin(paths, old(script)) && !Steady(old(script))
    {
      hide Sound, Untouched, Fits, Filled, Steady, RaceWithin, Follows, CommandsEnded, Initiated;
      RequestUntouched(medium, r, buffer);
      FollowsSelf(script);
      NoneEnded(starts, ended);
      var retries := 0;
      while true
        invariant Valid() && request.None? && Untouched(medium, r, old(buffer), buffer) && Follows(old(script), script)
        invariant CommandsEnded(false, old(ended), ended) && Initiated(old(starts), old(ended), ended)
        invariant old(ended) <= ended && |ended| - |old(ended)| == starts - old(starts) && old(delays) <= delays
        invariant retries <= retryLimit && retries == Spent(starts - old(starts), delays - old(delays))
        decreases |script|, retryLimit + 1 - retries
      {
        ghost var was, before := buffer, script;
        UntouchedFits(medium, r, old(buffer), buffer);
        ghost var log := ended;
        var counted;
        o, counted := Retry(r);
        TurnEnded(old(starts), old(ended), log, ended, o);
        UntouchedTrans(medium, r, old(buffer), was, buffer);
        FollowsTrans(old(script), before, script);
        FollowsShorter(before, script);
        if counted && o != Done(0) {
          retries := retries + 1;
        }
        if o == Done(0) || !o.Done? || retries > retryLimit {
          if o.NoPath? {
            RaceEarlier(paths, old(script), before);
          }
          return;
        }
      }
    }

    /** The retries that commands and delays make up: only a device with one path counts the delays. */
    ghost function Spent(commands: nat, waits: nat): nat {
      commands + if paths <= 1 then waits else 0
    }

    ghost predicate UsedUp(commands: int, waits: int) {
      commands >= 0 && waits >= 0 && Spent(commands, waits) == retryLimit + 1
    }

    /** A command that could not be initiated has ended with that status; the first was number `from`. */
    ghost predicate Initiated(from: nat, before: seq<int>, after: seq<int>) {
      forall k :: |before| <= k < |after| && initiating(from + k - |before|) != 0 ==>
        after[k] == initiating(from + k - |before|)
    }

    lemma NoneEnded(from: nat, log: seq<int>)
      ensures CommandsEnded(false, log, log) && Initiated(from, log, log)
    {}

    /** One turn of the loop adds the status of a command that ended, or nothing. */
    lemma TurnEnded(from: nat, start: seq<int>, before: seq<int>, after: seq<int>, o: Outcome)
      requires CommandsEnded(false, start, before) && Initiated(from, start, before)
      requires after == before || (o.Done? && after == before + [o.rc])
      requires after != before && initiating(from + |before| - |start|) != 0 ==>
        o == Done(initiating(from + |before| - |start|))
      requires o == Done(0) ==> after != before
      ensures CommandsEnded(o == Done(0), start, after) && Initiated(from, start, after) && start <= after
    {}

    lemma FragmentGaveUp(start: seq<int>, before: seq<int>, after: seq<int>, d: nat, waits: int)
      requires EndedWell(start, before) && CommandsEnded(false, before, after)
      requires UsedUp(|after| - |before|, d) && d <= waits
      ensures GaveUp(start, after, waits)
    {
      assert GaveUpAfter(start, after, waits, |after| - |before|, d);
    }

    /**
     * The last command for a fragment has failed, as have all those for it, and with delays they have used up the
     * retries.
     */
    ghost predicate GaveUp(before: seq<int>, after: seq<int>, waits: int) {
      exists n: nat, d: nat :: GaveUpAfter(before, after, waits, n, d)
    }

    ghost predicate GaveUpAfter(before: seq<int>, after: seq<int>, waits: int, n: nat, d: nat) {
      && |before| + n <= |after| && d <= waits && UsedUp(n, d)
      && (forall k :: |after| - n <= k < |after| ==> after[k] != 0)
      && (|before| + n < |after| ==> after[|after| - n - 1] == 0)
    }

    /** sleep_fixed(): the scheduler runs during the delay; one step stands for all of it. */
    method Sleep() returns (ran: bool)
      requires Valid() && request.None?
      modifies `open, `closed, `active, `status, `timer, `request, `commandRc, `buffer, `script
      ensures Valid() && request.None? && buffer == old(buffer)
      ensures Follows(old(script), script) && ran == (old(script) != []) && (ran ==> |script| < |old(script)|)
      ensures !ran ==> script == []
    {
      hide Sound, HandleAll, DeliverAll;
      NothingDelivered(medium, Data(), View(), if script == [] then [] else script[0]);
      ran := Step();
    }

    /**
     * The loop of sandev_rw(): reads `total` blocks of the device in fragments of at most `maxCount`. It succeeds if
     * and only if there was one successful command for each fragment. The address of a fragment wraps around.
     */
    method ReadBlocks(start: nat, total: nat) returns (o: Outcome)
      requires Valid() && request.None? && Room(medium, total, buffer) && start < Pow2(ADDRESS_BITS)
      modifies `open, `closed, `active, `status, `timer, `request, `commandRc, `buffer, `script, `openings, `starts,
               `ended, `delays
      ensures Valid() && |buffer| == |old(buffer)| && Follows(old(script), script) && old(ended) <= ended
      ensures (o.Done? ==> request.None?) && (o.Waiting? ==> script == [])
      ensures o == Done(0) && start + total <= Pow2(ADDRESS_BITS) ==> ReadSoFar(medium, start, total, buffer)
      ensures o == Done(0) <==> AllRead(total, maxCount, ended[|old(ended)|..])
      ensures o.Done? && o.rc != 0 ==> GaveUp(old(ended), ended, delays - old(delays))
      ensures o.NoPath? ==> RaceWithin(paths, old(script)) && !Steady(old(script))
    {
      hide Sound, Untouched, Filled, Steady, Fits, Room, ReadSoFar, RaceWithin, Pow2, Follows;
      hide Initiated, CommandsEnded, Zeros, UsedUp, GaveUp, Progress, AllRead, EndedWell;
      var remaining: nat, length: nat, lba: nat := total, maxCount, start;
      ghost var done: nat := 0;
      NoneRead(medium, start, buffer);
      NothingRead(total, maxCount, ended);
      FollowsSelf(script);
      SmallMod(start, Pow2(ADDRESS_BITS));
      var at := 0;
      while remaining != 0
        invariant Valid() && request.None? && |buffer| == |old(buffer)| && Room(medium, total, buffer)
        invariant done + remaining == total && lba == (start + done) % Pow2(ADDRESS_BITS) && at == done * medium.blksize
        invariant start + total <= Pow2(ADDRESS_BITS) ==> ReadSoFar(medium, start, done, buffer)
        invariant Follows(old(script), script) && EndedWell(old(ended), ended) && old(delays) <= delays
        invariant remaining != 0 ==> length == maxCount
        invariant old(ended) <= ended && Progress(remaining, total, maxCount, ended[|old(ended)|..])
        decreases remaining, |script|
      {
        if length > remaining {
          length := remaining;
        }
        ghost var was, before, log, waits := buffer, script, ended, delays;
        var r := Request(lba, length, at);
        FragmentFits(medium, r, done, remaining, buffer);
        o := Command(r);
        FollowsTrans(old(script), before, script);
        UntouchedLength(medium, r, was, buffer);
        SameRoom(medium, total, was, buffer);
        if o != Done(0) {
          NotAllRead(remaining, total, maxCount, old(ended), log, ended);
          if o.Done? {
            FragmentGaveUp(old(ended), log, ended, delays - waits, delays - old(delays));
          }
          if o.NoPath? {
            RaceEarlier(paths, old(script), before);
          }
          return;
        }
        OneMoreRead(remaining, total, maxCount, old(ended), log, ended);
        if start + total <= Pow2(ADDRESS_BITS) {
          SmallMod(start + done, Pow2(ADDRESS_BITS));
          FragmentRead(medium, start, done, r, was, buffer);
        }
        WrapNext(start + done, length, Pow2(ADDRESS_BITS));
        NextFragment(done, length, medium.blksize);
        done := done + length;
        at := at + medium.blksize * length;
        lba := (lba + length) % Pow2(ADDRESS_BITS);
        remaining := remaining - length;
      }
      AllIsRead(total, maxCount, ended[|old(ended)|..]);
      o := Done(0);
    }

    /**
     * sandev_read(): on success, and if neither the count nor any address overflows, the buffer holds exactly the
     * requested bytes of the device.
     */
    method Read(lba: nat, count: nat) returns (o: Outcome)
      requires Valid() && request.None? && Room(medium, ShiftLeft(count, shift, COUNT_BITS), buffer)
      modifies `open, `closed, `active, `status, `timer, `request, `commandRc, `buffer, `script, `openings, `starts,
               `ended, `delays
      ensures Valid() && |buffer| == |old(buffer)| && Follows(old(script), script) && old(ended) <= ended
      ensures (o.Done? ==> request.None?) && (o.Waiting? ==> script == [])
      ensures o == Done(0) <==> AllRead(ShiftLeft(count, shift, COUNT_BITS), maxCount, ended[|old(ended)|..])
      ensures o.Done? && o.rc != 0 ==> GaveUp(old(ended), ended, delays - old(delays))
      ensures o.NoPath? ==> RaceWithin(paths, old(script)) && !Steady(old(script))
      ensures o == Done(0) && Addressable(lba, count, shift) ==> HoldsBlocks(medium, shift, lba, count, buffer)
    {
      hide Sound, Steady, RaceWithin, Room, ReadSoFar, ShiftLeft, Addressable, HoldsBlocks, Pow2, AllRead, GaveUp;
      ShiftBound(lba, shift, ADDRESS_BITS);
      o := ReadBlocks(ShiftLeft(lba, shift, ADDRESS_BITS), ShiftLeft(count, shift, COUNT_BITS));
      if o == Done(0) && Addressable(lba, count, shift) {
        ShiftedEnd(lba, count, shift);
        WholeRead(medium, lba, count, shift, buffer);
      }
    }

    /**
     * sandev_parse_iso9660(): treats the device as a CD-ROM if it can have blocks of 2048 bytes and has a primary
     * volume descriptor. `memory` tells whether the scratch area could be allocated.
     */
    method ParseIso9660(memory: bool) returns (o: Outcome)
      requires Valid() && request.None? && medium.blksize > 0 && shift == 0 && !cdrom
      modifies this
      ensures Valid() && (o.Done? ==> request.None?) && (o.Waiting? ==> script == []) && |script| <= |old(script)|
      ensures old(ended) <= ended
      ensures o.Done? && o.rc != 0 ==> (o.rc == -ENOMEM && !memory) || GaveUp(old(ended), ended, delays - old(delays))
      ensures o.NoPath? ==> RaceWithin(paths, old(script)) && !Steady(old(script))
      ensures cdrom ==> BlockSize(medium, shift) == ISO9660_BLKSIZE && HasPrimary(medium)
      ensures cdrom ==> medium.blksize * Pow2(shift) == 2048
      ensures cdrom ==> medium.Bytes(32768, 6) == [1, 0x43, 0x44, 0x30, 0x30, 0x31]
      ensures !cdrom ==> shift == 0
      ensures o == Done(0) && !cdrom ==> !HasPrimary(medium) || forall k :: BlockSize(medium, k) != ISO9660_BLKSIZE
    {
      hide Sound, Steady, RaceWithin, Pow2, Room, Holds, Addressable, ShiftLeft, GaveUp, AllRead;
      var size, scale := CdromShift(medium.blksize);
      if size > ISO9660_BLKSIZE {
        return Done(0);
      }
      if !memory {
        return Done(-ENOMEM);
      }
      buffer := seq(ISO9660_BLKSIZE, _ => 0);
      ScratchRoom(medium, scale, buffer);
      o := Read(ISO9660_PRIMARY_LBA * Pow2(scale), Pow2(scale));
      if o != Done(0) {
        return;
      }
      ScratchHolds(medium, scale, buffer);
      if buffer[..|PRIMARY|] == PRIMARY {
        shift := scale;
        cdrom := true;
      }
    }
  }

  const ENOMEM := 12

  /** The first volume descriptor of the device is an ISO9660 primary volume descriptor. */
  ghost predicate HasPrimary(m: Medium) {
    m.Bytes(ISO9660_PRIMARY_LBA * ISO9660_BLKSIZE, |PRIMARY|) == PRIMARY
  }

  /** Doubles the block size until it is at least that of a CD-ROM. */
  method CdromShift(blksize: nat) returns (size: nat, scale: nat)
    requires blksize > 0
    ensures size == blksize * Pow2(scale) && size >= ISO9660_BLKSIZE
    ensures size > ISO9660_BLKSIZE ==> forall k :: blksize * Pow2(k) != ISO9660_BLKSIZE
  {
    hide Pow2;
    size, scale := blksize, 0;
    Pow2Start(blksize);
    while size < ISO9660_BLKSIZE
      invariant size == blksize * Pow2(scale) && size > 0
      invariant forall k: nat :: k < scale ==> blksize * Pow2(k) < ISO9660_BLKSIZE
      decreases ISO9660_BLKSIZE - size
    {
      Pow2Next(blksize, scale);
      size := size * 2;
      scale := scale + 1;
    }
    forall k: nat | k >= scale
      ensures blksize * Pow2(k) >= size
    {
      Pow2Monotonic(scale, k);
      ScaleUp(blksize, Pow2(scale), Pow2(k));
    }
  }

  lemma Pow2Start(b: nat)
    ensures b * Pow2(0) == b
  {}

  lemma Pow2Next(b: nat, k: nat)
    ensures b * Pow2(k + 1) == 2 * (b * Pow2(k))
  {}

  lemma ScaleUp(a: nat, b: nat, c: nat)
    requires b <= c
    ensures a * b <= a * c
  {}

  lemma Unshifted(x: nat, width: nat)
    requires x < Pow2(width)
    ensures ShiftLeft(x, 0, width) == x && Shiftable(x, 0, width)
  {
    SmallMod(x, Pow2(width));
  }

  lemma SmallPowers()
    ensures 65536 <= Pow2(COUNT_BITS) && 65536 <= Pow2(ADDRESS_BITS)
  {
    assert Pow2(4) == 16;
    assert Pow2(8) == 256;
    assert Pow2(12) == 4096;
    assert Pow2(16) == 65536;
    Pow2Monotonic(16, COUNT_BITS);
    Pow2Monotonic(16, ADDRESS_BITS);
  }

  lemma ScratchShifts(m: Medium, scale: nat)
    requires m.blksize > 0 && m.blksize * Pow2(scale) == ISO9660_BLKSIZE
    ensures ShiftLeft(Pow2(scale), 0, COUNT_BITS) == Pow2(scale) && Shiftable(Pow2(scale), 0, COUNT_BITS)
    ensures Addressable(ISO9660_PRIMARY_LBA * Pow2(scale), Pow2(scale), 0)
  {
    hide Pow2, ShiftLeft, Shiftable;
    SmallPowers();
    AtMost(m.blksize, Pow2(scale));
    Unshifted(Pow2(scale), COUNT_BITS);
    Unshifted(ISO9660_PRIMARY_LBA * Pow2(scale), ADDRESS_BITS);
    Pow2Start(ISO9660_PRIMARY_LBA * Pow2(scale));
    Pow2Start(Pow2(scale));
  }

  lemma AtMost(a: nat, b: nat)
    requires a > 0
    ensures b <= a * b
  {}

  lemma ScratchRoom(m: Medium, scale: nat, buffer: seq<Byte>)
    requires m.blksize > 0 && m.blksize * Pow2(scale) == ISO9660_BLKSIZE && |buffer| == ISO9660_BLKSIZE
    ensures Room(m, ShiftLeft(Pow2(scale), 0, COUNT_BITS), buffer)
  {
    hide Pow2, ShiftLeft;
    ScratchShifts(m, scale);
  }

  lemma ScratchHolds(m: Medium, scale: nat, buffer: seq<Byte>)
    requires m.blksize > 0 && m.blksize * Pow2(scale) == ISO9660_BLKSIZE && |buffer| == ISO9660_BLKSIZE
    requires Addressable(ISO9660_PRIMARY_LBA * Pow2(scale), Pow2(scale), 0)
          ==> HoldsBlocks(m, 0, ISO9660_PRIMARY_LBA * Pow2(scale), Pow2(scale), buffer)
    ensures buffer[..|PRIMARY|] == PRIMARY <==> HasPrimary(m)
  {
    hide Pow2, Addressable;
    ScratchShifts(m, scale);
    Pow2Start(m.blksize);
    var start := ISO9660_PRIMARY_LBA * ISO9660_BLKSIZE;
    assert (ISO9660_PRIMARY_LBA * Pow2(scale)) * m.blksize == start;
    assert Pow2(scale) * m.blksize == ISO9660_BLKSIZE;
    assert buffer[..ISO9660_BLKSIZE] == buffer;
    assert buffer[..|PRIMARY|] == m.Bytes(start, |PRIMARY|);
  }

  /** A left shift of an integer of a given width. */
  function ShiftLeft(x: nat, shift: nat, width: nat): nat {
    (x * Pow2(shift)) % Pow2(width)
  }

  predicate Shiftable(x: nat, shift: nat, width: nat) {
    x * Pow2(shift) < Pow2(width)
  }

  /** Neither the shifted count nor any shifted address overflows. */
  predicate Addressable(lba: nat, count: nat, shift: nat) {
    && Shiftable(lba, shift, ADDRESS_BITS) && Shiftable(count, shift, COUNT_BITS)
    && lba * Pow2(shift) + count * Pow2(shift) <= Pow2(ADDRESS_BITS)
  }

  lemma ShiftBound(x: nat, shift: nat, width: nat)
    ensures ShiftLeft(x, shift, width) < Pow2(width)
  {}

  lemma ShiftedEnd(lba: nat, count: nat, shift: nat)
    requires Addressable(lba, count, shift)
    ensures ShiftLeft(lba, shift, ADDRESS_BITS) + ShiftLeft(count, shift, COUNT_BITS) <= Pow2(ADDRESS_BITS)
    ensures Shiftable(lba, shift, ADDRESS_BITS) && Shiftable(count, shift, COUNT_BITS)
  {
    hide Pow2;
    SmallMod(lba * Pow2(shift), Pow2(ADDRESS_BITS));
    SmallMod(count * Pow2(shift), Pow2(COUNT_BITS));
  }

  // ----- Commands that have ended

  /** Of the statuses added to the log only the last may be zero, and it is zero exactly after success. */
  ghost predicate CommandsEnded(success: bool, before: seq<int>, after: seq<int>) {
    && before <= after && (success ==> |before| < |after| && after[|after| - 1] == 0)
    && (forall k :: |before| <= k < |after| - (if success then 1 else 0) ==> after[k] != 0)
  }

  ghost function Zeros(log: seq<int>): nat {
    if log == [] then 0 else Zeros(log[..|log| - 1]) + if log[|log| - 1] == 0 then 1 else 0
  }

  lemma {:induction false} ZerosAppend(a: seq<int>, b: seq<int>)
    ensures Zeros(a + b) == Zeros(a) + Zeros(b)
    decreases b
  {
    if b == [] {
      assert a + b == a;
    } else {
      assert (a + b)[..|a + b| - 1] == a + b[..|b| - 1];
      ZerosAppend(a, b[..|b| - 1]);
    }
  }

  lemma {:induction false} NoZeros(log: seq<int>)
    requires forall k :: 0 <= k < |log| ==> log[k] != 0
    ensures Zeros(log) == 0
  {
    if log != [] {
      NoZeros(log[..|log| - 1]);
    }
  }

  /** A command adds one zero to the log if it succeeds, and none otherwise. */
  lemma CommandZeros(success: bool, start: seq<int>, before: seq<int>, after: seq<int>)
    requires start <= before && CommandsEnded(success, before, after)
    ensures start <= after && Zeros(after[|start|..]) == Zeros(before[|start|..]) + if success then 1 else 0
  {
    var added := after[|before|..];
    assert after[|start|..] == before[|start|..] + added;
    ZerosAppend(before[|start|..], added);
    if success {
      var failed := added[..|added| - 1];
      assert Zeros(added) == Zeros(failed) + 1;
      NoZeros(failed);
    } else {
      NoZeros(added);
    }
  }

  /** The number of fragments of at most `most` blocks. */
  ghost function Fragments(total: nat, most: nat): nat
    requires most > 0
  {
    if total == 0 then 0 else 1 + Fragments(if total < most then 0 else total - most, most)
  }

  /** A quotient rounded up. */
  function Ceiling(n: nat, m: nat): nat
    requires m > 0
  {
    (n + m - 1) / m
  }

  lemma CeilingNext(n: nat, m: nat)
    requires m > 0
    ensures Ceiling(0, m) == 0 && (0 < n <= m ==> Ceiling(n, m) == 1)
    ensures n >= m ==> Ceiling(n, m) == Ceiling(n - m, m) + 1
  {
    DivUnique(m - 1, m, 0, m - 1);
    if 0 < n <= m {
      DivUnique(n + m - 1, m, 1, n - 1);
    }
    if n >= m {
      QuotientNext(n - 1, m);
    }
  }

  lemma QuotientNext(x: nat, m: nat)
    requires m > 0
    ensures (x + m) / m == x / m + 1
  {
    var q, r := x / m, x % m;
    assert x == q * m + r;
    assert (q + 1) * m == q * m + m;
    DivUnique(x + m, m, q + 1, r);
  }

  lemma {:induction false} FragmentsRounded(total: nat, most: nat)
    requires most > 0
    ensures Fragments(total, most) == Ceiling(total, most)
    decreases total
  {
    hide Ceiling;
    CeilingNext(total, most);
    if total >= most {
      FragmentsRounded(total - most, most);
    }
  }

  /** Everything has been read: one command has succeeded for each fragment. */
  ghost predicate AllRead(total: nat, most: nat, log: seq<int>) {
    total == 0 || (most > 0 && Zeros(log) == Fragments(total, most))
  }

  /** One command has succeeded for each fragment that no longer remains. */
  ghost predicate Progress(remaining: nat, total: nat, most: nat, log: seq<int>) {
    if most == 0 then remaining == total else Zeros(log) + Fragments(remaining, most) == Fragments(total, most)
  }

  /** Nothing has been added to the log since, or the last status is a success. */
  ghost predicate EndedWell(before: seq<int>, after: seq<int>) {
    before <= after && (after == before || after[|after| - 1] == 0)
  }

  lemma NothingRead(total: nat, most: nat, log: seq<int>)
    ensures EndedWell(log, log) && Progress(total, total, most, log[|log|..])
  {}

  lemma AllIsRead(total: nat, most: nat, log: seq<int>)
    requires Progress(0, total, most, log)
    ensures AllRead(total, most, log)
  {
    hide Zeros;
  }

  lemma NotAllRead(remaining: nat, total: nat, most: nat, start: seq<int>, before: seq<int>, after: seq<int>)
    requires remaining > 0 && remaining <= total && start <= before && CommandsEnded(false, before, after)
    requires Progress(remaining, total, most, before[|start|..])
    ensures start <= after && !AllRead(total, most, after[|start|..])
  {
    hide Zeros, CommandsEnded;
    CommandZeros(false, start, before, after);
  }

  lemma OneMoreRead(remaining: nat, total: nat, most: nat, start: seq<int>, before: seq<int>, after: seq<int>)
    requires remaining > 0 && EndedWell(start, before) && CommandsEnded(true, before, after)
    requires Progress(remaining, total, most, before[|start|..])
    ensures start <= after && EndedWell(start, after)
    ensures Progress(remaining - (if most > remaining then remaining else most), total, most, after[|start|..])
  {
    hide Zeros;
    CommandZeros(true, start, before, after);
  }

  lemma WrapNext(x: nat, n: nat, m: nat)
    requires m > 0
    ensures (x % m + n) % m == (x + n) % m
  {
    assert x + n == (x % m + n) + (x / m) * m;
    ModShift(x % m + n, x / m, m);
  }

  lemma NextFragment(done: nat, length: nat, size: nat)
    ensures done * size + size * length == (done + length) * size
  {}

  /** The buffer has room for `n` blocks of the device. */
  predicate Room(m: Medium, n: nat, buffer: seq<Byte>) {
    n * m.blksize <= |buffer|
  }

  /** The buffer starts with `len` bytes of the device. */
  ghost predicate Holds(m: Medium, start: nat, len: nat, buffer: seq<Byte>) {
    len <= |buffer| && buffer[..len] == m.Bytes(start, len)
  }

  /** The size of the blocks that callers see. */
  function BlockSize(m: Medium, shift: nat): nat {
    m.blksize * Pow2(shift)
  }

  /** The buffer starts with the blocks that a caller asked for. */
  ghost predicate HoldsBlocks(m: Medium, shift: nat, lba: nat, count: nat, buffer: seq<Byte>) {
    Holds(m, lba * BlockSize(m, shift), count * BlockSize(m, shift), buffer)
  }

  lemma SameRoom(m: Medium, n: nat, a: seq<Byte>, b: seq<Byte>)
    requires Room(m, n, a) && |a| == |b|
    ensures Room(m, n, b)
  {}

  /** The first `done` blocks from `start` are in the buffer. */
  ghost predicate ReadSoFar(m: Medium, start: nat, done: nat, buffer: seq<Byte>) {
    done * m.blksize <= |buffer| && buffer[..done * m.blksize] == m.Bytes(start * m.blksize, done * m.blksize)
  }

  lemma NoneRead(m: Medium, start: nat, buffer: seq<Byte>)
    ensures ReadSoFar(m, start, 0, buffer)
  {
    assert 0 * m.blksize == 0;
  }

  lemma FragmentFits(m: Medium, r: Request, done: nat, remaining: nat, buffer: seq<Byte>)
    requires r.at == done * m.blksize && r.count <= remaining && Room(m, done + remaining, buffer)
    ensures Fits(m, r, buffer)
  {
    assert (done + remaining) * m.blksize == done * m.blksize + remaining * m.blksize;
    assert r.count * m.blksize <= remaining * m.blksize;
  }

  lemma UntouchedLength(m: Medium, r: Request, a: seq<Byte>, b: seq<Byte>)
    requires Untouched(m, r, a, b)
    ensures |a| == |b|
  {}

  lemma BytesJoin(m: Medium, start: nat, a: nat, b: nat)
    ensures m.Bytes(start, a) + m.Bytes(start + a, b) == m.Bytes(start, a + b)
  {}

  /** A fragment that is read after the others extends what has been read. */
  lemma FragmentRead(m: Medium, start: nat, done: nat, r: Request, was: seq<Byte>, buffer: seq<Byte>)
    requires ReadSoFar(m, start, done, was) && Untouched(m, r, was, buffer) && Filled(m, r, buffer)
    requires r.lba == start + done && r.at == done * m.blksize
    ensures ReadSoFar(m, start, done + r.count, buffer)
  {
    var a, b := done * m.blksize, r.count * m.blksize;
    assert (done + r.count) * m.blksize == a + b;
    assert (start + done) * m.blksize == start * m.blksize + a;
    BytesJoin(m, start * m.blksize, a, b);
    assert buffer[..a] == was[..a];
    assert buffer[..a + b] == buffer[..a] + buffer[a..a + b];
  }

  lemma WholeRead(m: Medium, lba: nat, count: nat, shift: nat, buffer: seq<Byte>)
    requires ReadSoFar(m, ShiftLeft(lba, shift, ADDRESS_BITS), ShiftLeft(count, shift, COUNT_BITS), buffer)
    requires Shiftable(lba, shift, ADDRESS_BITS) && Shiftable(count, shift, COUNT_BITS)
    ensures HoldsBlocks(m, shift, lba, count, buffer)
  {
    hide Pow2;
    SmallMod(lba * Pow2(shift), Pow2(ADDRESS_BITS));
    SmallMod(count * Pow2(shift), Pow2(COUNT_BITS));
    Regroup(lba, Pow2(shift), m.blksize);
    Regroup(count, Pow2(shift), m.blksize);
  }

  lemma Regroup(a: nat, b: nat, c: nat)
    ensures (a * b) * c == a * (c * b)
  {}

  lemma RequestUntouched(m: Medium, r: Request, buffer: seq<Byte>)
    requires Fits(m, r, buffer)
    ensures Untouched(m, r, buffer, buffer)
  {}

  lemma UntouchedFits(m: Medium, r: Request, a: seq<Byte>, b: seq<Byte>)
    requires Untouched(m, r, a, b)
    ensures Fits(m, r, b)
  {}

  lemma StartHonest(m: Medium, r: Request, t: Transfer)
    requires Fits(m, r, t.buffer) && t.request == Some(r)
    ensures Honest(m, t, r)
  {}

  lemma HonestFilled(m: Medium, r: Request, t: Transfer)
    requires Honest(m, t, r) && t.request.None? && t.rc == 0
    ensures Filled(m, r, t.buffer)
  {}

  /** Each step delivers at most one event. */
  ghost predicate Steady(script: seq<seq<Event>>) {
    forall m :: m in script ==> |m| <= 1
  }

  /** The rest of a script. */
  ghost predicate Follows(script: seq<seq<Event>>, rest: seq<seq<Event>>) {
    |rest| <= |script| && rest == script[|script| - |rest|..]
  }

  lemma FollowsSelf(script: seq<seq<Event>>)
    ensures Follows(script, script)
  {}

  lemma FollowsShorter(script: seq<seq<Event>>, rest: seq<seq<Event>>)
    requires Follows(script, rest)
    ensures |rest| <= |script|
  {}

  lemma FollowsTrans(a: seq<seq<Event>>, b: seq<seq<Event>>, c: seq<seq<Event>>)
    requires Follows(a, b) && Follows(b, c)
    ensures Follows(a, c)
  {}

  /** A race was lost in some consecutive steps of the script. */
  ghost predicate RaceWithin(n: nat, script: seq<seq<Event>>) {
    exists i: nat, j: nat :: RaceIn(n, script, i, j)
  }

  ghost predicate RaceIn(n: nat, script: seq<seq<Event>>, i: nat, j: nat) {
    i <= j <= |script| && LosesRace(n, Flat(script[i..j]))
  }

  lemma RaceUsed(n: nat, script: seq<seq<Event>>, rest: seq<seq<Event>>)
    requires Follows(script, rest) && LosesRace(n, Flat(Used(script, rest)))
    ensures RaceWithin(n, script)
  {
    hide LosesRace, Flat;
    assert script[0..|script| - |rest|] == Used(script, rest);
    assert RaceIn(n, script, 0, |script| - |rest|);
  }

  lemma RaceEarlier(n: nat, script: seq<seq<Event>>, rest: seq<seq<Event>>)
    requires Follows(script, rest) && RaceWithin(n, rest) && !Steady(rest)
    ensures RaceWithin(n, script) && !Steady(script)
  {
    hide LosesRace, Flat;
    var i: nat, j: nat :| RaceIn(n, rest, i, j);
    var d := |script| - |rest|;
    assert script[d + i..d + j] == rest[i..j];
    assert RaceIn(n, script, d + i, d + j);
    var m :| m in rest && |m| > 1;
    assert m in script;
  }

  lemma NoRace(n: nat, script: seq<seq<Event>>)
    ensures !LosesRace(n, Flat(Used(script, script)))
  {
    assert Used(script, script) == [];
  }

  /** The results of opening paths numbered from `from` up to but not including `to` are all zero. */
  ghost predicate Opened(opening: nat -> int, from: nat, to: int) {
    forall k: nat :: from <= k < to ==> opening(k) == 0
  }

  /** All paths in progress. */
  ghost function Fresh(order: seq<nat>): Paths {
    Paths(order, [], None, map p | p in order :: -EINPROGRESS)
  }

  lemma AllFresh(s: Paths, n: nat)
    requires Sound(s, n) && s.closed == [] && s.active.None? && forall p :: p in s.open ==>
      p in s.status && s.status[p] == -EINPROGRESS
    ensures s == Fresh(s.open)
  {
    hide Sound;
    forall p: nat
      ensures p in s.open <==> p in s.status
    {
      AllOpen(s, n, p);
      SoundStatus(s, n, p);
    }
  }

  lemma SoundStatus(s: Paths, n: nat, p: nat)
    requires Sound(s, n)
    ensures p in s.status <==> p < n
  {}

  /** What reopening leaves after a wait: without an active path, everything is closed again. */
  ghost predicate Reopened(r: Outcome, s: Paths, script: seq<seq<Event>>, w: SanPaths.Wait) {
    && r == w.result && script == w.script
    && if r.Done? && w.paths.active.None? then s.open == [] && s.active.None? else s == w.paths
  }

  /** What an attempt leaves after a wait. */
  ghost predicate Attempted(o: Outcome, t: Transfer, s: Paths, script: seq<seq<Event>>, w: Ending) {
    o == (if w.over then Done(w.transfer.rc) else Waiting) && t == w.transfer && s == w.paths && script == w.script
  }

  lemma SteadyStart(s: Paths, n: nat, script: seq<seq<Event>>)
    requires Sound(s, n) && s.closed == [] && Steady(script)
    ensures WaitFor(s, script).result == Done(0) ==> WaitFor(s, script).paths.active.Some?
  {
    hide Sound, WaitFor;
    SteadyWait(s, n, script);
  }

  lemma {:induction false} WaitScript(s: Paths, script: seq<seq<Event>>)
    ensures WaitFor(s, script).result.Waiting? ==> WaitFor(s, script).script == []
    decreases script
  {
    hide HandleAll;
    if s.active.None? && script != [] {
      WaitScript(HandleAll(s, script[0]), script[1..]);
    }
  }

  /** Without an outstanding command no event delivers data. */
  lemma {:induction false} NothingDelivered(m: Medium, t: Transfer, s: Paths, events: seq<Event>)
    requires t.request.None?
    ensures var u := DeliverAll(m, t, s, events); u.request.None? && u.buffer == t.buffer
    decreases events
  {
    hide Deliver;
    if events != [] {
      DeliverFits(m, t, s, events[0]);
      NothingDelivered(m, Deliver(m, t, s, events[0]), Handle(s, events[0]), events[1..]);
    }
  }

  lemma AllClosed(n: nat, s: Paths)
    requires s.open == [] && s.active.None? && s.closed == seq(n, i => i) && (forall p: nat :: p < n <==> p in s.status)
    ensures Sound(s, n)
  {
    forall p: nat
      ensures Copies(s, p) == if p < n then 1 else 0
    {
      CountIdentity(n, p);
    }
  }

  lemma {:induction false} CountIdentity(n: nat, p: nat)
    ensures multiset(seq(n, i => i))[p] == if p < n then 1 else 0
  {
    if n > 0 {
      CountIdentity(n - 1, p);
      assert seq(n, i => i) == seq(n - 1, i => i) + [n - 1];
    }
  }
}
