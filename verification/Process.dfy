/** The cooperative scheduler of src/core/process.c. */
module Process {
  import opened ListOps

  /** What a process does to the run queue while it executes. */
  datatype Action = Add(process: nat) | Del(process: nat)

  function Added(q: seq<nat>, p: nat): seq<nat> {
    if p in q then q else q + [p]
  }

  function Apply(q: seq<nat>, actions: seq<Action>): seq<nat>
    decreases actions
  {
    if actions == [] then q
    else Apply(match actions[0] case Add(p) => Added(q, p) case Del(p) => Without(q, p), actions[1..])
  }

  /** The run queue after the first process has been taken off it, or moved to its end. */
  function Rotated(q: seq<nat>, once: set<nat>): seq<nat>
    requires q != []
  {
    if q[0] in once then q[1..] else q[1..] + [q[0]]
  }

  /** The processes that successive calls of step() execute; each entry of the script is what one of them does. */
  function Executed(q: seq<nat>, once: set<nat>, script: seq<seq<Action>>): seq<nat>
    decreases script
  {
    if script == [] || q == [] then [] else [q[0]] + Executed(Apply(Rotated(q, once), script[0]), once, script[1..])
  }

  lemma ExecutedNext(q: seq<nat>, once: set<nat>, script: seq<seq<Action>>)
    ensures script == [] || q == [] ==> Executed(q, once, script) == []
    ensures script != [] && q != [] ==>
      Executed(q, once, script) == q[..1] + Executed(Apply(Rotated(q, once), script[0]), once, script[1..])
  {}

  class Scheduler {
    /** The processes that run only once each time they are added. */
    const once: set<nat>
    var queue: seq<nat>
    var executed: seq<nat>
    /** The references that the run queue holds. */
    var held: multiset<nat>

    /** Each running process is on the queue once, and the queue holds one reference to it. */
    ghost predicate Valid()
      reads this
    {
      NoDuplicates(queue) && held == multiset(queue)
    }

    constructor (once: set<nat>)
      ensures Valid() && queue == [] && executed == [] && this.once == once
    {
      this.once, queue, executed, held := once, [], [], multiset{};
    }

    method ProcessAdd(p: nat)
      requires Valid()
      modifies `queue, `held
      ensures Valid() && queue == Added(old(queue), p)
      ensures p in queue && queue == if p in old(queue) then old(queue) else old(queue) + [p]
    {
      if p !in queue {
        AppendNoDuplicates(queue, p);
        held := held + multiset{p};
        queue := queue + [p];
      }
    }

    method ProcessDel(p: nat)
      requires Valid()
      modifies `queue, `held
      ensures Valid() && queue == Without(old(queue), p)
      ensures p !in queue && forall q :: q != p ==> (q in queue <==> q in old(queue))
    {
      WithoutElements(queue, p);
      if p in queue {
        WithoutMultiset(queue, p);
        assert multiset(queue) - multiset{p} == multiset(Without(queue, p));
        queue := Without(queue, p);
        held := held - multiset{p};
      }
    }

    /** The body of a process: any sequence of additions and deletions. */
    method Execute(actions: seq<Action>)
      requires Valid()
      modifies `queue, `held
      ensures Valid() && queue == Apply(old(queue), actions)
      decreases actions
    {
      if actions != [] {
        match actions[0] {
          case Add(p) => ProcessAdd(p);
          case Del(p) => ProcessDel(p);
        }
        Execute(actions[1..]);
      }
    }

    /** step(): executes the first process on the queue. */
    method Step(actions: seq<Action>)
      requires Valid()
      modifies this
      ensures Valid() && queue == if old(queue) == [] then [] else Apply(Rotated(old(queue), once), actions)
      ensures executed == old(executed) + old(queue)[..if old(queue) == [] then 0 else 1]
      ensures old(queue) != [] ==> Left(old(queue), once, actions, queue)
    {
      hide Apply, NoDuplicates, Without, Left;
      if queue == [] {
        return;
      }
      KeptThrough(queue, once, actions);
      FirstGone(queue);
      var p := queue[0];
      assert queue == [p] + queue[1..];
      if p in once {
        ProcessDel(p);
      } else {
        AppendNoDuplicates(queue[1..], p);
        assert multiset(queue[1..] + [p]) == multiset(queue);
        queue := queue[1..] + [p];
      }
      executed := executed + [p];
      Execute(actions);
    }

    /** Successive calls of step(), as far as there is anything to execute. */
    method Run(script: seq<seq<Action>>)
      requires Valid()
      modifies this
      ensures Valid() && executed == old(executed) + Executed(old(queue), once, script)
      decreases script
    {
      hide Apply, NoDuplicates, Executed, Rotated;
      ExecutedNext(queue, once, script);
      if script != [] {
        Step(script[0]);
        ExecutedNext(queue, once, script[1..]);
        Run(script[1..]);
      }
    }

    /** A process with `k` others ahead of it runs in any `k` + 1 steps in which nothing deletes it. */
    method RunsInTurn(p: nat, script: seq<seq<Action>>)
      requires Valid() && p in queue && Ahead(queue, p) < |script|
      requires forall i :: 0 <= i < Ahead(queue, p) ==> Del(p) !in script[i]
      modifies this
      ensures Valid()
      ensures exists i ::
        |old(executed)| <= i <= |old(executed)| + old(Ahead(queue, p)) && i < |executed| && executed[i] == p
    {
      hide Executed, Ahead;
      Fair(queue, once, script, p);
      ghost var k :| 0 <= k <= Ahead(queue, p) && k < |Executed(queue, once, script)| &&
        Executed(queue, once, script)[k] == p;
      Run(script);
      assert executed[|old(executed)| + k] == p;
    }
  }

  /**
   * The queue after a step: the others stay, in order if the process does nothing, and so does the process itself if it
   * reschedules, at the end; unless they are deleted. A process that runs once is gone unless it is added again.
   */
  ghost predicate Left(q: seq<nat>, once: set<nat>, actions: seq<Action>, r: seq<nat>)
    requires q != []
  {
    && (actions == [] ==> r == q[1..] + if q[0] in once then [] else [q[0]])
    && (forall p :: p in q && (p != q[0] || p !in once) && Del(p) !in actions ==> p in r)
    && (q[0] in once && Add(q[0]) !in actions ==> q[0] !in r)
  }

  lemma FirstGone(q: seq<nat>)
    requires q != [] && NoDuplicates(q)
    ensures Without(q, q[0]) == q[1..] && NoDuplicates(q[1..]) && q[0] !in q[1..]
  {}

  lemma ApplyNone(q: seq<nat>)
    ensures Apply(q, []) == q
  {}

  /** What a step and the actions of its process leave on the queue. */
  lemma KeptThrough(q: seq<nat>, once: set<nat>, actions: seq<Action>)
    requires q != [] && NoDuplicates(q)
    ensures Left(q, once, actions, Apply(Rotated(q, once), actions))
  {
    hide Apply;
    var t := Rotated(q, once);
    ApplyNone(t);
    forall p | p in q && (p != q[0] || p !in once) && Del(p) !in actions
      ensures p in Apply(t, actions)
    {
      assert q == [q[0]] + q[1..];
      assert p in t;
      AheadApply(t, p, actions);
    }
    if q[0] in once && Add(q[0]) !in actions {
      NotAdded(t, actions, q[0]);
    }
  }

  lemma {:induction false} NotAdded(q: seq<nat>, actions: seq<Action>, p: nat)
    requires p !in q && Add(p) !in actions
    ensures p !in Apply(q, actions)
    decreases actions
  {
    if actions != [] {
      match actions[0]
      case Add(x) => NotAdded(Added(q, x), actions[1..], p);
      case Del(x) =>
        WithoutWithin(q, x);
        NotAdded(Without(q, x), actions[1..], p);
    }
  }

  lemma {:induction false} WithoutWithin(q: seq<nat>, x: nat)
    ensures forall c :: c in Without(q, x) ==> c in q
  {
    if q != [] && q[0] != x {
      WithoutWithin(q[1..], x);
    }
  }

  // ----- Fairness

  /** The number of processes ahead of `p` on the queue. */
  function Ahead(q: seq<nat>, p: nat): (k: nat)
    requires p in q
    ensures k < |q| && q[k] == p && p !in q[..k]
  {
    if q[0] == p then 0 else 1 + Ahead(q[1..], p)
  }

  lemma {:induction false} AheadAppend(q: seq<nat>, p: nat, x: nat)
    requires p in q
    ensures Ahead(q + [x], p) == Ahead(q, p)
  {
    if q[0] != p {
      AheadAppend(q[1..], p, x);
      assert (q + [x])[1..] == q[1..] + [x];
    }
  }

  lemma {:induction false} AheadWithout(q: seq<nat>, p: nat, x: nat)
    requires p in q && x != p
    ensures p in Without(q, x) && Ahead(Without(q, x), p) <= Ahead(q, p)
  {
    if q[0] != p && q[0] != x {
      AheadWithout(q[1..], p, x);
      assert Without(q, x)[1..] == Without(q[1..], x);
    }
  }

  /** Nothing that a process does to others moves `p` back. */
  lemma {:induction false} AheadApply(q: seq<nat>, p: nat, actions: seq<Action>)
    requires p in q && Del(p) !in actions
    ensures p in Apply(q, actions) && Ahead(Apply(q, actions), p) <= Ahead(q, p)
    decreases actions
  {
    if actions != [] {
      match actions[0]
      case Add(x) =>
        if x !in q { AheadAppend(q, p, x); }
        AheadApply(Added(q, x), p, actions[1..]);
      case Del(x) =>
        AheadWithout(q, p, x);
        AheadApply(Without(q, x), p, actions[1..]);
    }
  }

  /** A process with `k` others ahead of it is executed within `k` + 1 steps unless something deletes it first. */
  lemma {:induction false} Fair(q: seq<nat>, once: set<nat>, script: seq<seq<Action>>, p: nat)
    requires p in q && Ahead(q, p) < |script|
    requires forall i :: 0 <= i < Ahead(q, p) ==> Del(p) !in script[i]
    ensures exists i :: 0 <= i <= Ahead(q, p) && i < |Executed(q, once, script)| && Executed(q, once, script)[i] == p
    decreases script
  {
    hide Apply;
    if q[0] == p {
      assert Executed(q, once, script)[0] == p;
    } else {
      var r := Rotated(q, once);
      AheadAppend(q[1..], p, q[0]);
      AheadApply(r, p, script[0]);
      var s := Apply(r, script[0]);
      Fair(s, once, script[1..], p);
      var i :| 0 <= i <= Ahead(s, p) && i < |Executed(s, once, script[1..])| && Executed(s, once, script[1..])[i] == p;
      assert Executed(q, once, script)[i + 1] == p;
    }
  }
}
