/** The scheduler (threads/thread.c), from thread_start on: the ready list, the
    idle thread, and who runs next. */
module Threads {
  import opened Counting

  datatype Status = Running | Ready | Blocked | Dying

  /** The threads there have been, and the list of those to run. */
  datatype State = State(status: seq<Status>, ready: seq<nat>, running: nat, idle: nat)

  datatype Step =
    | Block                 // thread_block: the running thread waits for something
    | Yield                 // thread_yield
    | Exit                  // thread_exit
    | Unblock(t: nat)       // thread_unblock, by the running thread or an interrupt
    | Create                // thread_create

  /** The callers' duties: only blocked threads are unblocked; idle is not on
      anyone's list of waiters, and it does not end. */
  predicate Enabled(s: State, step: Step) {
    match step
    case Block => true
    case Yield => true
    case Exit => s.running != s.idle
    case Unblock(t) => t < |s.status| && s.status[t] == Blocked && t != s.idle
    case Create => true
  }

  /** next_thread_to_run and schedule, after the running thread's status was
      changed. */
  function Scheduled(s: State): State
    requires s.idle < |s.status| && (s.ready != [] ==> s.ready[0] < |s.status|)
  {
    if s.ready == [] then s.(running := s.idle, status := s.status[s.idle := Running])
    else s.(running := s.ready[0], ready := s.ready[1..], status := s.status[s.ready[0] := Running])
  }

  function MadeReady(s: State, t: nat): State
    requires t < |s.status|
  {
    s.(ready := s.ready + [t], status := s.status[t := Ready])
  }

  ghost predicate Inv(s: State) {
    && s.idle < |s.status| && s.running < |s.status|
    && Distinct(s.ready)
    && (forall t: nat :: t in s.ready <==> t < |s.status| && s.status[t] == Ready && t != s.idle)
    && (forall t :: 0 <= t < |s.status| ==> (s.status[t] == Running <==> t == s.running))
    && s.status[s.idle] != Dying
  }

  lemma FrontReady(s: State)
    requires Inv(s) && s.ready != []
    ensures s.ready[0] < |s.status| && s.status[s.ready[0]] == Ready && s.ready[0] != s.idle
  {
    assert s.ready[0] in s.ready;
  }

  ghost function Next(s: State, step: Step): State
    requires Inv(s) && Enabled(s, step)
  {
    assert s.ready != [] ==> s.ready[0] in s.ready;
    match step
    case Block => Scheduled(s.(status := s.status[s.running := Blocked]))
    case Exit => Scheduled(s.(status := s.status[s.running := Dying]))
    case Yield =>
      Scheduled(s.(ready := if s.running != s.idle then s.ready + [s.running] else s.ready,
                   status := s.status[s.running := Ready]))
    case Unblock(t) => MadeReady(s, t)
    case Create => MadeReady(s.(status := s.status + [Blocked]), |s.status|)
  }

  /** A state in the middle of schedule(): no one runs. */
  ghost predicate Between(s: State) {
    && s.idle < |s.status|
    && Distinct(s.ready)
    && (forall t: nat :: t in s.ready <==> t < |s.status| && s.status[t] == Ready && t != s.idle)
    && (forall t :: 0 <= t < |s.status| ==> s.status[t] != Running)
    && s.status[s.idle] != Dying
  }

  lemma ScheduledInv(s: State)
    requires Between(s)
    ensures s.ready != [] ==> s.ready[0] < |s.status|
    ensures Inv(Scheduled(s))
  {
    hide Distinct;
    if s.ready != [] {
      assert s.ready[0] in s.ready;
      PopDistinct(s.ready);
    }
  }

  lemma MadeReadyInv(s: State, t: nat)
    requires Inv(s) && t < |s.status| && s.status[t] == Blocked && t != s.idle
    ensures Inv(MadeReady(s, t))
  {
    hide Distinct;
    PushDistinct(s.ready, t);
  }

  /** Every step keeps the ready list equal to the READY threads other than idle,
      each once, and one thread running. */
  lemma StepInv(s: State, step: Step)
    requires Inv(s) && Enabled(s, step)
    ensures Inv(Next(s, step))
  {
    hide Distinct;
    match step
    case Block => ScheduledInv(s.(status := s.status[s.running := Blocked]));
    case Exit => ScheduledInv(s.(status := s.status[s.running := Dying]));
    case Yield =>
      PushDistinct(s.ready, s.running);
      ScheduledInv(s.(ready := if s.running != s.idle then s.ready + [s.running] else s.ready,
                      status := s.status[s.running := Ready]));
    case Unblock(t) => MadeReadyInv(s, t);
    case Create => MadeReadyInv(s.(status := s.status + [Blocked]), |s.status|);
  }

  // ----- Runs -----

  ghost predicate Leads(s: State, steps: seq<Step>, t: State)
    requires Inv(s)
    decreases |steps|
  {
    if steps == [] then t == s
    else Enabled(s, steps[0]) && (StepInv(s, steps[0]); Leads(Next(s, steps[0]), steps[1..], t))
  }

  lemma {:induction false} LeadsInv(s: State, steps: seq<Step>, t: State)
    requires Inv(s) && Leads(s, steps, t)
    ensures Inv(t)
    decreases |steps|
  {
    hide Inv;
    if steps != [] {
      StepInv(s, steps[0]);
      LeadsInv(Next(s, steps[0]), steps[1..], t);
    }
  }

  /** The state when thread_start returns: main runs, the idle thread is blocked. */
  ghost function Start(): (s: State)
    ensures Inv(s)
  {
    State([Running, Blocked], [], 0, 1)
  }

  predicate CallsSchedule(step: Step) { step.Block? || step.Yield? || step.Exit? }

  /** In every reachable state the ready list is as it should be, and the next
      call of schedule() runs idle exactly if no other thread is ready then; a
      thread that yields counts as ready, unless it is idle. */
  lemma EveryRun(steps: seq<Step>, s: State, step: Step)
    requires Leads(Start(), steps, s) && Enabled(s, step) && CallsSchedule(step)
    ensures Inv(s)
    ensures Next(s, step).running == s.idle <==>
              !(exists t :: 0 <= t < |s.status| && t != s.idle
                            && (s.status[t] == Ready || (t == s.running && step.Yield?)))
  {
    hide Distinct;
    LeadsInv(Start(), steps, s);
    StepInv(s, step);
    if s.ready != [] {
      FrontReady(s);
    } else {
      forall t | 0 <= t < |s.status| && t != s.idle ensures s.status[t] != Ready { assert t !in s.ready; }
      if step.Yield? && s.running != s.idle {
        assert s.status[s.running] == Running;
        assert Next(s, step).running == s.running;
      }
    }
  }

  /** First come, first served: a thread with K threads before it on the ready list
      is still on it through the next K calls of schedule(), moving up one place
      with each, and the call after that runs it, whatever else happens. */
  lemma {:induction false} KthIsNext(s: State, steps: seq<Step>, t: State, k: nat, last: Step)
    requires Inv(s) && Leads(s, steps, t) && k < |s.ready| && Count(steps, CallsSchedule) <= k
    requires Enabled(t, last) && CallsSchedule(last)
    ensures k - Count(steps, CallsSchedule) < |t.ready| && t.ready[k - Count(steps, CallsSchedule)] == s.ready[k]
    ensures k == Count(steps, CallsSchedule) ==> Inv(t) && Next(t, last).running == s.ready[k]
    decreases |steps|
  {
    LeadsInv(s, steps, t);
    if steps != [] {
      hide Inv;
      StepInv(s, steps[0]);
      FrontReady(s);
      var s' := Next(s, steps[0]);
      var k' := if CallsSchedule(steps[0]) then k - 1 else k;
      assert s'.ready[k'] == s.ready[k];
      KthIsNext(s', steps[1..], t, k', last);
    }
  }

  // ----- What each call does to the thread it names -----

  /** The statuses that the step may change: that of the thread it names, that of
      the thread that ran and that of the one that runs. */
  lemma OthersUnchanged(s: State, step: Step, u: nat)
    requires Inv(s) && Enabled(s, step) && u < |s.status|
    requires u != s.running && u != Next(s, step).running && (step.Unblock? ==> u != step.t)
    ensures u < |Next(s, step).status| && Next(s, step).status[u] == s.status[u]
  {
    if s.ready != [] { FrontReady(s); }
    match step
    case Block =>
    case Yield =>
    case Exit =>
    case Unblock(t) =>
    case Create =>
  }

  /** A thread that becomes ready with N others on the list is run by the (N+1)th
      call of schedule() after that, and waits on the list until then. */
  lemma UnblockedRuns(s: State, t: nat, steps: seq<Step>, u: State, last: Step)
    requires Inv(s) && Enabled(s, Unblock(t)) && Inv(Next(s, Unblock(t))) && Leads(Next(s, Unblock(t)), steps, u)
    requires Count(steps, CallsSchedule) <= |s.ready| && Enabled(u, last) && CallsSchedule(last)
    ensures Inv(u) && t < |u.status| && u.status[t] == Ready
    ensures Count(steps, CallsSchedule) == |s.ready| ==> Next(u, last).running == t
  {
    var s1 := Next(s, Unblock(t));
    assert s1.ready[|s.ready|] == t;
    KthIsNext(s1, steps, u, |s.ready|, last);
    LeadsInv(s1, steps, u);
    assert t in u.ready;
  }

  /** ... and so is a thread that has been created. */
  lemma CreatedRuns(s: State, steps: seq<Step>, u: State, last: Step)
    requires Inv(s) && Inv(Next(s, Create)) && Leads(Next(s, Create), steps, u)
    requires Count(steps, CallsSchedule) <= |s.ready| && Enabled(u, last) && CallsSchedule(last)
    ensures var t := |s.status|;
            && Inv(u) && t < |u.status| && u.status[t] == Ready
            && (Count(steps, CallsSchedule) == |s.ready| ==> Next(u, last).running == t)
  {
    var s1 := Next(s, Create);
    assert s1.ready[|s.ready|] == |s.status|;
    KthIsNext(s1, steps, u, |s.ready|, last);
    LeadsInv(s1, steps, u);
    assert |s.status| in u.ready;
  }

  /** A thread that yields runs on if no other is ready; otherwise those on the list
      run first, each once, and then it does. */
  lemma YieldedRuns(s: State, steps: seq<Step>, u: State, last: Step)
    requires Inv(s) && s.running != s.idle && Inv(Next(s, Yield)) && Leads(Next(s, Yield), steps, u)
    requires Count(steps, CallsSchedule) < |s.ready| && Enabled(u, last) && CallsSchedule(last)
    ensures Inv(u) && s.running < |u.status| && u.status[s.running] == Ready
    ensures Count(steps, CallsSchedule) == |s.ready| - 1 ==> Next(u, last).running == s.running
  {
    var s1 := Next(s, Yield);
    assert s1.ready == (s.ready + [s.running])[1..];
    assert s1.ready[|s.ready| - 1] == s.running;
    KthIsNext(s1, steps, u, |s.ready| - 1, last);
    LeadsInv(s1, steps, u);
    assert s.running in u.ready;
  }

  lemma YieldsToItself(s: State)
    requires Inv(s) && s.running != s.idle && s.ready == []
    ensures Next(s, Yield) == s
  {
    assert s.status[s.running := Running] == s.status;
  }

  /** A thread that blocks stays blocked until it is unblocked; idle, which no one
      unblocks, runs again when schedule() finds no other thread ready. */
  lemma BlockBlocks(s: State)
    requires Inv(s)
    ensures var s1 := Next(s, Block);
            s.running < |s1.status| && s1.status[s.running] == (if s1.running == s.running then Running else Blocked)
    ensures Next(s, Block).running == s.running <==> s.running == s.idle && s.ready == []
  {
    if s.ready != [] { FrontReady(s); }
  }

  lemma {:induction false} StaysBlocked(s: State, steps: seq<Step>, u: State, t: nat)
    requires Inv(s) && Leads(s, steps, u) && t < |s.status| && s.status[t] == Blocked && t != s.idle
    requires Unblock(t) !in steps
    ensures t < |u.status| && u.status[t] == Blocked && u.running != t
    decreases |steps|
  {
    if steps != [] {
      assert steps[0] in steps;
      StepInv(s, steps[0]);
      if s.ready != [] { FrontReady(s); }
      StaysBlocked(Next(s, steps[0]), steps[1..], u, t);
    }
  }

  /** A thread that exits is dying for ever, and runs no more. */
  lemma ExitDies(s: State, steps: seq<Step>, u: State)
    requires Inv(s) && Enabled(s, Exit) && Inv(Next(s, Exit)) && Leads(Next(s, Exit), steps, u)
    ensures s.running < |u.status| && u.status[s.running] == Dying && u.running != s.running
  {
    if s.ready != [] { FrontReady(s); }
    StaysDying(Next(s, Exit), steps, u, s.running);
  }

  lemma {:induction false} StaysDying(s: State, steps: seq<Step>, u: State, t: nat)
    requires Inv(s) && Leads(s, steps, u) && t < |s.status| && s.status[t] == Dying
    ensures t < |u.status| && u.status[t] == Dying && u.running != t
    decreases |steps|
  {
    if steps != [] {
      StepInv(s, steps[0]);
      if s.ready != [] { FrontReady(s); }
      StaysDying(Next(s, steps[0]), steps[1..], u, t);
    }
  }

  // ----- The code -----

  class Scheduler {
    var status: seq<Status>
    var readyList: seq<nat>
    var current: nat
    const idleThread: nat

    ghost function Abstract(): State
      reads this
    {
      State(status, readyList, current, idleThread)
    }

    ghost predicate Valid()
      reads this
    {
      Inv(Abstract())
    }

    /** After thread_start: thread 0 is main, thread 1 the idle thread. */
    constructor ()
      ensures Valid() && Abstract() == Start()
    {
      status, readyList, current, idleThread := [Running, Blocked], [], 0, 1;
    }

    method NextThreadToRun() returns (t: nat)
      requires Between(Abstract())
      modifies this`readyList
      ensures t == if old(readyList) == [] then idleThread else old(readyList)[0]
      ensures readyList == if old(readyList) == [] then [] else old(readyList)[1..]
    {
      if readyList == [] {
        t := idleThread;
      } else {
        t := readyList[0];
        readyList := readyList[1..];
      }
    }

    method Schedule()
      requires Between(Abstract())
      modifies this
      ensures old(readyList) != [] ==> old(readyList)[0] < |old(status)|
      ensures Valid() && Abstract() == Scheduled(old(Abstract()))
    {
      hide Inv;
      ScheduledInv(Abstract());
      var next := NextThreadToRun();
      current := next;
      status := status[current := Running];
    }

    method ThreadBlock()
      requires Valid()
      modifies this
      ensures Valid() && Abstract() == Next(old(Abstract()), Block)
      ensures current < |old(status)| && status == old(status)[old(current) := Blocked][current := Running]
    {
      StepInv(Abstract(), Block);
      status := status[current := Blocked];
      Schedule();
    }

    method ThreadUnblock(t: nat)
      requires Valid() && Enabled(Abstract(), Unblock(t))
      modifies this
      ensures Valid() && Abstract() == Next(old(Abstract()), Unblock(t))
      ensures readyList == old(readyList) + [t] && status == old(status)[t := Ready] && current == old(current)
    {
      StepInv(Abstract(), Unblock(t));
      readyList := readyList + [t];
      status := status[t := Ready];
    }

    method ThreadYield()
      requires Valid()
      modifies this
      ensures Valid() && Abstract() == Next(old(Abstract()), Yield)
      ensures current < |old(status)| && status == old(status)[old(current) := Ready][current := Running]
    {
      StepInv(Abstract(), Yield);
      PushDistinct(readyList, current);
      if current != idleThread { readyList := readyList + [current]; }
      status := status[current := Ready];
      Schedule();
    }

    method ThreadExit()
      requires Valid() && Enabled(Abstract(), Exit)
      modifies this
      ensures Valid() && Abstract() == Next(old(Abstract()), Exit)
      ensures current < |old(status)| && status == old(status)[old(current) := Dying][current := Running]
    {
      StepInv(Abstract(), Exit);
      status := status[current := Dying];
      Schedule();
    }

    method ThreadCreate() returns (t: nat)
      requires Valid()
      modifies this
      ensures Valid() && Abstract() == Next(old(Abstract()), Create) && t == |old(status)|
      ensures readyList == old(readyList) + [t] && status == old(status) + [Ready] && current == old(current)
    {
      StepInv(Abstract(), Create);
      t := |status|;
      status := status + [Blocked];
      readyList := readyList + [t];
      status := status[t := Ready];
    }
  }
}
