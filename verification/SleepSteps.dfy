/** thread_sleep and the timer with interrupts on between the insertion into the
    list, the initialisation of the semaphore and the wait on it
    (threads/thread.c), for any number of threads. */
module SleepSteps {
  import opened Sleep

  /** Where a thread is: not in thread_sleep; between the insertion and sema_init;
      after it; blocked on its semaphore, or unblocked and about to try again. */
  datatype Phase = Running | Listed | Ready | Waiting

  /** A thread's timer_semaphore.  init_thread clears it, which is not a
      semaphore yet: its list of waiters has no head or tail. */
  datatype Sem = Sem(inited: bool, value: nat)

  /** A panic is the end: list_remove asserts that its element is in a list. */
  datatype Machine = Panicked
                   | Machine(ticks: nat, waiting: seq<Sleeper>, calls: nat, phases: seq<Phase>, sems: seq<Sem>)

  datatype Step =
    | Join(t: nat, start: nat, ticks: int)
    | Init(t: nat)
    | Down(t: nat)
    | TimerTick

  /** Thread T has an entry in Q. */
  ghost predicate In(q: seq<Sleeper>, t: nat) { exists x :: x in q && x.tid == t }

  /** sema_up on every semaphore of WOKEN. */
  ghost function Upped(sems: seq<Sem>, woken: seq<Sleeper>): (u: seq<Sem>)
    ensures |u| == |sems|
    ensures forall t :: 0 <= t < |sems| ==>
                          u[t] == if In(woken, t) then Sem(sems[t].inited, sems[t].value + 1) else sems[t]
  {
    seq(|sems|, t requires 0 <= t < |sems| =>
      if In(woken, t) then Sem(sems[t].inited, sems[t].value + 1) else sems[t])
  }

  /** A sweep that ups a semaphore before its first initialisation panics: the
      queue of waiters seems not to be empty, and its front is a null pointer. */
  ghost predicate Trips(sems: seq<Sem>, woken: seq<Sleeper>) {
    exists x :: x in woken && x.tid < |sems| && !sems[x.tid].inited
  }

  ghost function Next(m: Machine, step: Step): Machine
  {
    if m.Panicked? || |m.sems| != |m.phases| then m else
    match step
    case Join(t, start, ticks) =>
      if t < |m.phases| && m.phases[t].Running? then
        m.(waiting := Enqueued(m.waiting, Sleeper(t, WakeupTime(start, ticks), m.ticks, m.calls)),
           calls := m.calls + 1, phases := m.phases[t := Listed])
      else m
    case Init(t) =>
      if t < |m.phases| && m.phases[t].Listed? then
        m.(phases := m.phases[t := Ready], sems := m.sems[t := Sem(true, 0)])
      else m
    case Down(t) =>
      if t >= |m.phases| || !(m.phases[t].Ready? || m.phases[t].Waiting?) then m
      else if m.sems[t].value == 0 then m.(phases := m.phases[t := Waiting])
      else m.(phases := m.phases[t := Running], sems := m.sems[t := m.sems[t].(value := m.sems[t].value - 1)])
    case TimerTick =>
      var woken := Awake(m.waiting, m.ticks + 1);
      if Trips(m.sems, woken) then Panicked
      else m.(ticks := m.ticks + 1, waiting := Asleep(m.waiting, m.ticks + 1), sems := Upped(m.sems, woken))
  }

  ghost function Runs(m: Machine, steps: seq<Step>): Machine
    decreases |steps|
  {
    if steps == [] then m else Runs(Next(m, steps[0]), steps[1..])
  }

  /** How many timer ticks there are in STEPS. */
  ghost function Ticks(steps: seq<Step>): nat {
    if steps == [] then 0 else (if steps[0].TimerTick? then 1 else 0) + Ticks(steps[1..])
  }

  // ----- What every step keeps -----

  /** A thread that is not in thread_sleep is not on the list; one that is there
      after its sema_init has a semaphore with the value 0. */
  ghost predicate ThreadOk(m: Machine, t: nat)
    requires m.Machine? && t < |m.phases| == |m.sems|
  {
    && (In(m.waiting, t) ==> !m.phases[t].Running?)
    && (m.phases[t].Ready? || m.phases[t].Waiting? ==>
          m.sems[t].inited && (In(m.waiting, t) ==> m.sems[t].value == 0))
  }

  ghost predicate Sound(m: Machine) {
    m.Machine? ==>
      && |m.sems| == |m.phases|
      && (forall t :: 0 <= t < |m.phases| ==> ThreadOk(m, t))
      && InOrder(m.waiting)
      && (forall x :: x in m.waiting ==> x.order < m.calls)
      && (forall x, y :: x in m.waiting && y in m.waiting && x.tid == y.tid ==> x == y)
  }

  /** A sweep leaves a thread on the list or wakes it, and not both. */
  lemma SweptOrNot(m: Machine)
    requires m.Machine? && Sound(m)
    ensures var asleep, woken := Asleep(m.waiting, m.ticks + 1), Awake(m.waiting, m.ticks + 1);
            && InOrder(asleep)
            && (forall x :: x in asleep <==> x in m.waiting && !Due(x, m.ticks + 1))
            && (forall t :: In(asleep, t) ==> In(m.waiting, t) && !In(woken, t))
            && (forall t :: In(m.waiting, t) && !In(asleep, t) ==> In(woken, t))
            && (forall t :: In(woken, t) ==> In(m.waiting, t))
  {
    hide InOrder, Asleep, Awake;
    SweepSeparates(m.waiting, m.ticks + 1);
  }

  /** Joining adds one entry, for that thread. */
  lemma JoinedQueue(q: seq<Sleeper>, s: Sleeper)
    requires InOrder(q) && forall x :: x in q ==> x.order < s.order
    ensures InOrder(Enqueued(q, s))
    ensures forall x :: x in Enqueued(q, s) <==> x in q || x == s
    ensures forall u :: In(Enqueued(q, s), u) <==> In(q, u) || u == s.tid
  {
    hide InOrder, Enqueued;
    EnqueuedInOrder(q, s);
    assert s in Enqueued(q, s);
  }

  lemma NextSound(m: Machine, step: Step)
    requires Sound(m)
    ensures Sound(Next(m, step))
  {
    hide InOrder, Asleep, Awake, Enqueued;
    var r := Next(m, step);
    if m.Machine? && step.TimerTick? {
      SweptOrNot(m);
    } else if m.Machine? && step.Join? {
      JoinedQueue(m.waiting, Sleeper(step.t, WakeupTime(step.start, step.ticks), m.ticks, m.calls));
      assert step.t < |m.phases| ==> ThreadOk(m, step.t);
    }
    if r.Machine? {
      forall t | 0 <= t < |r.phases| ensures ThreadOk(r, t) { assert ThreadOk(m, t); }
    }
  }

  /** No thread sleeps, and any of them may have slept before. */
  ghost predicate Initial(m: Machine) {
    m.Machine? && m.waiting == [] && |m.sems| == |m.phases| && forall t :: 0 <= t < |m.phases| ==> m.phases[t].Running?
  }

  lemma {:induction false} RunsSound(m: Machine, steps: seq<Step>)
    requires Sound(m)
    ensures Sound(Runs(m, steps))
    decreases |steps|
  {
    hide Sound;
    if steps != [] {
      NextSound(m, steps[0]);
      RunsSound(Next(m, steps[0]), steps[1..]);
    }
  }

  // ----- One call of thread_sleep -----

  /** The call of T that joined at SINCE for the time W has not initialised its
      semaphore: it is on the list until a tick comes that is past its time. */
  ghost predicate Pending(m: Machine, t: nat, w: int, since: nat, inited: bool) {
    m.Machine? ==>
      && t < |m.phases| == |m.sems| && m.phases[t].Listed? && since <= m.ticks
      && m.sems[t].inited == inited
      && (In(m.waiting, t) <==> !(m.ticks > since && m.ticks > w))
      && (forall x :: x in m.waiting && x.tid == t ==> x.wakeup == w)
      && (!inited ==> In(m.waiting, t))
  }

  lemma StillPending(m: Machine, step: Step, t: nat, w: int, since: nat, inited: bool)
    requires Sound(m) && Pending(m, t, w, since, inited) && step != Init(t)
    ensures Pending(Next(m, step), t, w, since, inited)
    ensures m.Machine? && Next(m, step).Machine? ==> Next(m, step).ticks == m.ticks + if step.TimerTick? then 1 else 0
  {
    hide InOrder, Asleep, Awake, Enqueued;
    if m.Machine? && step.TimerTick? {
      SweptOrNot(m);
    } else if m.Machine? && step.Join? {
      JoinedQueue(m.waiting, Sleeper(step.t, WakeupTime(step.start, step.ticks), m.ticks, m.calls));
    }
  }

  lemma {:induction false} UntilInit(m: Machine, steps: seq<Step>, t: nat, w: int, since: nat, inited: bool)
    requires Sound(m) && Pending(m, t, w, since, inited) && Init(t) !in steps
    ensures Pending(Runs(m, steps), t, w, since, inited)
    ensures var r := Runs(m, steps); m.Machine? && r.Machine? ==> r.ticks == m.ticks + Ticks(steps)
    decreases |steps|
  {
    hide Sound, Pending;
    if steps != [] {
      NextSound(m, steps[0]);
      StillPending(m, steps[0], t, w, since, inited);
      PanicStays(Next(m, steps[0]), steps[1..]);
      UntilInit(Next(m, steps[0]), steps[1..], t, w, since, inited);
    }
  }

  lemma {:induction false} PanicStays(m: Machine, steps: seq<Step>)
    ensures m.Panicked? ==> Runs(m, steps).Panicked?
    decreases |steps|
  {
    if steps != [] { PanicStays(Next(m, steps[0]), steps[1..]); }
  }

  /** In thread_sleep, off the list, and nothing is going to up its semaphore. */
  ghost predicate Lost(m: Machine, t: nat) {
    m.Machine? && t < |m.phases| == |m.sems| && (m.phases[t].Ready? || m.phases[t].Waiting?)
    && !In(m.waiting, t) && m.sems[t].value == 0
  }

  /** In thread_sleep and to be woken in time, or woken, or through. */
  ghost predicate OnCourse(m: Machine, t: nat, w: int) {
    m.Machine? && t < |m.phases| == |m.sems|
    && (if m.phases[t].Ready? || m.phases[t].Waiting? then
          if In(m.waiting, t) then forall x :: x in m.waiting && x.tid == t ==> x.wakeup == w
          else m.sems[t].value == 1
        else m.phases[t].Running?)
  }

  predicate Rejoins(step: Step, t: nat) { step.Join? && step.t == t }

  lemma FateKept(m: Machine, step: Step, t: nat, w: int)
    requires Sound(m) && !Rejoins(step, t)
    ensures Lost(m, t) ==> Next(m, step).Panicked? || Lost(Next(m, step), t)
    ensures OnCourse(m, t, w) ==> Next(m, step).Panicked? || OnCourse(Next(m, step), t, w)
  {
    hide InOrder, Asleep, Awake, Enqueued;
    if m.Machine? && step.TimerTick? {
      SweptOrNot(m);
      assert t < |m.phases| ==> ThreadOk(m, t);
    } else if m.Machine? && step.Join? {
      JoinedQueue(m.waiting, Sleeper(step.t, WakeupTime(step.start, step.ticks), m.ticks, m.calls));
    }
  }

  lemma {:induction false} FateSealed(m: Machine, steps: seq<Step>, t: nat, w: int)
    requires Sound(m) && forall i :: 0 <= i < |steps| ==> !Rejoins(steps[i], t)
    ensures Lost(m, t) ==> Runs(m, steps).Panicked? || Lost(Runs(m, steps), t)
    ensures OnCourse(m, t, w) ==> Runs(m, steps).Panicked? || OnCourse(Runs(m, steps), t, w)
    decreases |steps|
  {
    hide Sound, Lost, OnCourse;
    if steps != [] {
      NextSound(m, steps[0]);
      FateKept(m, steps[0], t, w);
      PanicStays(Next(m, steps[0]), steps[1..]);
      assert !Rejoins(steps[0], t);
      assert forall i :: 0 <= i < |steps[1..]| ==> steps[1..][i] == steps[i + 1];
      FateSealed(Next(m, steps[0]), steps[1..], t, w);
    }
  }

  /** The schedule of one call: T joins the list, BETWEEN happens, T initialises
      its semaphore, and AFTER happens. */
  ghost function Schedule(m: Machine, t: nat, start: nat, ticks: int, between: seq<Step>, after: seq<Step>): Machine {
    Runs(Next(Runs(Next(m, Join(t, start, ticks)), between), Init(t)), after)
  }

  /** The clock passes the thread's time before the thread gets to sema_init. */
  ghost predicate TooLate(m: Machine, start: nat, ticks: int, between: seq<Step>)
    requires m.Machine?
  {
    Ticks(between) >= 1 && m.ticks + Ticks(between) > start + (if ticks < 0 then 0 else ticks)
  }

  lemma Joined(m: Machine, t: nat, start: nat, ticks: int)
    requires Sound(m) && m.Machine? && t < |m.phases| && m.phases[t].Running?
    ensures var j := Next(m, Join(t, start, ticks));
            && j.Machine? && j.ticks == m.ticks && Sound(j)
            && Pending(j, t, WakeupTime(start, ticks), m.ticks, m.sems[t].inited)
  {
    hide InOrder;
    NextSound(m, Join(t, start, ticks));
    JoinedQueue(m.waiting, Sleeper(t, WakeupTime(start, ticks), m.ticks, m.calls));
  }

  lemma Initialised(m: Machine, t: nat, w: int, since: nat, inited: bool)
    requires Sound(m) && m.Machine? && Pending(m, t, w, since, inited)
    ensures var r := Next(m, Init(t)); if m.ticks > since && m.ticks > w then Lost(r, t) else OnCourse(r, t, w)
  {
  }

  /** Whether a call is woken depends on the schedule alone, from any state that can
      be reached.  If the clock passes its time before sema_init, then the thread
      sleeps for ever, and if it has never slept before, the kernel panics.
      Otherwise it stays on course: it is on the list with its time, or its
      semaphore is up, or it is through. */
  lemma LostExactlyWhenTooLate(m0: Machine, before: seq<Step>, t: nat, start: nat, ticks: int,
                               between: seq<Step>, after: seq<Step>)
    requires Initial(m0)
    requires var m := Runs(m0, before); m.Machine? && t < |m.phases| == |m.sems| && m.phases[t].Running?
    requires Init(t) !in between && forall i :: 0 <= i < |after| ==> !Rejoins(after[i], t)
    ensures var m := Runs(m0, before);
            var r := Schedule(m, t, start, ticks, between, after);
            && (TooLate(m, start, ticks, between) && !m.sems[t].inited ==> r.Panicked?)
            && (r.Machine? ==> (Lost(r, t) <==> TooLate(m, start, ticks, between)))
            && (r.Machine? ==> (OnCourse(r, t, WakeupTime(start, ticks)) <==> !TooLate(m, start, ticks, between)))
  {
    hide Sound, Pending, Lost, OnCourse;
    InitialSound(m0);
    RunsSound(m0, before);
    var m := Runs(m0, before);
    var w := WakeupTime(start, ticks);
    var inited := m.sems[t].inited;
    var j := Next(m, Join(t, start, ticks));
    Joined(m, t, start, ticks);
    RunsSound(j, between);
    UntilInit(j, between, t, w, m.ticks, inited);
    var b := Runs(j, between);
    NextSound(b, Init(t));
    var i := Next(b, Init(t));
    PanicStays(i, after);
    if b.Machine? {
      PendingInited(b, t, w, m.ticks, inited);
      Initialised(b, t, w, m.ticks, inited);
      FateSealed(i, after, t, w);
      NotBoth(Runs(i, after), t, w);
    }
  }

  lemma InitialSound(m: Machine)
    requires Initial(m)
    ensures Sound(m)
  {
  }

  lemma PendingInited(m: Machine, t: nat, w: int, since: nat, inited: bool)
    requires m.Machine? && Pending(m, t, w, since, inited)
    ensures inited || !(m.ticks > since && m.ticks > w)
  {
  }

  lemma NotBoth(m: Machine, t: nat, w: int)
    ensures !(Lost(m, t) && OnCourse(m, t, w))
  {
  }

  /** On course means woken: a thread whose time is past is not on the list after
      the next tick, and then one pass of sema_down gets it through. */
  lemma OnCourseWakes(m: Machine, t: nat, w: int)
    requires Sound(m) && OnCourse(m, t, w) && m.ticks >= w
    ensures var r := Next(m, TimerTick);
            r.Machine? ==> !In(r.waiting, t) && Next(r, Down(t)).Machine? && Next(r, Down(t)).phases[t].Running?
  {
    hide InOrder, Asleep, Awake;
    SweptOrNot(m);
    assert ThreadOk(m, t);
    assert forall x :: x in m.waiting && x.tid == t ==> Due(x, m.ticks + 1);
  }

  /** One thread alone, sleeping for no time at all, with one tick before sema_init:
      lost if it has slept before, and a panic if it has not. */
  lemma LateInitExample(inited: bool)
    ensures var m := Machine(5, [], 0, [Running], [Sem(inited, 0)]);
            var r := Schedule(m, 0, 5, 0, [TimerTick], []);
            if inited then Lost(r, 0) else r.Panicked?
  {
    var m := Machine(5, [], 0, [Running], [Sem(inited, 0)]);
    var s := Sleeper(0, 5, 5, 0);
    var j := Next(m, Join(0, 5, 0));
    assert j.waiting == [s];
    assert Due(s, 6) && [s][1..] == [] && Awake([], 6) == [] && Asleep([], 6) == [];
    assert Awake([s], 6) == [s];
    assert Asleep([s], 6) == [];
    assert In([s], 0);
    var b := Next(j, TimerTick);
    assert Runs(j, [TimerTick]) == Runs(b, []) == b;
    assert Trips(j.sems, [s]) <==> !inited;
  }
}
