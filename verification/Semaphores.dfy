/** A semaphore among any number of threads, step by step (threads/synch.c).
    Each section with interrupts off is one step; between the steps of one
    thread, any others may run. */
module Semaphores {

  import opened Counting

  // ----- The machine -----

  /** Where a thread is: not in sema_down, blocked in it, or unblocked and about
      to test the value again. */
  datatype Pc = Out | Blocked | Woken

  datatype State = State(value: nat, waiters: seq<nat>, pcs: seq<Pc>)

  datatype Step = Down(t: nat) | TryDown(t: nat) | Up(byThread: nat) | UpFromInterrupt

  /** The pass of sema_down's loop that thread T makes next: it takes one, or it
      queues up and blocks. */
  function SemaDown(s: State, t: nat): State
    requires t < |s.pcs|
  {
    if s.value == 0 then s.(waiters := s.waiters + [t], pcs := s.pcs[t := Blocked])
    else s.(value := s.value - 1, pcs := s.pcs[t := Out])
  }

  /** sema_try_down, with what it returns. */
  function SemaTryDown(s: State): (State, bool) {
    if s.value > 0 then (s.(value := s.value - 1), true) else (s, false)
  }

  function SemaUp(s: State): State
    requires s.waiters != [] ==> s.waiters[0] < |s.pcs|
  {
    var s1 := if s.waiters == [] then s else s.(waiters := s.waiters[1..], pcs := s.pcs[s.waiters[0] := Woken]);
    s1.(value := s.value + 1)
  }

  predicate Enabled(s: State, step: Step) {
    match step
    case Down(t) => t < |s.pcs| && s.pcs[t] != Blocked
    case TryDown(t) => t < |s.pcs| && s.pcs[t] == Out
    case Up(t) => t < |s.pcs| && s.pcs[t] == Out
    case UpFromInterrupt => true
  }

  function Next(s: State, step: Step): State
    requires Enabled(s, step) && (s.waiters != [] ==> s.waiters[0] < |s.pcs|)
  {
    match step
    case Down(t) => SemaDown(s, t)
    case TryDown(t) => SemaTryDown(s).0
    case Up(t) => SemaUp(s)
    case UpFromInterrupt => SemaUp(s)
  }

  /** The step is a down that goes through: sema_down returns, or sema_try_down
      returns true. */
  predicate GoesThrough(s: State, step: Step)
    requires Enabled(s, step) && (s.waiters != [] ==> s.waiters[0] < |s.pcs|)
  {
    match step
    case Down(t) => t < |Next(s, step).pcs| && Next(s, step).pcs[t] == Out
    case TryDown(t) => SemaTryDown(s).1
    case _ => false
  }

  // ----- What every step keeps -----

  /** The queue holds the blocked threads, each once. */
  ghost predicate QueueOk(s: State) {
    && Distinct(s.waiters)
    && forall t: nat :: t in s.waiters <==> t < |s.pcs| && s.pcs[t] == Blocked
  }

  predicate IsWoken(pc: Pc) { pc == Woken }

  ghost predicate Inv(s: State) {
    && QueueOk(s)
    && (s.waiters != [] ==> s.value <= Count(s.pcs, IsWoken))
  }

  /** sema_init. */
  ghost function Start(init: nat, threads: nat): (s: State)
    ensures Inv(s)
  {
    State(init, [], seq(threads, _ => Out))
  }

  lemma FrontBlocked(s: State)
    requires QueueOk(s) && s.waiters != []
    ensures s.waiters[0] < |s.pcs| && s.pcs[s.waiters[0]] == Blocked
  {
    assert s.waiters[0] in s.waiters;
  }

  lemma PopQueue(s: State)
    requires QueueOk(s) && s.waiters != []
    ensures s.waiters[0] < |s.pcs|
    ensures QueueOk(s.(waiters := s.waiters[1..], pcs := s.pcs[s.waiters[0] := Woken]))
  {
    FrontBlocked(s);
    PopDistinct(s.waiters);
  }

  lemma UpInv(s: State)
    requires Inv(s)
    ensures s.waiters != [] ==> s.waiters[0] < |s.pcs|
    ensures Inv(SemaUp(s))
  {
    hide QueueOk;
    if s.waiters != [] {
      FrontBlocked(s);
      PopQueue(s);
      CountUpdate(s.pcs, s.waiters[0], Woken, IsWoken);
      SameQueue(s.(waiters := s.waiters[1..], pcs := s.pcs[s.waiters[0] := Woken]), SemaUp(s));
    } else {
      SameQueue(s, SemaUp(s));
    }
  }

  lemma SameQueue(s: State, s': State)
    requires QueueOk(s) && s'.waiters == s.waiters && s'.pcs == s.pcs
    ensures QueueOk(s')
  {
  }

  lemma DownInv(s: State, t: nat)
    requires Inv(s) && t < |s.pcs| && s.pcs[t] != Blocked
    ensures Inv(SemaDown(s, t))
  {
    CountUpdate(s.pcs, t, Blocked, IsWoken);
    CountUpdate(s.pcs, t, Out, IsWoken);
  }

  /** Every step keeps the invariant, and sema_up unblocks only a blocked thread. */
  lemma StepInv(s: State, step: Step)
    requires Inv(s) && Enabled(s, step)
    ensures s.waiters != [] ==> s.waiters[0] < |s.pcs| && s.pcs[s.waiters[0]] == Blocked
    ensures Inv(Next(s, step))
  {
    hide QueueOk;
    if s.waiters != [] { FrontBlocked(s); }
    match step
    case Down(t) => DownInv(s, t);
    case TryDown(t) => SameQueue(s, Next(s, step));
    case Up(t) => UpInv(s);
    case UpFromInterrupt => UpInv(s);
  }

  // ----- All interleavings -----

  /** S leads to T by the steps, in this order. */
  ghost predicate Leads(s: State, steps: seq<Step>, t: State)
    requires Inv(s)
    decreases |steps|
  {
    if steps == [] then t == s
    else Enabled(s, steps[0]) && (StepInv(s, steps[0]); Leads(Next(s, steps[0]), steps[1..], t))
  }

  lemma {:induction false} LeadsInv(s: State, steps: seq<Step>, t: State)
    requires Inv(s) && Leads(s, steps, t)
    ensures Inv(t) && |t.pcs| == |s.pcs|
    decreases |steps|
  {
    hide Inv;
    if steps != [] {
      StepInv(s, steps[0]);
      LeadsInv(Next(s, steps[0]), steps[1..], t);
    }
  }

  /** How many downs of a run go through. */
  ghost function Passes(s: State, steps: seq<Step>, t: State): nat
    requires Inv(s) && Leads(s, steps, t)
    decreases |steps|
  {
    if steps == [] then 0
    else
      StepInv(s, steps[0]);
      (if GoesThrough(s, steps[0]) then 1 else 0) + Passes(Next(s, steps[0]), steps[1..], t)
  }

  lemma {:induction false} Conserved(s: State, steps: seq<Step>, t: State)
    requires Inv(s) && Leads(s, steps, t)
    ensures t.value + Passes(s, steps, t) == s.value + Count(steps, IsUp)
    decreases |steps|
  {
    hide Inv;
    if steps != [] {
      StepInv(s, steps[0]);
      Conserved(Next(s, steps[0]), steps[1..], t);
    }
  }

  /** Over all interleavings of any number of threads: the value and the downs that
      have gone through are the initial value and the ups there have been; and while
      threads wait, the value is at most the number of threads that were woken and
      have not tried again.  So no wakeup is lost: a positive value with a thread
      blocked means that some woken thread is about to get through. */
  lemma AllInterleavings(init: nat, threads: nat, steps: seq<Step>, s: State)
    requires Leads(Start(init, threads), steps, s)
    ensures s.value + Passes(Start(init, threads), steps, s) == init + Count(steps, IsUp)
    ensures s.waiters != [] ==> s.value <= Count(s.pcs, IsWoken)
    ensures s.value > 0 && (exists t :: 0 <= t < |s.pcs| && s.pcs[t] == Blocked) ==>
              exists t :: 0 <= t < |s.pcs| && s.pcs[t] == Woken && SemaDown(s, t).pcs[t] == Out
  {
    LeadsInv(Start(init, threads), steps, s);
    Conserved(Start(init, threads), steps, s);
    if s.value > 0 && exists t :: 0 <= t < |s.pcs| && s.pcs[t] == Blocked {
      var b: nat :| b < |s.pcs| && s.pcs[b] == Blocked;
      assert b in s.waiters;
      CountSome(s.pcs, IsWoken);
      var t :| 0 <= t < |s.pcs| && s.pcs[t] == Woken;
      assert SemaDown(s, t).pcs[t] == Out;
    }
  }

  /** A down goes through exactly if the value is positive; sema_down blocks
      otherwise. */
  lemma ThroughExactlyIfPositive(s: State, step: Step)
    requires Inv(s) && Enabled(s, step) && (step.Down? || step.TryDown?)
    ensures s.waiters != [] ==> s.waiters[0] < |s.pcs|
    ensures GoesThrough(s, step) <==> s.value > 0
    ensures step.Down? && s.value == 0 ==> Next(s, step).pcs[step.t] == Blocked
  {
    StepInv(s, step);
  }

  /** The thread that an up wakes gets through, if its next pass follows at once. */
  lemma UpThenThrough(s: State, up: Step)
    requires Inv(s) && s.waiters != [] && Enabled(s, up) && IsUp(up)
    ensures var w := s.waiters[0];
            && w < |s.pcs| && Inv(Next(s, up)) && Enabled(Next(s, up), Down(w))
            && (Next(s, up).waiters != [] ==> Next(s, up).waiters[0] < |s.pcs|)
            && GoesThrough(Next(s, up), Down(w))
  {
    StepInv(s, up);
    StepInv(Next(s, up), Down(s.waiters[0]));
  }

  // ----- Order -----

  predicate IsUp(step: Step) { step.Up? || step.UpFromInterrupt? }

  /** A thread with K threads before it in the queue stays in the queue through
      the next K ups, moving up one place with each, and the one after that wakes
      it, whatever else happens in between. */
  lemma {:induction false} FirstComeFirstServed(s: State, steps: seq<Step>, t: State, k: nat)
    requires Inv(s) && Leads(s, steps, t) && k < |s.waiters| && Count(steps, IsUp) <= k
    ensures k - Count(steps, IsUp) < |t.waiters| && t.waiters[k - Count(steps, IsUp)] == s.waiters[k]
    ensures k == Count(steps, IsUp) ==> Inv(t) && s.waiters[k] < |t.pcs| && SemaUp(t).pcs[s.waiters[k]] == Woken
    decreases |steps|
  {
    hide Inv;
    LeadsInv(s, steps, t);
    if steps != [] {
      StepInv(s, steps[0]);
      var s' := Next(s, steps[0]);
      var k' := if IsUp(steps[0]) then k - 1 else k;
      assert s'.waiters[k'] == s.waiters[k];
      FirstComeFirstServed(s', steps[1..], t, k');
    } else {
      InvQueue(t);
      if k == 0 { FrontBlocked(t); }
    }
  }

  /** A thread that blocks with N others waiting is woken by the (N+1)th up from
      then on. */
  lemma BlockedIsServed(s: State, t: nat, steps: seq<Step>, u: State)
    requires Inv(s) && Enabled(s, Down(t)) && s.value == 0
    requires Inv(SemaDown(s, t)) && Leads(SemaDown(s, t), steps, u) && Count(steps, IsUp) == |s.waiters|
    ensures Inv(u) && t < |u.pcs| && (u.waiters != [] ==> u.waiters[0] < |u.pcs|) && SemaUp(u).pcs[t] == Woken
  {
    var s1 := SemaDown(s, t);
    FirstComeFirstServed(s1, steps, u, |s.waiters|);
    assert s1.waiters[|s.waiters|] == t;
    InvQueue(u);
    FrontBlocked(u);
  }

  lemma InvQueue(s: State)
    requires Inv(s)
    ensures QueueOk(s)
  {
  }
}
