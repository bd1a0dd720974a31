/** Timed sleep (threads/thread.c, devices/timer.c): the list of sleepers in the
    order they are to wake up, and the sweep of every timer tick, which removes
    elements from the list while it walks along it. */
module Sleep {
  import opened Counting
  import opened ListOps
  import opened ListOrder
  import opened Lists

  /** A call of thread_sleep: the thread, the time it asked for, and, to tell
      calls apart, when and as which call it joined the list. */
  datatype Sleeper = Sleeper(tid: nat, wakeup: int, since: nat, order: nat)

  predicate WakeTimeCompare(a: Sleeper, b: Sleeper) { a.wakeup < b.wakeup }

  /** A sleeper is due when the clock is past its time. */
  predicate Due(s: Sleeper, ticks: int) { ticks > s.wakeup }

  ghost function Awake(q: seq<Sleeper>, ticks: int): seq<Sleeper> {
    if q == [] then [] else (if Due(q[0], ticks) then [q[0]] else []) + Awake(q[1..], ticks)
  }

  ghost function Asleep(q: seq<Sleeper>, ticks: int): seq<Sleeper> {
    if q == [] then [] else (if Due(q[0], ticks) then [] else [q[0]]) + Asleep(q[1..], ticks)
  }

  /** Q with S in its place: behind those that wake no later. */
  ghost function Enqueued(q: seq<Sleeper>, s: Sleeper): seq<Sleeper> {
    if q == [] then [s] else if WakeTimeCompare(s, q[0]) then [s] + q else [q[0]] + Enqueued(q[1..], s)
  }

  // ----- The list code -----

  ghost function Data(s: seq<Elem<Sleeper>>): (d: seq<Sleeper>)
    ensures |d| == |s|
  {
    seq(|s|, i requires 0 <= i < |s| => s[i].data)
  }

  lemma DataTail(s: seq<Elem<Sleeper>>)
    requires s != []
    ensures Data(s)[1..] == Data(s[1..]) && Data(s)[0] == s[0].data
  {
  }

  lemma {:induction false} InsertedData(s: seq<Elem<Sleeper>>, x: Elem<Sleeper>)
    ensures Data(Inserted(s, x, WakeTimeCompare)) == Enqueued(Data(s), x.data)
  {
    if s != [] && !Before(x, s[0], WakeTimeCompare) {
      InsertedData(s[1..], x);
      DataTail(s);
      assert Inserted(s, x, WakeTimeCompare) == [s[0]] + Inserted(s[1..], x, WakeTimeCompare);
      DataTail(Inserted(s, x, WakeTimeCompare));
    } else {
      var t := Inserted(s, x, WakeTimeCompare);
      assert t == [x] + s;
      assert Data(t) == [x.data] + Data(s);
    }
  }

  /** The part of thread_sleep that has interrupts off. */
  method ThreadSleep(waitList: List<Sleeper>, waitElem: Elem<Sleeper>)
    requires waitList.Valid() && waitElem !in waitList.all && waitElem !in waitList.Repr
    modifies waitList, waitList.Repr, waitElem
    ensures waitList.Valid() && waitList.Repr == old(waitList.Repr) + {waitElem}
    ensures Data(waitList.Nodes()) == Enqueued(old(Data(waitList.Nodes())), waitElem.data)
  {
    InsertedData(waitList.Nodes(), waitElem);
    InsertOrdered(waitList, waitElem, WakeTimeCompare);
  }

  /** A sweep under way over the list Q: C is the list now, from head to tail, and
      it has been swept up to K. */
  ghost predicate Sweeping(q: seq<Sleeper>, c: seq<Elem<Sleeper>>, k: nat, woken: seq<Sleeper>, ticks: int) {
    && 1 <= k < |c|
    && Asleep(q, ticks) == Data(c[1..k]) + Asleep(Data(c[k..|c| - 1]), ticks)
    && Awake(q, ticks) == woken + Awake(Data(c[k..|c| - 1]), ticks)
  }

  lemma SweepStep(q: seq<Sleeper>, c: seq<Elem<Sleeper>>, k: nat, woken: seq<Sleeper>, ticks: int)
    requires Sweeping(q, c, k, woken, ticks) && k < |c| - 1
    ensures Due(c[k].data, ticks) ==> Sweeping(q, c[..k] + c[k + 1..], k, woken + [c[k].data], ticks)
    ensures !Due(c[k].data, ticks) ==> Sweeping(q, c, k + 1, woken, ticks)
  {
    var rest := c[k..|c| - 1];
    DataTail(rest);
    assert rest[1..] == c[k + 1..|c| - 1];
    var d := c[..k] + c[k + 1..];
    assert d[k..|d| - 1] == rest[1..] && d[1..k] == c[1..k];
    assert Data(c[1..k + 1]) == Data(c[1..k]) + [c[k].data];
  }

  lemma SweepStarts(c: seq<Elem<Sleeper>>, ticks: int)
    requires |c| >= 2
    ensures Sweeping(Data(Interior(c)), c, 1, [], ticks)
  {
    assert Data(c[1..1]) == [];
  }

  lemma SweepEnds(q: seq<Sleeper>, c: seq<Elem<Sleeper>>, woken: seq<Sleeper>, ticks: int)
    requires |c| >= 2 && Sweeping(q, c, |c| - 1, woken, ticks)
    ensures Data(Interior(c)) == Asleep(q, ticks) && woken == Awake(q, ticks)
  {
  }

  /** The sweep's action on one sleeper: its semaphore is upped if it is due.  A
      sleeper that is taken off the list keeps its link to the next one. */
  method WakeHelper(t: Elem<Sleeper>, waitList: List<Sleeper>, ticks: int, ghost k: nat) returns (up: bool)
    requires waitList.Valid() && 1 <= k < |waitList.all| - 1 && waitList.all[k] == t
    modifies waitList, waitList.all[k - 1], waitList.all[k + 1]
    ensures waitList.Valid() && waitList.Repr <= old(waitList.Repr)
    ensures up == Due(t.data, ticks)
    ensures waitList.all == if up then old(waitList.all)[..k] + old(waitList.all)[k + 1..] else old(waitList.all)
    ensures t.next == waitList.all[if up then k else k + 1]
  {
    hide Chain;
    up := ticks > t.data.wakeup;
    if up {
      var _ := Remove(t, waitList, k);
    } else {
      var _ := Next(t, waitList, k);
    }
  }

  /** The sweep of one timer tick: the threads whose semaphore it ups, in order. */
  method WakeRoutine(waitList: List<Sleeper>, ticks: int) returns (woken: seq<Sleeper>)
    requires waitList.Valid()
    modifies waitList, waitList.Repr
    ensures waitList.Valid()
    ensures woken == Awake(old(Data(waitList.Nodes())), ticks)
    ensures Data(waitList.Nodes()) == Asleep(old(Data(waitList.Nodes())), ticks)
  {
    hide Chain, Sweeping, Awake, Asleep, Data, Due;
    ghost var q := Data(waitList.Nodes());
    woken := [];
    ghost var k: nat := 1;
    SweepStarts(waitList.all, ticks);
    var e := waitList.Begin();
    while e != waitList.tail
      invariant waitList.Valid() && waitList.Repr <= old(waitList.Repr)
      invariant 1 <= k < |waitList.all| && e == waitList.all[k]
      invariant Sweeping(q, waitList.all, k, woken, ticks)
      decreases |waitList.all| - k
    {
      SameIndex(waitList.all, k, |waitList.all| - 1);
      SweepStep(q, waitList.all, k, woken, ticks);
      var up := WakeHelper(e, waitList, ticks, k);
      if up { woken := woken + [e.data]; } else { k := k + 1; }
      e := e.next;
    }
    SameIndex(waitList.all, k, |waitList.all| - 1);
    SweepEnds(q, waitList.all, woken, ticks);
  }

  // ----- Runs -----

  /** The clock, the list, how many calls there have been, and which sleeper was
      woken at which tick. */
  datatype State = State(ticks: nat, waiting: seq<Sleeper>, calls: nat, log: seq<Wakeup>)

  datatype Wakeup = Wakeup(sleeper: Sleeper, tick: nat)

  /** A thread calls timer_sleep for TICKS, having read the clock at START and
      joining the list now; or the timer interrupts. */
  datatype Step = Call(tid: nat, start: nat, ticks: int) | Tick

  /** timer_sleep takes negative times for 0. */
  function WakeupTime(start: nat, ticks: int): int { start + if ticks < 0 then 0 else ticks }

  ghost function Stamped(woken: seq<Sleeper>, tick: nat): (w: seq<Wakeup>)
    ensures |w| == |woken| && forall i :: 0 <= i < |w| ==> w[i] == Wakeup(woken[i], tick)
  {
    seq(|woken|, i requires 0 <= i < |woken| => Wakeup(woken[i], tick))
  }

  ghost function Stepped(s: State, step: Step): State {
    match step
    case Call(tid, start, ticks) =>
      s.(waiting := Enqueued(s.waiting, Sleeper(tid, WakeupTime(start, ticks), s.ticks, s.calls)), calls := s.calls + 1)
    case Tick =>
      State(s.ticks + 1, Asleep(s.waiting, s.ticks + 1), s.calls,
            s.log + Stamped(Awake(s.waiting, s.ticks + 1), s.ticks + 1))
  }

  ghost function Run(s: State, steps: seq<Step>): State
    decreases |steps|
  {
    if steps == [] then s else Run(Stepped(s, steps[0]), steps[1..])
  }

  /** A is before B: it wakes earlier, or at the same time and called earlier. */
  predicate Earlier(a: Sleeper, b: Sleeper) { a.wakeup < b.wakeup || (a.wakeup == b.wakeup && a.order < b.order) }

  ghost predicate InOrder(q: seq<Sleeper>) { forall i, j :: 0 <= i < j < |q| ==> Earlier(q[i], q[j]) }

  /** The tick that wakes S: the first after it joined that is past its time. */
  function WakeTick(s: Sleeper): int { 1 + if s.wakeup < s.since then s.since else s.wakeup }

  /** The call with number O is in Q. */
  ghost predicate Has(q: seq<Sleeper>, o: nat) { exists x :: x in q && x.order == o }

  ghost predicate Logged(log: seq<Wakeup>, o: nat) { exists w :: w in log && w.sleeper.order == o }

  ghost predicate EachOnce(q: seq<Sleeper>) { forall i, j :: 0 <= i < j < |q| ==> q[i].order != q[j].order }

  ghost predicate LoggedOnce(log: seq<Wakeup>) {
    forall i, j :: 0 <= i < j < |log| ==> log[i].sleeper.order != log[j].sleeper.order
  }

  /** Every call so far waits or has been woken, not both, and neither twice. */
  ghost predicate Partition(waiting: seq<Sleeper>, log: seq<Wakeup>, calls: nat) {
    && (forall o: nat :: o < calls <==> Has(waiting, o) || Logged(log, o))
    && (forall o: nat :: !(Has(waiting, o) && Logged(log, o)))
    && EachOnce(waiting) && LoggedOnce(log)
  }

  /** A was woken before B: at an earlier tick or, at the same one, in list order. */
  predicate WokenBefore(a: Wakeup, b: Wakeup) {
    a.tick < b.tick || (a.tick == b.tick && Earlier(a.sleeper, b.sleeper))
  }

  ghost predicate LogInOrder(log: seq<Wakeup>) { forall i, j :: 0 <= i < j < |log| ==> WokenBefore(log[i], log[j]) }

  ghost predicate Inv(s: State) {
    && InOrder(s.waiting)
    && (forall x :: x in s.waiting ==> x.order < s.calls && x.since <= s.ticks < WakeTick(x))
    && (forall w :: w in s.log ==> w.tick == WakeTick(w.sleeper) <= s.ticks)
    && Partition(s.waiting, s.log, s.calls)
    && LogInOrder(s.log)
  }

  lemma {:induction false} EnqueuedInOrder(q: seq<Sleeper>, s: Sleeper)
    requires InOrder(q) && forall x :: x in q ==> x.order < s.order
    ensures InOrder(Enqueued(q, s)) && |Enqueued(q, s)| == |q| + 1
    ensures forall x :: x in Enqueued(q, s) <==> x in q || x == s
  {
    if q != [] && !WakeTimeCompare(s, q[0]) {
      EnqueuedInOrder(q[1..], s);
      var t := Enqueued(q[1..], s);
      forall j | 0 <= j < |t| ensures Earlier(q[0], t[j]) {
        assert t[j] in t;
        if t[j] != s {
          var m :| 0 <= m < |q[1..]| && q[1..][m] == t[j];
          assert Earlier(q[0], q[m + 1]);
        }
      }
    } else {
      forall j | 0 <= j < |q| ensures Earlier(s, q[j]) { if j > 0 { assert Earlier(q[0], q[j]); } }
      assert Enqueued(q, s) == [s] + q;
    }
  }

  /** The sweep separates those that are due from those that are not, in order. */
  lemma {:induction false} SweepSeparates(q: seq<Sleeper>, ticks: int)
    requires InOrder(q)
    ensures InOrder(Asleep(q, ticks)) && InOrder(Awake(q, ticks))
    ensures |Asleep(q, ticks)| + |Awake(q, ticks)| == |q|
    ensures forall x :: x in Asleep(q, ticks) <==> x in q && !Due(x, ticks)
    ensures forall x :: x in Awake(q, ticks) <==> x in q && Due(x, ticks)
  {
    if q != [] {
      SweepSeparates(q[1..], ticks);
      assert forall x :: x in q[1..] ==> Earlier(q[0], x);
      assert q == [q[0]] + q[1..];
    }
  }

  lemma {:induction false} EnqueuedOnce(q: seq<Sleeper>, s: Sleeper)
    requires EachOnce(q) && !Has(q, s.order)
    ensures EachOnce(Enqueued(q, s))
    ensures forall o :: Has(Enqueued(q, s), o) <==> Has(q, o) || o == s.order
  {
    var t := Enqueued(q, s);
    if q != [] && !WakeTimeCompare(s, q[0]) {
      assert forall o :: Has(q, o) <==> Has(q[1..], o) || o == q[0].order by { assert q == [q[0]] + q[1..]; }
      EnqueuedOnce(q[1..], s);
      FirstOnce(q);
      ConsOnce(q[0], t[1..]);
      assert t == [q[0]] + t[1..];
    } else {
      ConsOnce(s, q);
    }
  }

  lemma FirstOnce(q: seq<Sleeper>)
    requires EachOnce(q) && q != []
    ensures EachOnce(q[1..]) && !Has(q[1..], q[0].order)
  {
  }

  lemma ConsOnce(x: Sleeper, q: seq<Sleeper>)
    requires EachOnce(q) && !Has(q, x.order)
    ensures EachOnce([x] + q)
    ensures forall o :: Has([x] + q, o) <==> Has(q, o) || o == x.order
  {
    assert forall y :: y in [x] + q <==> y == x || y in q;
    assert forall j :: 0 <= j < |q| ==> q[j] in q;
  }

  lemma {:induction false} SweepOnce(q: seq<Sleeper>, ticks: int)
    requires EachOnce(q)
    ensures EachOnce(Asleep(q, ticks)) && EachOnce(Awake(q, ticks))
    ensures forall o :: Has(q, o) <==> Has(Asleep(q, ticks), o) || Has(Awake(q, ticks), o)
    ensures forall o :: !(Has(Asleep(q, ticks), o) && Has(Awake(q, ticks), o))
  {
    if q != [] {
      FirstOnce(q);
      SweepOnce(q[1..], ticks);
      ConsOnce(q[0], q[1..]);
      assert q == [q[0]] + q[1..];
      if Due(q[0], ticks) { ConsOnce(q[0], Awake(q[1..], ticks)); } else { ConsOnce(q[0], Asleep(q[1..], ticks)); }
    }
  }

  /** A call that joins is one more that waits. */
  lemma PartitionJoin(waiting: seq<Sleeper>, log: seq<Wakeup>, calls: nat, s: Sleeper)
    requires Partition(waiting, log, calls) && s.order == calls
    ensures Partition(Enqueued(waiting, s), log, calls + 1)
  {
    hide EachOnce, LoggedOnce, Has, Logged;
    assert !Has(waiting, calls) && !Logged(log, calls);
    EnqueuedOnce(waiting, s);
  }

  /** What a sweep adds to the log is what it takes from the list. */
  lemma PartitionSweep(waiting: seq<Sleeper>, log: seq<Wakeup>, calls: nat, tick: nat)
    requires Partition(waiting, log, calls)
    ensures Partition(Asleep(waiting, tick), log + Stamped(Awake(waiting, tick), tick), calls)
  {
    hide Asleep, Awake;
    SweepOnce(waiting, tick);
    var woken := Awake(waiting, tick);
    var w := Stamped(woken, tick);
    forall o ensures Logged(log + w, o) <==> Logged(log, o) || Has(woken, o) {
      assert forall i :: 0 <= i < |woken| ==> w[i] in w && w[i].sleeper == woken[i];
      assert forall v :: v in log + w <==> v in log || v in w;
    }
    forall i, j | 0 <= i < |log| && 0 <= j < |w| ensures log[i].sleeper.order != w[j].sleeper.order {
      assert log[i] in log && woken[j] in woken;
      assert Logged(log, log[i].sleeper.order) && Has(woken, woken[j].order);
    }
    assert EachOnce(woken);
  }

  /** The threads woken by a sweep come after all those woken before. */
  lemma LogGrows(log: seq<Wakeup>, woken: seq<Sleeper>, tick: nat)
    requires LogInOrder(log) && InOrder(woken) && forall w :: w in log ==> w.tick < tick
    ensures LogInOrder(log + Stamped(woken, tick))
  {
    assert forall i :: 0 <= i < |log| ==> log[i] in log;
  }

  lemma StepInv(s: State, step: Step)
    requires Inv(s)
    ensures Inv(Stepped(s, step))
  {
    hide InOrder, Partition, LogInOrder;
    match step
    case Call(tid, start, ticks) =>
      EnqueuedInOrder(s.waiting, Sleeper(tid, WakeupTime(start, ticks), s.ticks, s.calls));
      PartitionJoin(s.waiting, s.log, s.calls, Sleeper(tid, WakeupTime(start, ticks), s.ticks, s.calls));
    case Tick =>
      SweepSeparates(s.waiting, s.ticks + 1);
      PartitionSweep(s.waiting, s.log, s.calls, s.ticks + 1);
      var woken := Awake(s.waiting, s.ticks + 1);
      LogGrows(s.log, woken, s.ticks + 1);
      forall w | w in Stamped(woken, s.ticks + 1) ensures w.tick == WakeTick(w.sleeper) <= s.ticks + 1 {
        assert w.sleeper in woken;
      }
  }

  lemma {:induction false} RunInv(s: State, steps: seq<Step>)
    requires Inv(s)
    ensures Inv(Run(s, steps))
    decreases |steps|
  {
    hide Inv;
    if steps != [] {
      StepInv(s, steps[0]);
      RunInv(Stepped(s, steps[0]), steps[1..]);
    }
  }

  /** In every run: the list is in order of time, and of arrival among equals; each
      call waits or has been woken, once; a sleeper is woken at the first tick after
      it joined that is past its time, so not before the ticks it asked for have
      passed; those woken by one tick are woken in the order of the list; and none
      that is overdue is still asleep. */
  lemma EveryRun(steps: seq<Step>)
    ensures var s := Run(State(0, [], 0, []), steps);
            && InOrder(s.waiting) && Partition(s.waiting, s.log, s.calls) && LogInOrder(s.log)
            && (forall w :: w in s.log ==> w.tick == WakeTick(w.sleeper) && w.tick > w.sleeper.wakeup)
            && (forall x :: x in s.waiting ==> s.ticks <= x.wakeup || s.ticks == x.since)
  {
    RunInv(State(0, [], 0, []), steps);
  }

  // ----- Each call -----

  predicate IsCall(step: Step) { step.Call? }

  lemma {:induction false} RunSplit(s: State, a: seq<Step>, b: seq<Step>)
    ensures Run(s, a + b) == Run(Run(s, a), b)
    decreases |a|
  {
    if a == [] {
      assert a + b == b;
    } else {
      assert (a + b)[1..] == a[1..] + b;
      RunSplit(Stepped(s, a[0]), a[1..], b);
    }
  }

  lemma {:induction false} CallsCounted(s: State, steps: seq<Step>)
    ensures Run(s, steps).calls == s.calls + Count(steps, IsCall)
    decreases |steps|
  {
    if steps != [] { CallsCounted(Stepped(s, steps[0]), steps[1..]); }
  }

  /** The call X waits, or has been woken. */
  ghost predicate Present(s: State, x: Sleeper) { x in s.waiting || exists w :: w in s.log && w.sleeper == x }

  lemma PresentKept(s: State, step: Step, x: Sleeper)
    requires Inv(s) && Present(s, x)
    ensures Present(Stepped(s, step), x)
  {
    hide InOrder, Partition, LogInOrder;
    match step
    case Call(tid, start, ticks) =>
      EnqueuedInOrder(s.waiting, Sleeper(tid, WakeupTime(start, ticks), s.ticks, s.calls));
    case Tick =>
      SweepSeparates(s.waiting, s.ticks + 1);
      var woken := Awake(s.waiting, s.ticks + 1);
      var stamped := Stamped(woken, s.ticks + 1);
      assert forall w :: w in s.log ==> w in s.log + stamped;
      if x in woken {
        var i :| 0 <= i < |woken| && woken[i] == x;
        assert stamped[i] in s.log + stamped;
      }
  }

  lemma {:induction false} PresentStays(s: State, steps: seq<Step>, x: Sleeper)
    requires Inv(s) && Present(s, x)
    ensures Present(Run(s, steps), x)
    decreases |steps|
  {
    hide Inv, Present;
    if steps != [] {
      PresentKept(s, steps[0], x);
      StepInv(s, steps[0]);
      PresentStays(Stepped(s, steps[0]), steps[1..], x);
    }
  }

  /** One call of timer_sleep in any run: the Ith step, the Nth call.  Its thread
      waits, or it was woken once; and if it was, then at the first tick at which the
      clock is past the start by more than the ticks asked for, or at the next tick
      if that is later. */
  lemma EachCall(steps: seq<Step>, i: nat)
    requires i < |steps| && steps[i].Call?
    ensures var s, n := Run(State(0, [], 0, []), steps), Count(steps[..i], IsCall);
            var now := Run(State(0, [], 0, []), steps[..i]).ticks;
            var wanted := steps[i].start + (if steps[i].ticks < 0 then 0 else steps[i].ticks);
            && (Has(s.waiting, n) || Logged(s.log, n)) && !(Has(s.waiting, n) && Logged(s.log, n))
            && (forall w :: w in s.log && w.sleeper.order == n ==>
                  w.sleeper.tid == steps[i].tid && w.tick == 1 + (if wanted < now then now else wanted))
            && (forall x :: x in s.waiting && x.order == n ==>
                  x.tid == steps[i].tid && (s.ticks <= wanted || s.ticks == now))
  {
    hide InOrder, LogInOrder;
    var s0 := State(0, [], 0, []);
    var before, after := steps[..i], steps[i + 1..];
    var b := Run(s0, before);
    assert steps == before + ([steps[i]] + after);
    RunSplit(s0, before, [steps[i]] + after);
    RunSplit(b, [steps[i]], after);
    assert [steps[i]][1..] == [];
    StartInv();
    RunInv(s0, before);
    StepInv(b, steps[i]);
    CallsCounted(s0, before);
    var x := Sleeper(steps[i].tid, WakeupTime(steps[i].start, steps[i].ticks), b.ticks, b.calls);
    EnqueuedInOrder(b.waiting, x);
    PresentStays(Stepped(b, steps[i]), after, x);
    RunInv(s0, steps);
    OnlyOne(Run(s0, steps), x);
  }

  lemma StartInv()
    ensures Inv(State(0, [], 0, []))
  {
  }

  /** A call that is present is the only one with its number. */
  lemma OnlyOne(s: State, x: Sleeper)
    requires Inv(s) && Present(s, x)
    ensures forall y :: y in s.waiting && y.order == x.order ==> y == x
    ensures forall w :: w in s.log && w.sleeper.order == x.order ==> w.sleeper == x
    ensures Has(s.waiting, x.order) || Logged(s.log, x.order)
    ensures !(Has(s.waiting, x.order) && Logged(s.log, x.order))
  {
    hide InOrder, LogInOrder;
    forall y | y in s.waiting && y.order == x.order ensures y == x {
      assert Has(s.waiting, x.order);
      assert x in s.waiting || Logged(s.log, x.order);
    }
    forall w | w in s.log && w.sleeper.order == x.order ensures w.sleeper == x {
      assert Logged(s.log, x.order);
      assert x in s.waiting ==> Has(s.waiting, x.order);
    }
  }
}
